/** The memory and string loops of kernel/libk/string.c.

    A destination is an array that the loop fills in place; a C string is the
    bytes before the first NUL of the memory it starts in. */
module LibkString {
  import opened Bytes

  /** The C string that starts at the front of memory `m`. */
  function CStr(m: seq<byte>): (s: seq<byte>)
    ensures |s| <= |m| && s == m[..|s|] && 0 !in s
    ensures |s| < |m| ==> m[|s|] == 0
    ensures 0 in m ==> |s| < |m|
  {
    if m == [] || m[0] == 0 then [] else [m[0]] + CStr(m[1..])
  }

  /** Only the bytes up to and including the terminator matter. */
  lemma {:induction false} CStrOf(s: seq<byte>, rest: seq<byte>)
    requires 0 !in s
    requires rest == [] || rest[0] == 0
    ensures CStr(s + rest) == s
  {
    if s == [] {
      assert s + rest == rest;
    } else {
      assert (s + rest)[1..] == s[1..] + rest;
      CStrOf(s[1..], rest);
    }
  }

  function Signed(b: byte): int {
    if b < 128 then b else b - 256
  }

  /** What strcmp returns for two strings: the signed difference at the first
      position where they part, the terminator counting as 0. */
  function Difference(s: seq<byte>, t: seq<byte>): int {
    if s != [] && t != [] && s[0] == t[0] then Difference(s[1..], t[1..])
    else (if s == [] then 0 else Signed(s[0])) - (if t == [] then 0 else Signed(t[0]))
  }

  lemma {:induction false} DifferenceIsZeroOnlyForEqual(s: seq<byte>, t: seq<byte>)
    requires 0 !in s && 0 !in t
    ensures Difference(s, t) == 0 <==> s == t
  {
    if s != [] && t != [] && s[0] == t[0] {
      DifferenceIsZeroOnlyForEqual(s[1..], t[1..]);
      assert s == [s[0]] + s[1..] && t == [t[0]] + t[1..];
    }
  }

  lemma {:induction false} DifferenceSkipsCommonPrefix(s: seq<byte>, t: seq<byte>, n: nat)
    requires n <= |s| && n <= |t| && s[..n] == t[..n]
    ensures Difference(s, t) == Difference(s[n..], t[n..])
  {
    if n > 0 {
      assert s[0] == s[..n][0] == t[..n][0] == t[0];
      assert s[1..][..n - 1] == s[..n][1..] && t[1..][..n - 1] == t[..n][1..];
      DifferenceSkipsCommonPrefix(s[1..], t[1..], n - 1);
      assert s[1..][n - 1..] == s[n..] && t[1..][n - 1..] == t[n..];
    } else {
      assert s[0..] == s && t[0..] == t;
    }
  }

  /** Where two strings part after `n` common bytes, their difference is that of the signed
      bytes there. */
  lemma DifferenceAtParting(s: seq<byte>, t: seq<byte>, n: nat)
    requires n < |s| && n < |t| && s[..n] == t[..n] && s[n] != t[n]
    ensures Difference(s, t) ==
      (var a: int := s[n]; if a < 128 then a else a - 256) - (var b: int := t[n]; if b < 128 then b else b - 256)
  {
    DifferenceSkipsCommonPrefix(s, t, n);
  }

  /** Where the strings of `a` and `b` agree up to `i` and then part or one ends, the
      bytes at `i` give the difference. */
  lemma PartAt(a: seq<byte>, b: seq<byte>, i: nat)
    requires 0 in a && 0 in b && i <= |CStr(a)| && i <= |CStr(b)|
    requires CStr(a)[..i] == CStr(b)[..i]
    requires a[i] == 0 || b[i] == 0 || a[i] != b[i]
    ensures Difference(CStr(a), CStr(b)) == Signed(a[i]) - Signed(b[i])
  {
    hide CStr;
    var s, t := CStr(a), CStr(b);
    DifferenceSkipsCommonPrefix(s, t, i);
    assert s[i..] == [] || s[i..][0] == a[i];
    assert t[i..] == [] || t[i..][0] == b[i];
  }

  method Strcmp(a: seq<byte>, b: seq<byte>) returns (r: int)
    requires 0 in a && 0 in b
    ensures r == Difference(CStr(a), CStr(b))
    ensures r == 0 <==> CStr(a) == CStr(b)
  {
    hide CStr, Difference, Signed;
    ghost var s, t := CStr(a), CStr(b);
    DifferenceIsZeroOnlyForEqual(s, t);
    var i := 0;
    while a[i] != 0 && b[i] != 0
      invariant i <= |s| && i <= |t|
      invariant s[..i] == t[..i]
      decreases |s| - i
    {
      assert i < |s| && i < |t| && s[i] == a[i] && t[i] == b[i];
      if a[i] != b[i] {
        PartAt(a, b, i);
        return Signed(a[i]) - Signed(b[i]);
      }
      assert s[..i + 1] == s[..i] + [a[i]] && t[..i + 1] == t[..i] + [b[i]];
      i := i + 1;
    }
    PartAt(a, b, i);
    return Signed(a[i]) - Signed(b[i]);
  }

  method Strlen(m: seq<byte>) returns (len: nat)
    requires 0 in m
    ensures len == |CStr(m)|
  {
    ghost var s := CStr(m);
    len := 0;
    while m[len] != 0
      invariant len <= |s|
      decreases |s| - len
    {
      len := len + 1;
    }
  }

  method Memset(dest: array<byte>, at: nat, c: byte, n: nat)
    requires at + n <= dest.Length
    modifies dest
    ensures dest[..] == Patch(old(dest[..]), at, seq(n, i => c))
  {
    var d := 0;
    while d < n
      invariant d <= n
      invariant forall i :: 0 <= i < dest.Length ==>
        dest[i] == if at <= i < at + d then c else old(dest[i])
    {
      dest[at + d] := c;
      d := d + 1;
    }
  }

  /** The offset whose old byte a forward copy puts at offset `k`: when the destination
      begins inside the source, the bytes before it repeat. */
  function CopiedFrom(k: nat, at: nat, from: nat): (r: nat)
    ensures r <= k
  {
    if at <= from || k < at - from then k else CopiedFrom(k - (at - from), at, from)
  }

  lemma {:induction false} NoRepeat(k: nat, at: nat, from: nat)
    ensures at <= from || k < at - from ==> CopiedFrom(k, at, from) == k
    ensures from < at && k >= at - from ==> CopiedFrom(k, at, from) == CopiedFrom(k - (at - from), at, from)
  {
  }

  /** The first `d` bytes copied front to back. */
  ghost predicate CopiedUpTo(was: seq<byte>, now: seq<byte>, at: nat, from: nat, d: nat)
    requires at + d <= |was| && from + d <= |was|
  {
    && |now| == |was|
    && forall i {:trigger now[i]} :: 0 <= i < |was| ==>
         now[i] == if at <= i < at + d then was[from + CopiedFrom(i - at, at, from)] else was[i]
  }

  lemma OneMoreCopied(was: seq<byte>, now: seq<byte>, at: nat, from: nat, d: nat)
    requires at + d < |was| && from + d < |was| && CopiedUpTo(was, now, at, from, d)
    ensures CopiedUpTo(was, now[at + d := now[from + d]], at, from, d + 1)
  {
    NoRepeat(d, at, from);
  }

  lemma CopiedApart(was: seq<byte>, now: seq<byte>, at: nat, from: nat, n: nat)
    requires at + n <= |was| && from + n <= |was| && CopiedUpTo(was, now, at, from, n)
    requires at <= from || from + n <= at
    ensures now == Patch(was, at, was[from..from + n])
  {
    hide CopiedFrom, Patch;
    forall i | at <= i < at + n
      ensures now[i] == was[from + (i - at)]
    {
      NoRepeat(i - at, at, from);
    }
  }

  /** The byte loop, front to back. It copies the source as it was unless the destination
      begins inside it. */
  method Memcpy(dest: array<byte>, at: nat, src: array<byte>, from: nat, n: nat)
    requires at + n <= dest.Length && from + n <= src.Length
    modifies dest
    ensures dest != src || at <= from || from + n <= at ==>
      dest[..] == Patch(old(dest[..]), at, old(src[from..from + n]))
    ensures dest == src ==> CopiedUpTo(old(dest[..]), dest[..], at, from, n)
  {
    hide CopiedUpTo;
    ghost var was := dest[..];
    if dest == src {
      NothingCopied(was, at, from);
    }
    var d := 0;
    while d < n
      invariant d <= n
      invariant dest != src ==> dest[..] == Patch(was, at, src[from..from + d])
      invariant dest == src ==> |was| == dest.Length && CopiedUpTo(was, dest[..], at, from, d)
    {
      ghost var now := dest[..];
      dest[at + d] := src[from + d];
      if dest == src {
        OneMoreCopied(was, now, at, from, d);
        assert dest[..] == now[at + d := now[from + d]];
      }
      d := d + 1;
    }
    if dest == src && (at <= from || from + n <= at) {
      CopiedApart(was, dest[..], at, from, n);
    }
  }

  lemma NothingCopied(was: seq<byte>, at: nat, from: nat)
    requires at <= |was| && from <= |was|
    ensures CopiedUpTo(was, was, at, from, 0)
  {
  }

  /** Copies the string at the front of `src`, terminator included. */
  method Strcpy(dest: array<byte>, at: nat, src: seq<byte>)
    requires 0 in src && at + |CStr(src)| + 1 <= dest.Length
    modifies dest
    ensures dest[..] == Patch(old(dest[..]), at, CStr(src) + [0])
  {
    ghost var s := CStr(src);
    var i := 0;
    while src[i] != 0
      invariant i <= |s|
      invariant forall j :: 0 <= j < dest.Length ==>
        dest[j] == if at <= j < at + i then s[j - at] else old(dest[j])
      decreases |s| - i
    {
      assert s[i] == src[i];
      dest[at + i] := src[i];
      i := i + 1;
    }
    assert i == |s|;
    dest[at + i] := 0;
  }

  lemma Appended(was: seq<byte>, t: seq<byte>)
    requires 0 in was && 0 !in t && |CStr(was)| + |t| + 1 <= |was|
    ensures var now := Patch(was, |CStr(was)|, t + [0]);
      0 in now && CStr(now) == CStr(was) + t
  {
    var s := CStr(was);
    var now := Patch(was, |s|, t + [0]);
    var n := |s| + |t|;
    assert now[n] == 0;
    assert now == (s + t) + now[n..];
    CStrOf(s + t, now[n..]);
  }

  /** Appends the string of `src` to the string already in `dest`. */
  method Strcat(dest: array<byte>, src: seq<byte>)
    requires 0 in dest[..] && 0 in src
    requires |CStr(dest[..])| + |CStr(src)| + 1 <= dest.Length
    modifies dest
    ensures dest[..] == Patch(old(dest[..]), |old(CStr(dest[..]))|, CStr(src) + [0])
    ensures 0 in dest[..] && CStr(dest[..]) == old(CStr(dest[..])) + CStr(src)
  {
    hide CStr, Patch;
    ghost var was, s := dest[..], CStr(dest[..]);
    var p := 0;
    while dest[p] != 0
      invariant p <= |s| && dest[..] == was
      decreases |s| - p
    {
      assert was[p] != 0;
      p := p + 1;
    }
    assert p == |s|;
    ghost var t := CStr(src);
    var i := 0;
    while src[i] != 0
      invariant i <= |t|
      invariant forall j :: 0 <= j < dest.Length ==> dest[j] == if p <= j < p + i then t[j - p] else was[j]
      decreases |t| - i
    {
      assert t[i] == src[i];
      dest[p + i] := src[i];
      i := i + 1;
    }
    assert i == |t|;
    dest[p + i] := 0;
    assert dest[..] == Patch(was, p, t + [0]);
    Appended(was, t);
  }
}
