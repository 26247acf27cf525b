/** Bytes, 32-bit words and the little-endian layout that the kernel's packed
    records use. */
module Bytes {

  type byte = x: int | 0 <= x < 256
  const WORD := 0x1_0000_0000
  type u32 = x: int | 0 <= x < WORD

  const BACKSPACE: byte := 8
  const NEWLINE: byte := 10
  const SPACE: byte := 32

  function Zeros(n: nat): (z: seq<byte>)
    ensures |z| == n && forall i :: 0 <= i < n ==> z[i] == 0
  {
    seq(n, i => 0)
  }

  /** The four bytes that x86 stores for `v`, lowest first. */
  function Le32(v: u32): (b: seq<byte>)
    ensures |b| == 4
  {
    [v % 256, v / 256 % 256, v / 65536 % 256, v / 16777216]
  }

  function FromLe32(b: seq<byte>): u32
    requires |b| == 4
  {
    var b0: int, b1: int, b2: int, b3: int := b[0], b[1], b[2], b[3];
    b0 + 256 * b1 + 65536 * b2 + 16777216 * b3
  }

  /** The four bytes at address `a` as a word. */
  function WordAt(m: seq<byte>, a: nat): u32
    requires a + 4 <= |m|
  {
    FromLe32(m[a..a + 4])
  }

  /** The number that the four bytes from address `a` on spell, lowest first. */
  function Number(m: seq<byte>, a: nat): int
    requires a + 4 <= |m|
  {
    m[a] + 256 * m[a + 1] as int + 65536 * m[a + 2] as int + 16777216 * m[a + 3] as int
  }

  lemma WordIsNumber(m: seq<byte>, a: nat)
    requires a + 4 <= |m|
    ensures WordAt(m, a) == Number(m, a)
  {
    var b := m[a..a + 4];
    assert b[0] == m[a] && b[1] == m[a + 1] && b[2] == m[a + 2] && b[3] == m[a + 3];
  }

  lemma FromLe32OfLe32(v: u32)
    ensures FromLe32(Le32(v)) == v
  {
    var q1, q2 := v / 256, v / 65536;
    assert v == 256 * q1 + v % 256;
    assert q2 == q1 / 256 && v / 16777216 == q2 / 256;
  }

  lemma Le32OfFromLe32(b: seq<byte>)
    requires |b| == 4
    ensures Le32(FromLe32(b)) == b
  {
    var b0: int, b1: int, b2: int, b3: int := b[0], b[1], b[2], b[3];
    Digit(b0, b1 + 256 * (b2 + 256 * b3));
    Digit(b1, b2 + 256 * b3);
    Digit(b2, b3);
    var v: int := FromLe32(b);
    assert v / 65536 == v / 256 / 256 && v / 16777216 == v / 256 / 256 / 256;
  }

  lemma Digit(d: int, q: int)
    requires 0 <= d < 256
    ensures (d + 256 * q) % 256 == d && (d + 256 * q) / 256 == q
  {
  }

  /** `s` with `part` written over it from index `at` on. */
  function Patch<T>(s: seq<T>, at: nat, part: seq<T>): (r: seq<T>)
    requires at + |part| <= |s|
    ensures |r| == |s|
    ensures forall i :: 0 <= i < |s| ==>
      r[i] == if at <= i < at + |part| then part[i - at] else s[i]
  {
    s[..at] + part + s[at + |part|..]
  }

  /** A slice of a patched sequence is the patch itself, or is untouched when it
      lies wholly on one side of the patch. */
  lemma PatchSlice<T>(s: seq<T>, at: nat, part: seq<T>, lo: nat, hi: nat)
    requires at + |part| <= |s|
    requires lo <= hi <= |s|
    ensures lo == at && hi == at + |part| ==> Patch(s, at, part)[lo..hi] == part
    ensures hi <= at || at + |part| <= lo ==> Patch(s, at, part)[lo..hi] == s[lo..hi]
  {
  }

  /** A patch inside a patch. */
  lemma PatchInside<T>(s: seq<T>, at: nat, part: seq<T>, o: nat, inner: seq<T>)
    requires at + |part| <= |s| && o + |inner| <= |part|
    ensures Patch(Patch(s, at, part), at + o, inner) == Patch(s, at, Patch(part, o, inner))
  {
  }

  lemma SliceOfSlice<T>(s: seq<T>, lo: nat, hi: nat, i: nat, j: nat)
    requires lo <= hi <= |s| && i <= j && lo + j <= hi
    ensures s[lo..hi][i..j] == s[lo + i..lo + j]
  {
    forall x | 0 <= x < j - i
      ensures s[lo..hi][i..j][x] == s[lo + i..lo + j][x]
    {
      assert s[lo..hi][i..j][x] == s[lo..hi][i + x] == s[lo + (i + x)];
    }
  }

  method StoreU32(mem: array<byte>, at: nat, v: u32)
    requires at + 4 <= mem.Length
    modifies mem
    ensures mem[..] == Patch(old(mem[..]), at, Le32(v))
  {
    var b := Le32(v);
    mem[at], mem[at + 1], mem[at + 2], mem[at + 3] := b[0], b[1], b[2], b[3];
  }
}
