/** What a scancode means, told from the scancodes that came before it. */
module Modifiers {
  import opened Bytes
  import opened TerminalSpec
  import opened LineEditorSpec
  import opened ConsoleRuns

  function Codes(ks: seq<Stroke>): (h: seq<byte>)
    ensures |h| == |ks| && forall i :: 0 <= i < |ks| ==> h[i] == ks[i].scancode
  {
    seq(|ks|, i requires 0 <= i < |ks| => ks[i].scancode)
  }

  /** Byte `i` stands for itself: it is not the prefix 0xE0 and not behind one. */
  predicate Plain(h: seq<byte>, i: nat)
    requires i < |h|
  {
    h[i] != 0xE0 && !(i > 0 && h[i - 1] == 0xE0)
  }

  predicate ShiftMake(h: seq<byte>, i: nat)
    requires i < |h|
  {
    Plain(h, i) && (h[i] == 0x2A || h[i] == 0x36)
  }

  predicate ShiftBreak(h: seq<byte>, i: nat)
    requires i < |h|
  {
    Plain(h, i) && (h[i] == 0xAA || h[i] == 0xB6)
  }

  /** A shift key went down and none has come up since. */
  predicate ShiftHeld(h: seq<byte>) {
    exists i :: 0 <= i < |h| && ShiftMake(h, i) && forall j :: i < j < |h| ==> !ShiftBreak(h, j)
  }

  /** How often Caps Lock was pressed. */
  function CapsPresses(h: seq<byte>): nat {
    if h == [] then 0
    else
      var n := |h| - 1;
      CapsPresses(h[..n]) + if Plain(h, n) && h[n] == 0x3A then 1 else 0
  }

  lemma PlainPrefix(h: seq<byte>, n: nat, i: nat)
    requires i < n <= |h|
    ensures Plain(h[..n], i) == Plain(h, i)
  {
  }

  lemma ShiftHeldSnoc(h: seq<byte>)
    requires h != []
    ensures var n := |h| - 1;
      ShiftHeld(h) <==> ShiftMake(h, n) || (ShiftHeld(h[..n]) && !ShiftBreak(h, n))
  {
    var n := |h| - 1;
    forall i | 0 <= i < n
      ensures ShiftMake(h[..n], i) == ShiftMake(h, i) && ShiftBreak(h[..n], i) == ShiftBreak(h, i)
    {
      PlainPrefix(h, n, i);
    }
    if ShiftHeld(h) && !ShiftMake(h, n) {
      var i :| 0 <= i < |h| && ShiftMake(h, i) && forall j :: i < j < |h| ==> !ShiftBreak(h, j);
      assert i < n && ShiftMake(h[..n], i);
      assert !ShiftBreak(h, n);
    }
    if ShiftHeld(h[..n]) && !ShiftBreak(h, n) {
      var i :| 0 <= i < n && ShiftMake(h[..n], i) && forall j :: i < j < n ==> !ShiftBreak(h[..n], j);
      assert ShiftMake(h, i);
    }
  }

  lemma CapsSnoc(h: seq<byte>)
    requires h != []
    ensures var n := |h| - 1;
      CapsPresses(h) == CapsPresses(h[..n]) + if Plain(h, n) && h[n] == 0x3A then 1 else 0
  {
  }

  lemma NothingHeld()
    ensures !ShiftHeld([]) && CapsPresses([]) == 0
  {
  }

  lemma FlagsStep(c: Console, maps: Keymaps, k: Stroke)
    requires Complete(maps) && ConsoleOk(c)
    ensures PressedAll(c, maps, [k]).flags == Decode(c.flags, maps, k.scancode).0
  {
    hide ConsoleOk, Decode, Edit, ScreenAfter;
    assert [k][1..] == [];
  }

  /** From no modifier at all, the flags after any strokes are those of their history. */
  lemma {:induction false} FlagsFollow(c: Console, maps: Keymaps, ks: seq<Stroke>)
    requires Complete(maps) && ConsoleOk(c) && c.flags == Flags(false, false, false)
    ensures var f, h := PressedAll(c, maps, ks).flags, Codes(ks);
      && (f.shift <==> ShiftHeld(h))
      && (f.caps <==> CapsPresses(h) % 2 == 1)
      && (f.extended <==> h != [] && h[|h| - 1] == 0xE0)
    decreases |ks|
  {
    hide ConsoleOk, Pressed, ShiftHeld, CapsPresses;
    if ks == [] {
      NothingHeld();
    } else {
      var n := |ks| - 1;
      var h := Codes(ks);
      FlagsFollow(c, maps, ks[..n]);
      assert Codes(ks[..n]) == h[..n];
      assert ks == ks[..n] + [ks[n]] && [ks[n]][1..] == [];
      PressedMore(c, maps, ks[..n], [ks[n]]);
      FlagsStep(PressedAll(c, maps, ks[..n]), maps, ks[n]);
      ShiftHeldSnoc(h);
      CapsSnoc(h);
      assert n > 0 ==> h[..n][n - 1] == h[n - 1];
    }
  }

  predicate Modifier(scancode: byte) {
    scancode == 0x2A || scancode == 0x36 || scancode == 0xAA || scancode == 0xB6 || scancode == 0x3A
  }

  predicate Letter(c: byte) {
    97 <= c <= 122
  }

  /** The whole decoding, from the history of strokes `ks` alone. Behind the prefix 0xE0
      only the two arrow codes mean something. Otherwise a letter key gives the capital if
      and only if either shift is held or Caps Lock was pressed an odd number of times,
      but not both; any other key takes the shifted table if and only if shift is held. */
  lemma StrokeMeans(c: Console, maps: Keymaps, ks: seq<Stroke>, k: Stroke)
    requires Complete(maps) && ConsoleOk(c) && c.flags == Flags(false, false, false)
    ensures var h, code, key := Codes(ks), k.scancode, KeyOf(PressedAll(c, maps, ks), maps, k);
      var held, caps := ShiftHeld(h), CapsPresses(h) % 2 == 1;
      && (code == 0xE0 ==> key == NoKey)
      && (code != 0xE0 && h != [] && h[|h| - 1] == 0xE0 ==>
           key == if code == 0x4B then Left else if code == 0x4D then Right else NoKey)
      && (code != 0xE0 && !(h != [] && h[|h| - 1] == 0xE0) ==>
           && (Modifier(code) || code >= 128 ==> key == NoKey)
           && (!Modifier(code) && code < 128 && Letter(maps.plain[code]) ==>
                key == Insert(if held != caps then maps.plain[code] - 32 else maps.plain[code]))
           && (!Modifier(code) && code < 128 && !Letter(maps.plain[code]) ==>
                var x := if held then maps.shifted[code] else maps.plain[code];
                key == if x == 0 then NoKey else if x == 8 then Erase else if x == 10 then Enter else Insert(x)))
  {
    hide ConsoleOk, PressedAll, ShiftHeld, CapsPresses;
    FlagsFollow(c, maps, ks);
  }

  /** Caps Lock and A, then the same with shift held: a capital and a small letter. */
  lemma CapsLockRun(s: Screen, maps: Keymaps)
    requires WellFormed(s) && PcKeys(maps)
    ensures ConsoleOk(AtPrompt(s, 0))
    ensures var c, a := AtPrompt(s, 0), Stroke(A_KEY, []);
      && KeyOf(PressedAll(c, maps, [Stroke(0x3A, [])]), maps, a) == Insert(65)
      && KeyOf(PressedAll(c, maps, [Stroke(0x3A, []), Stroke(0x2A, [])]), maps, a) == Insert(97)
  {
    hide ConsoleOk, PressedAll, AtPrompt, Calm;
    PromptIsCalm(s, 0);
    CalmOk(AtPrompt(s, 0));
    assert AtPrompt(s, 0).flags == Flags(false, false, false) by { CalmIsPlain(AtPrompt(s, 0)); }
    var one, two := [Stroke(0x3A, [])], [Stroke(0x3A, []), Stroke(0x2A, [])];
    var h := Codes(two);
    StrokeMeans(AtPrompt(s, 0), maps, one, Stroke(A_KEY, []));
    StrokeMeans(AtPrompt(s, 0), maps, two, Stroke(A_KEY, []));
    assert Codes(one) == [0x3A] && h == [0x3A, 0x2A] && h[..1] == [0x3A] && h[..1][..0] == [];
    assert CapsPresses([]) == 0 && [0x3A][..0] == [];
    assert ShiftMake(h, 1);
  }

  lemma CalmIsPlain(c: Console)
    requires Calm(c)
    ensures c.flags == Flags(false, false, false)
  {
  }
}
