/** Runs of keyboard interrupts: the modifier flags, the edited text and the screen
    together, over every sequence of scancodes. */
module ConsoleRuns {
  import opened Bytes
  import opened TerminalSpec
  import opened LineEditorSpec

  /** What one keyboard interrupt finds and leaves. */
  datatype Console = Console(flags: Flags, editor: Editor, screen: Screen)

  /** A scancode, with what the shell shows if it completes a line. */
  datatype Stroke = Stroke(scancode: byte, output: seq<Output>)

  predicate ConsoleOk(c: Console) {
    WellFormed(c.screen) && EditorOk(c.editor)
  }

  /** What the stroke means; characters that reach the text are neither NUL nor control
      keys of the editor. */
  function KeyOf(c: Console, maps: Keymaps, k: Stroke): (key: Key)
    requires Complete(maps)
    ensures key.Insert? ==> key.c != 0 && key.c != NEWLINE && key.c != BACKSPACE
  {
    Decode(c.flags, maps, k.scancode).1
  }

  function Pressed(c: Console, maps: Keymaps, k: Stroke): (c': Console)
    requires Complete(maps) && ConsoleOk(c)
    ensures ConsoleOk(c')
  {
    hide WellFormed, Edit, EditorOk, ScreenAfter;
    var key := KeyOf(c, maps, k);
    EditKeepsOk(c.editor, key);
    ScreenStaysWellFormed(c.screen, c.editor, key, k.output);
    Console(Decode(c.flags, maps, k.scancode).0, Edit(c.editor, key), ScreenAfter(c.screen, c.editor, key, k.output))
  }

  function PressedAll(c: Console, maps: Keymaps, ks: seq<Stroke>): (c': Console)
    requires Complete(maps) && ConsoleOk(c)
    ensures ConsoleOk(c')
    decreases |ks|
  {
    if ks == [] then c else PressedAll(Pressed(c, maps, ks[0]), maps, ks[1..])
  }

  lemma {:induction false} PressedMore(c: Console, maps: Keymaps, ks: seq<Stroke>, more: seq<Stroke>)
    requires Complete(maps) && ConsoleOk(c)
    ensures PressedAll(c, maps, ks + more) == PressedAll(PressedAll(c, maps, ks), maps, more)
    decreases |ks|
  {
    hide Pressed, ConsoleOk;
    if ks == [] {
      assert ks + more == more;
    } else {
      PressedMore(Pressed(c, maps, ks[0]), maps, ks[1..], more);
      assert (ks + more)[1..] == ks[1..] + more;
    }
  }

  // ----- the lines handed to the shell -----

  /** The lines that Enter hands over on the way. */
  function Lines(c: Console, maps: Keymaps, ks: seq<Stroke>): seq<seq<byte>>
    requires Complete(maps) && ConsoleOk(c)
    decreases |ks|
  {
    if ks == [] then []
    else (if KeyOf(c, maps, ks[0]).Enter? then [Text(c.editor)] else []) + Lines(Pressed(c, maps, ks[0]), maps, ks[1..])
  }

  predicate LineOk(line: seq<byte>) {
    |line| < BUFFER_SIZE && 0 !in line
  }

  /** Whatever is typed, the line and every line handed to the shell has at most 255
      characters and no NUL. */
  lemma {:induction false} TypedLinesOk(c: Console, maps: Keymaps, ks: seq<Stroke>)
    requires Complete(maps) && ConsoleOk(c)
    ensures LineOk(Text(PressedAll(c, maps, ks).editor))
    ensures forall line :: line in Lines(c, maps, ks) ==> LineOk(line)
    decreases |ks|
  {
    hide Pressed, KeyOf, WellFormed;
    if ks != [] {
      TypedLinesOk(Pressed(c, maps, ks[0]), maps, ks[1..]);
    }
  }

  // ----- the cursor -----

  /** Over every sequence of strokes the cursor stays on the cell of the cursor position,
      also where the screen does not show the line. */
  lemma {:induction false} CursorStaysInPlace(c: Console, maps: Keymaps, ks: seq<Stroke>)
    requires Complete(maps) && ConsoleOk(c) && CursorInPlace(c.screen, c.editor)
    ensures CursorInPlace(PressedAll(c, maps, ks).screen, PressedAll(c, maps, ks).editor)
    decreases |ks|
  {
    hide CursorInPlace, KeyOf, Edit, ScreenAfter, WellFormed, EditorOk;
    if ks != [] {
      KeyKeepsCursor(c.screen, c.editor, KeyOf(c, maps, ks[0]), ks[0].output);
      CursorStaysInPlace(Pressed(c, maps, ks[0]), maps, ks[1..]);
    }
  }

  // ----- screen and text in step -----

  ghost predicate InStep(c: Console) {
    Agrees(c.screen, Text(c.editor), |c.editor.before|)
  }

  /** Every line that is redrawn on the way can be shown. */
  predicate ShowableAlong(c: Console, maps: Keymaps, ks: seq<Stroke>)
    requires Complete(maps) && ConsoleOk(c)
    decreases |ks|
  {
    ks != [] ==>
      && var key := KeyOf(c, maps, ks[0]);
      var e' := Edit(c.editor, key);
      && (Redraws(c.editor, key) ==> Showable(c.screen, Text(e'), |e'.before|))
      && ShowableAlong(Pressed(c, maps, ks[0]), maps, ks[1..])
  }

  /** No character is pushed off the last cell of the screen on the way. */
  predicate NothingPushedOff(c: Console, maps: Keymaps, ks: seq<Stroke>)
    requires Complete(maps) && ConsoleOk(c)
    decreases |ks|
  {
    ks != [] ==>
      && !PushesOff(c.screen, c.editor, KeyOf(c, maps, ks[0]))
      && NothingPushedOff(Pressed(c, maps, ks[0]), maps, ks[1..])
  }

  ghost predicate AlwaysInStep(c: Console, maps: Keymaps, ks: seq<Stroke>)
    requires Complete(maps) && ConsoleOk(c)
  {
    forall i :: 0 <= i <= |ks| ==> InStep(PressedAll(c, maps, ks[..i]))
  }

  lemma PrefixPressed(c: Console, maps: Keymaps, ks: seq<Stroke>, i: nat)
    requires Complete(maps) && ConsoleOk(c) && 0 < i <= |ks|
    ensures PressedAll(c, maps, ks[..i]) == PressedAll(Pressed(c, maps, ks[0]), maps, ks[1..][..i - 1])
  {
    hide Pressed, ConsoleOk;
    assert ks[..i][1..] == ks[1..][..i - 1];
  }

  /** One stroke from an in-step console: the result is in step exactly when the line
      drawn, if any, can be shown, that is, when nothing is pushed off. */
  lemma StrokeInStepIff(c: Console, maps: Keymaps, k: Stroke)
    requires Complete(maps) && ConsoleOk(c) && InStep(c)
    ensures var key := KeyOf(c, maps, k);
      var e' := Edit(c.editor, key);
      && (InStep(Pressed(c, maps, k)) <==> (Redraws(c.editor, key) ==> Showable(c.screen, Text(e'), |e'.before|)))
      && (InStep(Pressed(c, maps, k)) <==> !PushesOff(c.screen, c.editor, key))
  {
    hide Agrees, Edit, ScreenAfter, Showable, WellFormed, EditorOk, KeyOf, Redraws;
    var key := KeyOf(c, maps, k);
    KeyAgreesIff(c.screen, c.editor, key, k.output);
    if Redraws(c.editor, key) {
      ShowableIffNotPushed(c.screen, c.editor, key);
    }
  }

  /** Over every sequence of scancodes and shell outputs, from a console in step: screen
      and text stay in step throughout if and only if every line drawn can be shown, and
      if and only if no character is pushed off the end of the screen. */
  lemma {:induction false} StrokesKeepInStepIff(c: Console, maps: Keymaps, ks: seq<Stroke>)
    requires Complete(maps) && ConsoleOk(c) && InStep(c)
    ensures AlwaysInStep(c, maps, ks) <==> ShowableAlong(c, maps, ks)
    ensures AlwaysInStep(c, maps, ks) <==> NothingPushedOff(c, maps, ks)
    decreases |ks|
  {
    hide InStep, Edit, Showable, PushesOff, ConsoleOk, KeyOf, Pressed, Redraws;
    if ks == [] {
      assert ks[..0] == [];
    } else {
      var c1 := Pressed(c, maps, ks[0]);
      StrokeInStepIff(c, maps, ks[0]);
      PrefixPressed(c, maps, ks, 1);
      assert ks[1..][..0] == [];
      if InStep(c1) {
        StrokesKeepInStepIff(c1, maps, ks[1..]);
        StepsAfterFirst(c, maps, ks);
      }
    }
  }

  lemma StepsAfterFirst(c: Console, maps: Keymaps, ks: seq<Stroke>)
    requires Complete(maps) && ConsoleOk(c) && InStep(c) && ks != []
    ensures AlwaysInStep(c, maps, ks) <==> AlwaysInStep(Pressed(c, maps, ks[0]), maps, ks[1..])
  {
    hide InStep, ConsoleOk, Pressed, PressedAll;
    var c1 := Pressed(c, maps, ks[0]);
    NoStrokes(c, maps);
    assert ks[..0] == [];
    forall i | 0 < i <= |ks|
      ensures PressedAll(c, maps, ks[..i]) == PressedAll(c1, maps, ks[1..][..i - 1])
    {
      PrefixPressed(c, maps, ks, i);
    }
    if AlwaysInStep(c, maps, ks) {
      forall j | 0 <= j <= |ks[1..]|
        ensures InStep(PressedAll(c1, maps, ks[1..][..j]))
      {
        assert InStep(PressedAll(c, maps, ks[..j + 1]));
      }
    }
  }

  lemma NoStrokes(c: Console, maps: Keymaps)
    requires Complete(maps) && ConsoleOk(c)
    ensures PressedAll(c, maps, []) == c
  {
  }

  // ----- behind the line -----

  /** Every Enter on the way leaves a blank screen behind the new line. */
  predicate EntersCleanAlong(c: Console, maps: Keymaps, ks: seq<Stroke>)
    requires Complete(maps) && ConsoleOk(c)
    decreases |ks|
  {
    ks != [] ==>
      && (KeyOf(c, maps, ks[0]).Enter? ==> EntersClean(c.screen, c.editor, ks[0].output))
      && EntersCleanAlong(Pressed(c, maps, ks[0]), maps, ks[1..])
  }

  predicate BlankTail(c: Console) {
    BlankBehind(c.screen, c.editor)
  }

  ghost predicate AlwaysBlankTail(c: Console, maps: Keymaps, ks: seq<Stroke>)
    requires Complete(maps) && ConsoleOk(c)
  {
    forall i :: 0 <= i <= |ks| ==> BlankTail(PressedAll(c, maps, ks[..i]))
  }

  lemma StrokeBlankTailIff(c: Console, maps: Keymaps, k: Stroke)
    requires Complete(maps) && ConsoleOk(c) && InStep(c) && BlankTail(c)
    ensures BlankTail(Pressed(c, maps, k)) <==>
      (KeyOf(c, maps, k).Enter? ==> EntersClean(c.screen, c.editor, k.output))
  {
    hide Agrees, Edit, ScreenAfter, WellFormed, EditorOk, KeyOf, BlankBehind, EntersClean;
    var key := KeyOf(c, maps, k);
    if key.Enter? {
      EnterBlankIff(c.screen, c.editor, k.output);
    } else {
      RedrawKeepsBlank(c.screen, c.editor, key, k.output);
    }
  }

  /** Over every sequence of strokes that keeps screen and text in step: the screen stays
      blank behind the line throughout if and only if every Enter is clean. */
  lemma {:induction false} TailStaysBlankIff(c: Console, maps: Keymaps, ks: seq<Stroke>)
    requires Complete(maps) && ConsoleOk(c) && InStep(c) && BlankTail(c) && NothingPushedOff(c, maps, ks)
    ensures AlwaysBlankTail(c, maps, ks) <==> EntersCleanAlong(c, maps, ks)
    decreases |ks|
  {
    hide InStep, BlankTail, EntersClean, PushesOff, ConsoleOk, KeyOf, Pressed;
    if ks == [] {
      assert ks[..0] == [];
    } else {
      var c1 := Pressed(c, maps, ks[0]);
      StrokeInStepIff(c, maps, ks[0]);
      StrokeBlankTailIff(c, maps, ks[0]);
      PrefixPressed(c, maps, ks, 1);
      assert ks[1..][..0] == [];
      if BlankTail(c1) {
        TailStaysBlankIff(c1, maps, ks[1..]);
        TailsAfterFirst(c, maps, ks);
      }
    }
  }

  lemma TailsAfterFirst(c: Console, maps: Keymaps, ks: seq<Stroke>)
    requires Complete(maps) && ConsoleOk(c) && BlankTail(c) && ks != []
    ensures AlwaysBlankTail(c, maps, ks) <==> AlwaysBlankTail(Pressed(c, maps, ks[0]), maps, ks[1..])
  {
    hide BlankTail, ConsoleOk, Pressed, PressedAll;
    var c1 := Pressed(c, maps, ks[0]);
    NoStrokes(c, maps);
    assert ks[..0] == [];
    forall i | 0 < i <= |ks|
      ensures PressedAll(c, maps, ks[..i]) == PressedAll(c1, maps, ks[1..][..i - 1])
    {
      PrefixPressed(c, maps, ks, i);
    }
    if AlwaysBlankTail(c, maps, ks) {
      forall j | 0 <= j <= |ks[1..]|
        ensures BlankTail(PressedAll(c1, maps, ks[1..][..j]))
      {
        assert BlankTail(PressedAll(c, maps, ks[..j + 1]));
      }
    }
  }

  // ----- two runs that go wrong -----

  const A_KEY: byte := 0x1E
  const ENTER_KEY: byte := 0x1C
  const LETTER_A: byte := 97
  // "RoxyOS> "
  const PROMPT: seq<byte> := [82, 111, 120, 121, 79, 83, 62, 32]

  /** The scancode table gives the A and the Enter key their letters. */
  predicate PcKeys(maps: Keymaps) {
    Complete(maps) && maps.plain[A_KEY] == LETTER_A && maps.plain[ENTER_KEY] == NEWLINE
  }

  function Letters(n: nat): (ks: seq<Stroke>)
    ensures |ks| == n
  {
    seq(n, _ => Stroke(A_KEY, []))
  }

  function Lefts(n: nat): seq<Stroke> {
    if n == 0 then [] else [Stroke(0xE0, []), Stroke(0x4B, [])] + Lefts(n - 1)
  }

  /** Screen and text are in step, the screen is blank behind the line, and no modifier
      is pressed. */
  ghost predicate Calm(c: Console) {
    ConsoleOk(c) && InStep(c) && BlankTail(c) && c.flags == Flags(false, false, false)
  }

  predicate SameOrigin(c: Console, c': Console) {
    c'.screen.startX == c.screen.startX && c'.screen.startY == c.screen.startY
  }

  /** A key that draws a line with room to spare, its cursor above the end of the screen. */
  lemma RoomyKey(c: Console, maps: Keymaps, k: Stroke)
    requires Complete(maps) && ConsoleOk(c) && InStep(c) && BlankTail(c)
    requires var key := KeyOf(c, maps, k);
      && Redraws(c.editor, key)
      && Origin(c.screen) + |Text(Edit(c.editor, key))| <= CELLS
      && Origin(c.screen) + |Edit(c.editor, key).before| < CELLS
    ensures InStep(Pressed(c, maps, k)) && BlankTail(Pressed(c, maps, k)) && SameOrigin(c, Pressed(c, maps, k))
  {
    hide Agrees, Edit, WellFormed, KeyOf, BlankBehind, Redrawn, Redraws;
    var key := KeyOf(c, maps, k);
    var e' := Edit(c.editor, key);
    assert !key.Enter? by { RedrawsIsNoEnter(c.editor, key); }
    EditKeepsOk(c.editor, key);
    StrokeInStepIff(c, maps, k);
    StrokeBlankTailIff(c, maps, k);
    RedrawnCells(c.screen, |Text(c.editor)|, Text(e'), |e'.before|, 0);
  }

  lemma RedrawsIsNoEnter(e: Editor, key: Key)
    requires Redraws(e, key)
    ensures !key.Enter?
  {
  }

  lemma {:induction false} LettersTyped(c: Console, maps: Keymaps, n: nat)
    requires PcKeys(maps) && Calm(c) && |Text(c.editor)| + n < BUFFER_SIZE
    requires Origin(c.screen) + |Text(c.editor)| + n <= CELLS && Origin(c.screen) + |c.editor.before| + n < CELLS
    ensures var c' := PressedAll(c, maps, Letters(n));
      && Calm(c') && SameOrigin(c, c')
      && c'.editor == Editor(c.editor.before + seq(n, _ => LETTER_A), c.editor.after)
    decreases n
  {
    hide InStep, BlankTail, ScreenAfter, WellFormed, EditorOk;
    if n == 0 {
      assert c.editor.before + seq(0, _ => LETTER_A) == c.editor.before;
    } else {
      var k := Stroke(A_KEY, []);
      assert KeyOf(c, maps, k) == Insert(LETTER_A);
      RoomyKey(c, maps, k);
      LettersTyped(Pressed(c, maps, k), maps, n - 1);
      assert Letters(n)[0] == k && Letters(n)[1..] == Letters(n - 1);
      assert c.editor.before + [LETTER_A] + seq(n - 1, _ => LETTER_A) == c.editor.before + seq(n, _ => LETTER_A);
    }
  }

  lemma LeftMoved(c: Console, maps: Keymaps)
    requires PcKeys(maps) && Calm(c) && c.editor.before != []
    requires Origin(c.screen) + |Text(c.editor)| <= CELLS
    ensures var c1 := Pressed(c, maps, Stroke(0xE0, []));
      var c' := Pressed(c1, maps, Stroke(0x4B, []));
      var b, m := c.editor.before, |c.editor.before| - 1;
      && Calm(c') && Origin(c'.screen) == Origin(c.screen) && SameOrigin(c, c')
      && c'.editor == Editor(b[..m], [b[m]] + c.editor.after)
  {
    hide Agrees, WellFormed, EditorOk, BlankBehind;
    var c1 := Pressed(c, maps, Stroke(0xE0, []));
    assert KeyOf(c, maps, Stroke(0xE0, [])) == NoKey;
    assert c1 == Console(Flags(false, false, true), c.editor, c.screen);
    assert KeyOf(c1, maps, Stroke(0x4B, [])) == Left;
    RoomyKey(c1, maps, Stroke(0x4B, []));
  }

  lemma CalmOk(c: Console)
    requires Calm(c)
    ensures ConsoleOk(c)
  {
  }

  lemma TwoStrokes(c: Console, maps: Keymaps, k0: Stroke, k1: Stroke, ks: seq<Stroke>)
    requires Complete(maps) && ConsoleOk(c)
    ensures PressedAll(c, maps, [k0, k1] + ks) == PressedAll(Pressed(Pressed(c, maps, k0), maps, k1), maps, ks)
  {
    hide Pressed, ConsoleOk;
    assert ([k0, k1] + ks)[1..] == [k1] + ks && ([k1] + ks)[1..] == ks;
  }

  lemma MovedPieces(b: seq<byte>, after: seq<byte>, at: nat)
    requires at < |b|
    ensures var m := |b| - 1;
      && b[..m][..at] == b[..at]
      && b[..m][at..] + ([b[m]] + after) == b[at..] + after
  {
  }

  lemma {:induction false} LeftsMoved(c: Console, maps: Keymaps, n: nat)
    requires PcKeys(maps) && Calm(c) && n <= |c.editor.before|
    requires Origin(c.screen) + |Text(c.editor)| <= CELLS
    ensures var c' := PressedAll(c, maps, Lefts(n));
      var at := |c.editor.before| - n;
      && Calm(c') && SameOrigin(c, c')
      && c'.editor == Editor(c.editor.before[..at], c.editor.before[at..] + c.editor.after)
    decreases n
  {
    hide Calm, Pressed, ConsoleOk, PressedAll, Origin;
    CalmOk(c);
    var b, at := c.editor.before, |c.editor.before| - n;
    if n == 0 {
      NoStrokes(c, maps);
      assert b[..at] == b && b[at..] + c.editor.after == c.editor.after;
    } else {
      var k0, k1 := Stroke(0xE0, []), Stroke(0x4B, []);
      LeftMoved(c, maps);
      TwoStrokes(c, maps, k0, k1, Lefts(n - 1));
      LeftsMoved(Pressed(Pressed(c, maps, k0), maps, k1), maps, n - 1);
      MovedPieces(b, c.editor.after, at);
    }
  }

  /** The console after clearing the screen, `row` newlines and the prompt. */
  function AtPrompt(s: Screen, row: nat): Console
    requires WellFormed(s)
  {
    Console(Flags(false, false, false), Editor([], []), Marked(PutAll(Cleared(s), seq(row, _ => NEWLINE) + PROMPT)))
  }

  lemma PromptIsCalm(s: Screen, row: nat)
    requires WellFormed(s) && row < HEIGHT
    ensures var c := AtPrompt(s, row);
      Calm(c) && c.screen.startX == |PROMPT| && c.screen.startY == row
  {
    hide PutAll, Put, PosFrom, Shown;
    var text := seq(row, _ => NEWLINE) + PROMPT;
    PosFromNewlines(row);
    PosFromTwo(0, seq(row, _ => NEWLINE), PROMPT);
    PosFromPlain(WIDTH * row, PROMPT);
    PutAllShows(s, text);
    TextBlankIff(Cleared(s), text);
  }

  /** A run that breaks the agreement: behind the prompt on the bottom row, type 71
      letters, go left once and type two more. The first fills the last cell of the
      screen, the second pushes the last letter of the line out of sight. */
  lemma PushedOffRun(s: Screen, maps: Keymaps)
    requires WellFormed(s) && PcKeys(maps)
    ensures ConsoleOk(AtPrompt(s, HEIGHT - 1))
    ensures var c, ks := AtPrompt(s, HEIGHT - 1), Letters(71) + Lefts(1) + Letters(1);
      && InStep(PressedAll(c, maps, ks))
      && !InStep(PressedAll(c, maps, ks + Letters(1)))
  {
    hide Calm, Pressed, ConsoleOk, PressedAll, AtPrompt, Letters;
    var c := AtPrompt(s, HEIGHT - 1);
    PromptIsCalm(s, HEIGHT - 1);
    PromptHasNoLine(s, HEIGHT - 1);
    CalmOk(c);
    LettersTyped(c, maps, 71);
    var c1 := PressedAll(c, maps, Letters(71));
    LeftsMoved(c1, maps, 1);
    var c2 := PressedAll(c1, maps, Lefts(1));
    PressedMore(c, maps, Letters(71), Lefts(1));
    LettersTyped(c2, maps, 1);
    var c3 := PressedAll(c2, maps, Letters(1));
    PressedMore(c, maps, Letters(71) + Lefts(1), Letters(1));
    CalmOk(c3);
    LastLetterPushed(c3, maps);
    PressedMore(c, maps, Letters(71) + Lefts(1) + Letters(1), Letters(1));
  }

  lemma PromptHasNoLine(s: Screen, row: nat)
    requires WellFormed(s)
    ensures AtPrompt(s, row).editor == Editor([], [])
  {
  }

  lemma LastLetterPushed(c: Console, maps: Keymaps)
    requires PcKeys(maps) && Calm(c) && Origin(c.screen) + |Text(c.editor)| == CELLS
    requires |Text(c.editor)| < BUFFER_SIZE - 1 && c.editor.after == [LETTER_A]
    ensures InStep(c) && !InStep(PressedAll(c, maps, Letters(1)))
  {
    hide InStep, BlankTail, ScreenAfter, WellFormed, EditorOk;
    var k := Stroke(A_KEY, []);
    assert KeyOf(c, maps, k) == Insert(LETTER_A);
    StrokeInStepIff(c, maps, k);
    assert Letters(1) == [k] && Letters(1)[1..] == [];
  }

  function Prints(text: seq<byte>): (output: seq<Output>)
    ensures |output| == |text| && forall i :: 0 <= i < |text| ==> output[i] == Print(text[i])
  {
    seq(|text|, i requires 0 <= i < |text| => Print(text[i]))
  }

  lemma {:induction false} PrintsSinceClear(text: seq<byte>)
    ensures SinceClear(Prints(text)) == text && Clear !in Prints(text)
    decreases |text|
  {
    if text != [] {
      var n := |text| - 1;
      PrintsSinceClear(text[..n]);
      assert Prints(text)[..n] == Prints(text[..n]);
    }
  }

  /** A run that leaves the tail of an old line behind the new one: on the top row, type
      100 letters, go back to the first and press Enter. The prompt comes on the next
      row, over the end of the old line, and the rest of that stays behind it. */
  lemma StaleTailRun(s: Screen, maps: Keymaps)
    requires WellFormed(s) && PcKeys(maps)
    ensures ConsoleOk(AtPrompt(s, 0))
    ensures var c, ks := AtPrompt(s, 0), Letters(100) + Lefts(100);
      var enter := [Stroke(ENTER_KEY, Prints(PROMPT))];
      && BlankTail(PressedAll(c, maps, ks)) && InStep(PressedAll(c, maps, ks + enter))
      && !BlankTail(PressedAll(c, maps, ks + enter))
  {
    hide Calm, Pressed, ConsoleOk, PressedAll, AtPrompt, Letters, Lefts;
    var c := AtPrompt(s, 0);
    PromptIsCalm(s, 0);
    PromptHasNoLine(s, 0);
    CalmOk(c);
    LettersTyped(c, maps, 100);
    var c1 := PressedAll(c, maps, Letters(100));
    LeftsMoved(c1, maps, 100);
    var c2 := PressedAll(c1, maps, Lefts(100));
    PressedMore(c, maps, Letters(100), Lefts(100));
    CalmOk(c2);
    EnterLeavesTail(c2, maps);
    PressedMore(c, maps, Letters(100) + Lefts(100), [Stroke(ENTER_KEY, Prints(PROMPT))]);
  }

  lemma EnterLeavesTail(c: Console, maps: Keymaps)
    requires PcKeys(maps) && Calm(c) && Origin(c.screen) == |PROMPT|
    requires c.editor.before == [] && c.editor.after == seq(100, _ => LETTER_A)
    ensures var c' := PressedAll(c, maps, [Stroke(ENTER_KEY, Prints(PROMPT))]);
      BlankTail(c) && InStep(c') && !BlankTail(c')
  {
    hide Agrees, BlankBehind, ScreenAfter, WellFormed, EditorOk, PosFrom;
    var k := Stroke(ENTER_KEY, Prints(PROMPT));
    assert KeyOf(c, maps, k) == Enter;
    StrokeInStepIff(c, maps, k);
    StrokeBlankTailIff(c, maps, k);
    PrintsSinceClear(PROMPT);
    CursorAtStart(c);
    NextRow(PROMPT);
    assert Text(c.editor)[80] == LETTER_A;
    assert [k][1..] == [];
  }

  lemma CursorAtStart(c: Console)
    requires InStep(c) && c.editor.before == []
    ensures CursorCell(c.screen) == Origin(c.screen)
  {
  }

  lemma NextRow(prompt: seq<byte>)
    requires prompt == PROMPT
    ensures PosFrom(|PROMPT|, [NEWLINE] + prompt) == WIDTH + |PROMPT|
  {
    PosFromTwo(|PROMPT|, [NEWLINE], prompt);
    assert PosFrom(|PROMPT|, [NEWLINE]) == WIDTH by {
      assert [NEWLINE][..0] == [];
    }
    PosFromPlain(WIDTH, prompt);
  }
}
