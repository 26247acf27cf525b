/** The line editor of kernel/keyboard.c as a text on each side of a cursor, and how the
    screen follows it. */
module LineEditorSpec {
  import opened Bytes
  import opened TerminalSpec

  const BUFFER_SIZE := 256
  const KEYS := 128

  /** The two scancode tables; their contents do not matter here. */
  datatype Keymaps = Keymaps(plain: seq<byte>, shifted: seq<byte>)

  predicate Complete(maps: Keymaps) {
    |maps.plain| == KEYS && |maps.shifted| == KEYS
  }

  datatype Flags = Flags(shift: bool, caps: bool, extended: bool)

  datatype Key = NoKey | Left | Right | Erase | Enter | Insert(c: byte)

  /** What one scancode means, and how it changes the modifier flags. */
  function Decode(f: Flags, maps: Keymaps, scancode: byte): (Flags, Key)
    requires Complete(maps)
  {
    if scancode == 0xE0 then (f.(extended := true), NoKey)
    else if f.extended then
      (f.(extended := false), if scancode == 0x4B then Left else if scancode == 0x4D then Right else NoKey)
    else if scancode == 0x2A || scancode == 0x36 then (f.(shift := true), NoKey)
    else if scancode == 0xAA || scancode == 0xB6 then (f.(shift := false), NoKey)
    else if scancode == 0x3A then (f.(caps := !f.caps), NoKey)
    else if scancode >= KEYS then (f, NoKey)
    else
      var c := maps.plain[scancode];
      var typed: byte :=
        if 97 <= c <= 122 then (if f.shift != f.caps then c - 32 else c)
        else if f.shift then maps.shifted[scancode] else c;
      (f, if typed == 0 then NoKey else if typed == BACKSPACE then Erase
          else if typed == NEWLINE then Enter else Insert(typed))
  }

  /** The text before and after the cursor. */
  datatype Editor = Editor(before: seq<byte>, after: seq<byte>)

  function Text(e: Editor): seq<byte> { e.before + e.after }

  predicate EditorOk(e: Editor) {
    |Text(e)| < BUFFER_SIZE && 0 !in Text(e)
  }

  function Edit(e: Editor, key: Key): Editor {
    match key
    case NoKey => e
    case Left =>
      if e.before == [] then e
      else Editor(e.before[..|e.before| - 1], [e.before[|e.before| - 1]] + e.after)
    case Right =>
      if e.after == [] then e else Editor(e.before + [e.after[0]], e.after[1..])
    case Erase =>
      if e.before == [] then e else Editor(e.before[..|e.before| - 1], e.after)
    case Enter => Editor([], [])
    case Insert(c) =>
      if |Text(e)| >= BUFFER_SIZE - 1 then e else Editor(e.before + [c], e.after)
  }

  /** The key makes the input line be drawn again. */
  predicate Redraws(e: Editor, key: Key) {
    match key
    case Left => e.before != []
    case Right => e.after != []
    case Erase => e.before != []
    case Insert(_) => |Text(e)| < BUFFER_SIZE - 1
    case _ => false
  }

  lemma EditKeepsOk(e: Editor, key: Key)
    requires EditorOk(e) && (key.Insert? ==> key.c != 0)
    ensures EditorOk(Edit(e, key))
  {
    var e' := Edit(e, key);
    forall c | c in Text(e')
      ensures c != 0
    {
      assert c in Text(e) || (key.Insert? && c == key.c) by {
        assert c in e'.before || c in e'.after;
      }
    }
  }

  /** The keys on the line as one text `t` with a cursor at `p`. */
  lemma EditOnText(e: Editor, c: byte, t: seq<byte>, p: nat)
    requires t == Text(e) && p == |e.before|
    ensures Text(Edit(e, Insert(c))) == if |t| < 255 then t[..p] + [c] + t[p..] else t
    ensures |Edit(e, Insert(c)).before| == if |t| < 255 then p + 1 else p
    ensures Text(Edit(e, Erase)) == if p > 0 then t[..p - 1] + t[p..] else t
    ensures |Edit(e, Erase).before| == if p > 0 then p - 1 else p
    ensures Text(Edit(e, Enter)) == [] && Edit(e, NoKey) == e
  {
    assert t[..p] == e.before && t[p..] == e.after;
    assert p > 0 ==> t[..p - 1] == e.before[..p - 1];
  }

  lemma MovingKeepsText(e: Editor)
    ensures Text(Edit(e, Left)) == Text(e)
    ensures |Edit(e, Left).before| == if |e.before| > 0 then |e.before| - 1 else 0
    ensures Text(Edit(e, Right)) == Text(e)
    ensures |Edit(e, Right).before| == if |e.before| < |Text(e)| then |e.before| + 1 else |e.before|
  {
  }

  /** Erasing takes back what was just inserted. */
  lemma EraseUndoesInsert(e: Editor, c: byte)
    requires |Text(e)| < BUFFER_SIZE - 1
    ensures Edit(Edit(e, Insert(c)), Erase) == e
  {
    assert (e.before + [c])[..|e.before|] == e.before;
  }

  /** The cursor keys move through the text without changing it, and undo each other. */
  lemma CursorKeysUndo(e: Editor)
    ensures e.before != [] ==> Edit(Edit(e, Left), Right) == e
    ensures e.after != [] ==> Edit(Edit(e, Right), Left) == e
  {
    if e.before != [] {
      var n := |e.before| - 1;
      assert e.before[..n] + [e.before[n]] == e.before;
      assert ([e.before[n]] + e.after)[1..] == e.after;
    }
    if e.after != [] {
      assert (e.before + [e.after[0]])[..|e.before|] == e.before;
      assert [e.after[0]] + e.after[1..] == e.after;
    }
  }

  // ----- drawing the input line -----

  /** The screen position of the i-th input character. */
  function InputX(s: Screen, i: nat): nat { (s.startX + i) % WIDTH }

  function InputY(s: Screen, i: nat): nat { s.startY + (s.startX + i) / WIDTH }

  /** The first `n` input cells drawn with the characters of `text`. */
  function Drawn(s: Screen, text: seq<byte>): (s': Screen)
    requires |s.cells| == CELLS
    ensures |s'.cells| == CELLS && s'.startX == s.startX && s'.startY == s.startY
    ensures s' == s.(cells := s'.cells)
  {
    if text == [] then s
    else
      var n := |text| - 1;
      var before := Drawn(s, text[..n]);
      PutAt(before, text[n], InputX(s, n), InputY(s, n))
  }

  function Spaces(n: nat): (t: seq<byte>)
    ensures |t| == n && forall i :: 0 <= i < n ==> t[i] == SPACE
  {
    seq(n, i => SPACE)
  }

  /** keyboard_redraw_input: blank the old line, draw the new one, place the cursor. */
  function Redrawn(s: Screen, previous: nat, text: seq<byte>, cursor: nat): (s': Screen)
    requires |s.cells| == CELLS
    ensures |s'.cells| == CELLS
  {
    var s1 := Drawn(Drawn(s, Spaces(previous)), text);
    CursorAt(s1, InputX(s1, cursor), InputY(s1, cursor))
  }

  /** The first cell of the input line, counted from the top left of the screen. */
  function Origin(s: Screen): nat { WIDTH * s.startY + s.startX }

  lemma {:induction false} DrawnCells(s: Screen, text: seq<byte>, p: nat)
    requires |s.cells| == CELLS && s.startX < WIDTH && p < CELLS
    ensures Drawn(s, text).cells[p] ==
      if Origin(s) <= p < Origin(s) + |text| then EntryOf(s.color, text[p - Origin(s)]) else s.cells[p]
    decreases |text|
  {
    if text != [] {
      var n := |text| - 1;
      DrawnCells(s, text[..n], p);
      assert WIDTH * InputY(s, n) + InputX(s, n) == Origin(s) + n;
    }
  }

  /** What the redrawn line looks like before the cursor is placed. */
  lemma LineCells(s: Screen, previous: nat, text: seq<byte>, p: nat)
    requires |s.cells| == CELLS && s.startX < WIDTH && p < CELLS
    ensures var o := Origin(s);
      Drawn(Drawn(s, Spaces(previous)), text).cells[p] ==
        if o <= p < o + |text| then EntryOf(s.color, text[p - o])
        else if o <= p < o + previous then Blank(s)
        else s.cells[p]
  {
    hide Drawn;
    DrawnCells(s, Spaces(previous), p);
    DrawnCells(Drawn(s, Spaces(previous)), text, p);
  }

  /** The screen agrees with the editor: every character of the line is on its cell,
      and the cursor on the cell of the cursor position. */
  ghost predicate Agrees(s: Screen, text: seq<byte>, cursor: nat) {
    && |s.cells| == CELLS
    && Origin(s) + |text| <= CELLS
    && (forall i :: 0 <= i < |text| ==> s.cells[Origin(s) + i] == EntryOf(s.color, text[i]))
    && WIDTH * s.y + s.x == Origin(s) + cursor
  }

  /** Scrolling until row `y` is visible moves every cell and the marker up by as many
      rows as `y` lies below the screen. */
  lemma {:induction false} ScrolledToCells(s: Screen, y: nat, p: nat)
    requires |s.cells| == CELLS && p < CELLS
    ensures var k := if y < HEIGHT then 0 else y - (HEIGHT - 1);
      var s' := ScrolledTo(s, y);
      && s'.cells[p] == (if p + WIDTH * k < CELLS then s.cells[p + WIDTH * k] else Blank(s))
      && s'.startY == (if s.startY > k then s.startY - k else 0)
      && s'.startX == s.startX && s'.color == s.color
    decreases y
  {
    if y >= HEIGHT {
      ScrolledToCells(Scrolled(s), y - 1, p);
    }
  }

  /** A redrawn line: it moves up by the `k` rows that the cursor lies below the screen;
      characters that had no cell when it was drawn are not on the screen. */
  lemma RedrawnCells(s: Screen, previous: nat, text: seq<byte>, cursor: nat, p: nat)
    requires WellFormed(s) && p < CELLS && cursor <= |text| < BUFFER_SIZE
    ensures var o, s' := Origin(s), Redrawn(s, previous, text, cursor);
      var k := RowsBelow(s, cursor);
      var q := p + WIDTH * k;
      && s'.cells[p] == (
          if q >= CELLS then Blank(s)
          else if o <= q < o + |text| then EntryOf(s.color, text[q - o])
          else if o <= q < o + previous then Blank(s)
          else s.cells[q])
      && k <= s.startY && s'.startY == s.startY - k && s'.startX == s.startX
      && WIDTH * s'.y + s'.x == o + cursor - WIDTH * k && s'.y < HEIGHT
  {
    hide Drawn, ScrolledTo, Spaces, EntryOf;
    var s1 := Drawn(Drawn(s, Spaces(previous)), text);
    var k := RowsBelow(s, cursor);
    CursorRow(s, cursor);
    ScrolledToCells(s1, InputY(s, cursor), p);
    if p + WIDTH * k < CELLS {
      LineCells(s, previous, text, p + WIDTH * k);
    }
  }

  /** How many rows the cell of the i-th character lies below the screen. */
  function RowsBelow(s: Screen, i: nat): nat { RowsOff(Origin(s) + i) }

  lemma CursorRow(s: Screen, i: nat)
    requires s.startX < WIDTH && s.startY < HEIGHT && i < BUFFER_SIZE
    ensures InputX(s, i) < WIDTH && WIDTH * InputY(s, i) + InputX(s, i) == Origin(s) + i
    ensures (Origin(s) + i) / WIDTH == InputY(s, i)
    ensures RowsBelow(s, i) == (if InputY(s, i) < HEIGHT then 0 else InputY(s, i) - (HEIGHT - 1))
    ensures RowsBelow(s, i) <= s.startY
  {
  }

  /** Redrawing brings screen and text into agreement whenever the line fits on the
      screen; it then blanks every vacated cell, and touches no other one unless the
      cursor's cell makes the screen scroll. */
  lemma RedrawAgrees(s: Screen, previous: nat, text: seq<byte>, cursor: nat)
    requires WellFormed(s) && cursor <= |text| < BUFFER_SIZE && Origin(s) + |text| <= CELLS
    ensures var s' := Redrawn(s, previous, text, cursor);
      && WellFormed(s') && Agrees(s', text, cursor)
      && forall p :: Origin(s') + |text| <= p < Origin(s') + previous && p < CELLS ==> s'.cells[p] == Blank(s)
    ensures Origin(s) + cursor < CELLS ==>
      var s' := Redrawn(s, previous, text, cursor);
      && Origin(s') == Origin(s)
      && forall p :: 0 <= p < CELLS && !(Origin(s) <= p < Origin(s) + |text|) && !(Origin(s) <= p < Origin(s) + previous) ==>
           s'.cells[p] == s.cells[p]
  {
    hide Redrawn;
    var s' := Redrawn(s, previous, text, cursor);
    RedrawnCells(s, previous, text, cursor, 0);
    forall p | 0 <= p < CELLS
      ensures Origin(s') <= p < Origin(s') + |text| ==> s'.cells[p] == EntryOf(s.color, text[p - Origin(s')])
      ensures Origin(s') + |text| <= p < Origin(s') + previous ==> s'.cells[p] == Blank(s)
      ensures Origin(s) + cursor < CELLS && !(Origin(s) <= p < Origin(s) + |text|) && !(Origin(s) <= p < Origin(s) + previous) ==>
        s'.cells[p] == s.cells[p]
    {
      RedrawnCells(s, previous, text, cursor, p);
    }
    RedrawnKeepsRest(s, previous, text, cursor);
  }

  lemma RedrawnKeepsRest(s: Screen, previous: nat, text: seq<byte>, cursor: nat)
    requires WellFormed(s)
    ensures var s' := Redrawn(s, previous, text, cursor);
      s'.color == s.color && s'.x < WIDTH
  {
    ScrolledToCells(Drawn(Drawn(s, Spaces(previous)), text), InputY(s, cursor), 0);
  }

  lemma RedrawnWellFormed(s: Screen, previous: nat, text: seq<byte>, cursor: nat)
    requires WellFormed(s) && cursor <= |text| < BUFFER_SIZE
    ensures WellFormed(Redrawn(s, previous, text, cursor))
  {
    RedrawnCells(s, previous, text, cursor, 0);
    RedrawnKeepsRest(s, previous, text, cursor);
  }

  /** The line can be shown: it ends on the screen once the cursor's row is visible, and
      the characters that lie below the screen when they are drawn are spaces. */
  predicate Showable(s: Screen, text: seq<byte>, cursor: nat) {
    && Origin(s) + |text| - WIDTH * RowsBelow(s, cursor) <= CELLS
    && forall i :: 0 <= i < |text| && Origin(s) + i >= CELLS ==> text[i] == SPACE
  }

  /** Which lines a redraw brings into agreement: a character that has no cell when it is
      drawn is lost from the screen, even if the screen then scrolls. */
  lemma RedrawAgreesIff(s: Screen, previous: nat, text: seq<byte>, cursor: nat)
    requires WellFormed(s) && cursor <= |text| < BUFFER_SIZE
    ensures Agrees(Redrawn(s, previous, text, cursor), text, cursor) <==> Showable(s, text, cursor)
  {
    hide Redrawn, RowsBelow;
    var s' := Redrawn(s, previous, text, cursor);
    RedrawnKeepsRest(s, previous, text, cursor);
    RedrawnCells(s, previous, text, cursor, 0);
    if Origin(s') + |text| <= CELLS {
      forall i | 0 <= i < |text|
        ensures s'.cells[Origin(s') + i] == EntryOf(s'.color, text[i]) <==> (Origin(s) + i >= CELLS ==> text[i] == SPACE)
      {
        RedrawnCells(s, previous, text, cursor, Origin(s') + i);
      }
    }
  }

  // ----- screen and editor together -----

  /** The screen after a key: redrawn, or started anew with what the shell shows, or as
      it was. */
  function ScreenAfter(s: Screen, e: Editor, key: Key, output: seq<Output>): Screen
    requires WellFormed(s)
  {
    if Redraws(e, key) then Redrawn(s, |Text(e)|, Text(Edit(e, key)), |Edit(e, key).before|)
    else if key.Enter? then Marked(Emit(Put(s, NEWLINE), output))
    else s
  }

  lemma ScreenStaysWellFormed(s: Screen, e: Editor, key: Key, output: seq<Output>)
    requires WellFormed(s) && EditorOk(e) && (key.Insert? ==> key.c != 0)
    ensures WellFormed(ScreenAfter(s, e, key, output))
  {
    hide Redrawn, Emit, Put, Edit;
    EditKeepsOk(e, key);
    if Redraws(e, key) {
      RedrawnWellFormed(s, |Text(e)|, Text(Edit(e, key)), |Edit(e, key).before|);
    }
  }

  lemma UntouchedEditor(e: Editor, key: Key)
    requires !Redraws(e, key) && !key.Enter?
    ensures Edit(e, key) == e
  {
  }

  /** After a key, screen and editor agree exactly when: the key redraws and the new line
      can be shown, or it is Enter, or it changes nothing and they agreed before. */
  lemma KeyAgreesIff(s: Screen, e: Editor, key: Key, output: seq<Output>)
    requires WellFormed(s) && EditorOk(e) && (key.Insert? ==> key.c != 0)
    ensures var s', e' := ScreenAfter(s, e, key, output), Edit(e, key);
      Agrees(s', Text(e'), |e'.before|) <==>
        if Redraws(e, key) then Showable(s, Text(e'), |e'.before|)
        else key.Enter? || Agrees(s, Text(e), |e.before|)
  {
    hide Redrawn, Emit, Put, Edit, Showable, Agrees, WellFormed;
    var e' := Edit(e, key);
    EditKeepsOk(e, key);
    if Redraws(e, key) {
      RedrawAgreesIff(s, |Text(e)|, Text(e'), |e'.before|);
    } else if key.Enter? {
      EnterEmpties(e);
      FreshLineAgrees(Emit(Put(s, NEWLINE), output));
    } else {
      UntouchedEditor(e, key);
    }
  }

  lemma EnterEmpties(e: Editor)
    ensures Edit(e, Enter) == Editor([], []) && Text(Editor([], [])) == []
  {
  }

  lemma FreshLineAgrees(s: Screen)
    requires WellFormed(s)
    ensures WellFormed(Marked(s)) && Agrees(Marked(s), [], 0)
  {
  }

  /** The cursor is on the cell of the cursor position. */
  predicate CursorInPlace(s: Screen, e: Editor) {
    CursorCell(s) == Origin(s) + |e.before|
  }

  /** Every key leaves the cursor on its cell, whatever the rest of the screen shows. */
  lemma KeyKeepsCursor(s: Screen, e: Editor, key: Key, output: seq<Output>)
    requires WellFormed(s) && EditorOk(e) && (key.Insert? ==> key.c != 0) && CursorInPlace(s, e)
    ensures CursorInPlace(ScreenAfter(s, e, key, output), Edit(e, key))
  {
    hide Redrawn, Emit, Put, Edit, WellFormed;
    var e' := Edit(e, key);
    EditKeepsOk(e, key);
    if Redraws(e, key) {
      RedrawnCells(s, |Text(e)|, Text(e'), |e'.before|, 0);
    } else if key.Enter? {
      EnterEmpties(e);
    } else {
      UntouchedEditor(e, key);
    }
  }

  /** A character typed at the end of the line is always shown: it goes to the cursor's
      own cell, which is on the screen. */
  lemma TypingAtEndShows(s: Screen, e: Editor, c: byte)
    requires WellFormed(s) && CursorInPlace(s, e) && e.after == [] && |Text(e)| < BUFFER_SIZE - 1
    ensures Showable(s, Text(Edit(e, Insert(c))), |Edit(e, Insert(c)).before|)
  {
  }

  /** A character is inserted before the end of a line that reaches the last cell of the
      screen, and what it pushes over the edge is not just the space under the cursor. */
  predicate PushesOff(s: Screen, e: Editor, key: Key) {
    && key.Insert? && Redraws(e, key)
    && Origin(s) + |Text(e)| == CELLS
    && e.after != [] && e.after != [SPACE]
  }

  /** While screen and editor agree, this is the only key that breaks the agreement. */
  lemma ShowableIffNotPushed(s: Screen, e: Editor, key: Key)
    requires WellFormed(s) && Agrees(s, Text(e), |e.before|) && Redraws(e, key)
    ensures Showable(s, Text(Edit(e, key)), |Edit(e, key).before|) <==> !PushesOff(s, e, key)
  {
    var e' := Edit(e, key);
    var n := |Text(e)|;
    if key.Insert? && e.after != [] && Origin(s) + n == CELLS {
      assert Text(e')[n] == e.after[|e.after| - 1];
    }
  }

  // ----- behind the end of the line -----

  /** The screen is blank behind the line. */
  predicate BlankBehind(s: Screen, e: Editor) {
    BlankFrom(s, Origin(s) + |Text(e)|)
  }

  /** Redrawing keeps the screen blank behind the line. */
  lemma RedrawKeepsBlank(s: Screen, e: Editor, key: Key, output: seq<Output>)
    requires WellFormed(s) && EditorOk(e) && (key.Insert? ==> key.c != 0)
    requires BlankBehind(s, e) && !key.Enter?
    ensures BlankBehind(ScreenAfter(s, e, key, output), Edit(e, key))
  {
    hide Redrawn, Edit, RowsOff;
    var e', s' := Edit(e, key), ScreenAfter(s, e, key, output);
    EditKeepsOk(e, key);
    if Redraws(e, key) {
      RedrawnKeepsRest(s, |Text(e)|, Text(e'), |e'.before|);
      RedrawnCells(s, |Text(e)|, Text(e'), |e'.before|, 0);
      forall q | Origin(s') + |Text(e')| <= q < CELLS
        ensures s'.cells[q] == Blank(s')
      {
        RedrawnCells(s, |Text(e)|, Text(e'), |e'.before|, q);
      }
    } else {
      UntouchedEditor(e, key);
    }
  }

  /** The layout position where the input of the next line begins if Enter is pressed at
      the cursor and the shell then shows `output`. */
  function NextInput(s: Screen, output: seq<Output>): nat {
    PosFrom(CursorCell(s), [NEWLINE] + SinceClear(output))
  }

  /** The line has nothing but spaces from there on, or the shell clears the screen. */
  predicate EntersClean(s: Screen, e: Editor, output: seq<Output>) {
    || Clear in output
    || forall i :: 0 <= i < |Text(e)| && Origin(s) + i >= NextInput(s, output) ==> Text(e)[i] == SPACE
  }

  /** After Enter, the screen behind the new input line is blank exactly then. Enter moves
      on from the cursor, not from the end of the line: what lies below stays. */
  lemma EnterBlankIff(s: Screen, e: Editor, output: seq<Output>)
    requires WellFormed(s) && Agrees(s, Text(e), |e.before|) && BlankBehind(s, e)
    ensures BlankBehind(ScreenAfter(s, e, Enter, output), Edit(e, Enter)) <==> EntersClean(s, e, output)
  {
    hide Emit, Put, PosFrom, SinceClear, WellFormed;
    var all, p := [Print(NEWLINE)] + output, NextInput(s, output);
    EnterEmpties(e);
    EmitFirst(s, NEWLINE, output);
    EmitBlankIff(s, all);
    PosFromGrows(CursorCell(s), [NEWLINE] + SinceClear(output));
    forall q | Origin(s) <= q < CELLS
      ensures s.cells[q] == Blank(s) <==> (q < Origin(s) + |Text(e)| ==> Text(e)[q - Origin(s)] == SPACE)
    {
      if q < Origin(s) + |Text(e)| {
        assert s.cells[Origin(s) + (q - Origin(s))] == EntryOf(s.color, Text(e)[q - Origin(s)]);
      }
    }
    TailIffSpaces(s, e, p);
  }

  lemma TailIffSpaces(s: Screen, e: Editor, p: nat)
    requires |s.cells| == CELLS && Origin(s) <= p && Origin(s) + |Text(e)| <= CELLS
    requires forall q :: Origin(s) <= q < CELLS ==>
      (s.cells[q] == Blank(s) <==> (q < Origin(s) + |Text(e)| ==> Text(e)[q - Origin(s)] == SPACE))
    ensures BlankFrom(s, p) <==>
      forall i :: 0 <= i < |Text(e)| && Origin(s) + i >= p ==> Text(e)[i] == SPACE
  {
    if BlankFrom(s, p) {
      forall i | 0 <= i < |Text(e)| && Origin(s) + i >= p
        ensures Text(e)[i] == SPACE
      {
        assert s.cells[Origin(s) + i] == Blank(s);
      }
    }
  }

  lemma {:induction false} PosFromGrows(from: nat, text: seq<byte>)
    ensures from <= PosFrom(from, text)
    decreases |text|
  {
    if text != [] {
      PosFromGrows(from, text[..|text| - 1]);
      AdvanceGrows(PosFrom(from, text[..|text| - 1]), text[|text| - 1]);
    }
  }
}
