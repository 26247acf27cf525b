/** The text screen of kernel/drivers/vga.c as a value, and the unbounded 80-column
    layout of which it shows the last 25 rows. */
module TerminalSpec {
  import opened Bytes

  const WIDTH := 80
  const HEIGHT := 25
  const CELLS := 2000

  /** A cell of video memory: the colour in the high byte, the character in the low one. */
  type Cell = x: int | 0 <= x < 0x1_0000

  /** What vga_entry computes. A char is signed, so one above 127 is sign-extended before
      the colour is or-ed in and leaves only ones in the high byte. */
  function EntryOf(color: byte, c: byte): Cell {
    if c < 128 then 256 * color + c else 0xFF00 + c
  }

  /** Video memory, the cursor, and the console's input-start marker. */
  datatype Screen = Screen(cells: seq<Cell>, x: nat, y: nat, startX: nat, startY: nat, color: byte)

  predicate WellFormed(s: Screen) {
    |s.cells| == CELLS && s.x < WIDTH && s.y < HEIGHT && s.startX < WIDTH && s.startY < HEIGHT
  }

  function Blank(s: Screen): Cell { EntryOf(s.color, SPACE) }

  function Cleared(s: Screen): (s': Screen)
    ensures WellFormed(s) ==> WellFormed(s')
  {
    s.(cells := seq(CELLS, i => Blank(s)), x := 0, y := 0)
  }

  /** One row up: the top row is lost, the bottom row becomes blank, and the marker
      moves with its row while it is on the screen. */
  function Scrolled(s: Screen): (s': Screen)
    requires |s.cells| == CELLS
    ensures |s'.cells| == CELLS
  {
    s.(cells := s.cells[WIDTH..] + seq(WIDTH, i => Blank(s)), y := HEIGHT - 1,
       startY := if s.startY > 0 then s.startY - 1 else 0)
  }

  /** A character drawn and the cursor moved on, before any scrolling. */
  function Stepped(s: Screen, c: byte): Screen
    requires WellFormed(s)
  {
    if c == NEWLINE then s.(x := 0, y := s.y + 1)
    else
      var drawn := s.(cells := s.cells[s.y * WIDTH + s.x := EntryOf(s.color, c)]);
      if s.x + 1 >= WIDTH then drawn.(x := 0, y := s.y + 1) else drawn.(x := s.x + 1)
  }

  function Put(s: Screen, c: byte): (s': Screen)
    requires WellFormed(s)
    ensures WellFormed(s')
  {
    var stepped := Stepped(s, c);
    if stepped.y >= HEIGHT then Scrolled(stepped) else stepped
  }

  function PutAll(s: Screen, text: seq<byte>): (s': Screen)
    requires WellFormed(s)
    ensures WellFormed(s')
  {
    if text == [] then s else Put(PutAll(s, text[..|text| - 1]), text[|text| - 1])
  }

  /** What a shell command sends to the screen: characters, and the clear command. */
  datatype Output = Print(c: byte) | Clear

  function Emit(s: Screen, output: seq<Output>): (s': Screen)
    requires WellFormed(s)
    ensures WellFormed(s')
  {
    if output == [] then s
    else
      var before := Emit(s, output[..|output| - 1]);
      match output[|output| - 1]
      case Print(c) => Put(before, c)
      case Clear => Cleared(before)
  }

  function Marked(s: Screen): Screen {
    s.(startX := s.x, startY := s.y)
  }

  function PutAt(s: Screen, c: byte, x: nat, y: nat): (s': Screen)
    requires |s.cells| == CELLS
    ensures |s'.cells| == CELLS
  {
    if x >= WIDTH || y >= HEIGHT then s else s.(cells := s.cells[y * WIDTH + x := EntryOf(s.color, c)])
  }

  /** Scrolls until row `y` is on the screen. */
  function ScrolledTo(s: Screen, y: nat): (s': Screen)
    requires |s.cells| == CELLS
    ensures |s'.cells| == CELLS
    decreases y
  {
    if y < HEIGHT then s else ScrolledTo(Scrolled(s), y - 1)
  }

  function CursorAt(s: Screen, x: nat, y: nat): (s': Screen)
    requires |s.cells| == CELLS
    ensures |s'.cells| == CELLS
  {
    var row := y + x / WIDTH;
    ScrolledTo(s, row).(x := x % WIDTH, y := if row < HEIGHT then row else HEIGHT - 1)
  }

  // ----- the unbounded layout -----

  /** The position, in cells from the first row, where the next character goes. */
  function Advance(pos: nat, c: byte): nat {
    if c == NEWLINE then (pos / WIDTH + 1) * WIDTH else pos + 1
  }

  /** Where the next character goes after `text`, printed from position `from` on. */
  function PosFrom(from: nat, text: seq<byte>): nat {
    if text == [] then from else Advance(PosFrom(from, text[..|text| - 1]), text[|text| - 1])
  }

  function Pos(text: seq<byte>): nat { PosFrom(0, text) }

  /** The character shown at a position of the layout; a space where none was put. */
  function Shown(text: seq<byte>, p: nat): byte {
    if text == [] then SPACE
    else
      var n := |text| - 1;
      if text[n] != NEWLINE && Pos(text[..n]) == p then text[n] else Shown(text[..n], p)
  }

  /** How many rows must scroll off the top for position `pos` to be on the screen. */
  function RowsOff(pos: nat): nat {
    if pos / WIDTH < HEIGHT then 0 else pos / WIDTH - (HEIGHT - 1)
  }

  /** The number of rows that have scrolled off the top. */
  function Top(text: seq<byte>): nat { RowsOff(Pos(text)) }

  /** The screen shows the last 25 rows of the layout of `text`, cursor included. */
  ghost predicate Shows(s: Screen, text: seq<byte>) {
    && |s.cells| == CELLS
    && s.x == Pos(text) % WIDTH && s.y == Pos(text) / WIDTH - Top(text)
    && forall i :: 0 <= i < CELLS ==> s.cells[i] == EntryOf(s.color, Shown(text, WIDTH * Top(text) + i))
  }

  /** Nothing is shown at or after the cursor. */
  lemma {:induction false} BlankAhead(text: seq<byte>, p: nat)
    requires p >= Pos(text)
    ensures Shown(text, p) == SPACE
    decreases |text|
  {
    if text != [] {
      var n := |text| - 1;
      AdvanceGrows(Pos(text[..n]), text[n]);
      BlankAhead(text[..n], p);
    }
  }

  lemma AdvanceGrows(pos: nat, c: byte)
    ensures pos < Advance(pos, c) <= pos + WIDTH
    ensures Advance(pos, c) / WIDTH <= pos / WIDTH + 1
  {
    assert pos == WIDTH * (pos / WIDTH) + pos % WIDTH;
  }

  /** Each character is shown at the position where the text before it ended, and
      nothing put later covers it. */
  lemma {:induction false} ShownWhereItWasPut(text: seq<byte>, k: nat)
    requires k < |text| && text[k] != NEWLINE
    ensures Pos(text[..k]) < Pos(text)
    ensures Shown(text, Pos(text[..k])) == text[k]
    decreases |text|
  {
    var n := |text| - 1;
    AdvanceGrows(Pos(text[..n]), text[n]);
    if k < n {
      assert text[..n][..k] == text[..k];
      ShownWhereItWasPut(text[..n], k);
    }
  }

  /** A position to which no character was put shows a space. */
  lemma {:induction false} ShownOnlyWhatWasPut(text: seq<byte>, p: nat)
    requires forall k :: 0 <= k < |text| && text[k] != NEWLINE ==> Pos(text[..k]) != p
    ensures Shown(text, p) == SPACE
    decreases |text|
  {
    if text != [] {
      var n := |text| - 1;
      forall k | 0 <= k < n && text[k] != NEWLINE
        ensures Pos(text[..n][..k]) != p
      {
        assert text[..n][..k] == text[..k];
      }
      ShownOnlyWhatWasPut(text[..n], p);
    }
  }

  /** The two bytes of a cell: the character below, and above it the colour, or only ones
      for characters above 127. */
  lemma CellBytes(color: byte, c: byte, cell: Cell)
    ensures cell == EntryOf(color, c) <==> cell % 256 == c && cell / 256 == if c < 128 then color else 255
  {
  }

  /** The bytes that a character put on the screen leaves in video memory, at the cursor or
      a row above it if the screen scrolls. */
  lemma PutStores(s: Screen, c: byte)
    requires WellFormed(s) && c != NEWLINE
    ensures var at := 80 * s.y + s.x;
      var cell := Put(s, c).cells[if at == 1999 then at - 80 else at];
      cell % 256 == c && cell / 256 == if c < 128 then s.color else 255
  {
    CellBytes(s.color, c, EntryOf(s.color, c));
  }

  lemma PutAtStores(s: Screen, c: byte, x: nat, y: nat)
    requires |s.cells| == CELLS && x < 80 && y < 25
    ensures var cell := PutAt(s, c, x, y).cells[80 * y + x];
      cell % 256 == c && cell / 256 == if c < 128 then s.color else 255
    ensures forall i :: 0 <= i < CELLS && i != 80 * y + x ==> PutAt(s, c, x, y).cells[i] == s.cells[i]
  {
    CellBytes(s.color, c, EntryOf(s.color, c));
  }

  lemma {:induction false} ClearShows(s: Screen)
    ensures Shows(Cleared(s), [])
    ensures Cleared(s).startX == s.startX && Cleared(s).startY == s.startY && Cleared(s).color == s.color
  {
  }

  lemma Snoc(text: seq<byte>, c: byte)
    ensures Pos(text + [c]) == Advance(Pos(text), c)
    ensures forall p: nat :: Shown(text + [c], p) == if c != NEWLINE && Pos(text) == p then c else Shown(text, p)
  {
    assert (text + [c])[..|text|] == text;
  }

  /** Rows and columns while the position advances. */
  lemma AdvanceStep(pos: nat, c: byte)
    ensures var wraps := c == NEWLINE || pos % WIDTH == WIDTH - 1;
      && Advance(pos, c) / WIDTH == pos / WIDTH + (if wraps then 1 else 0)
      && Advance(pos, c) % WIDTH == (if wraps then 0 else pos % WIDTH + 1)
  {
    assert pos == WIDTH * (pos / WIDTH) + pos % WIDTH;
  }

  lemma SteppedShows(s: Screen, text: seq<byte>, c: byte, q: nat)
    requires WellFormed(s) && Shows(s, text) && q < CELLS
    ensures Stepped(s, c).cells[q] == EntryOf(s.color, Shown(text + [c], WIDTH * Top(text) + q))
  {
    hide Shown, Pos;
    Snoc(text, c);
    assert s.y * WIDTH + s.x == Pos(text) - WIDTH * Top(text) by {
      assert Pos(text) == WIDTH * (Pos(text) / WIDTH) + Pos(text) % WIDTH;
    }
  }

  lemma SteppedCursor(s: Screen, text: seq<byte>, c: byte)
    requires WellFormed(s) && Shows(s, text)
    ensures var pos', s' := Pos(text + [c]), Stepped(s, c);
      && s'.x == pos' % WIDTH && s'.y == pos' / WIDTH - Top(text)
      && Top(text + [c]) == (if s'.y >= HEIGHT then Top(text) + 1 else Top(text))
      && (s'.y >= HEIGHT ==> s'.y == HEIGHT && s'.x == 0)
      && s'.color == s.color && |s'.cells| == CELLS
  {
    hide Shown, Pos, EntryOf;
    Snoc(text, c);
    AdvanceStep(Pos(text), c);
  }

  /** Putting one more character keeps the screen in step with the layout. */
  lemma PutShows(s: Screen, text: seq<byte>, c: byte)
    requires WellFormed(s) && Shows(s, text)
    ensures Shows(Put(s, c), text + [c])
  {
    hide Shown, Pos, Stepped, Top;
    var s', text', top := Put(s, c), text + [c], Top(text);
    SteppedCursor(s, text, c);
    forall i | 0 <= i < CELLS
      ensures s'.cells[i] == EntryOf(s.color, Shown(text', WIDTH * Top(text') + i))
    {
      if Stepped(s, c).y >= HEIGHT {
        if i < CELLS - WIDTH {
          SteppedShows(s, text, c, i + WIDTH);
        } else {
          BelowIsBlank(text', i);
        }
      } else {
        SteppedShows(s, text, c, i);
      }
    }
  }

  /** Once the screen scrolls, its bottom row is still empty. */
  lemma BelowIsBlank(text: seq<byte>, i: nat)
    requires Top(text) > 0 && Pos(text) % WIDTH == 0 && i >= CELLS - WIDTH
    ensures Shown(text, WIDTH * Top(text) + i) == SPACE
  {
    BlankAhead(text, WIDTH * Top(text) + i);
  }

  /** What `Shows` says of video memory, byte by byte. */
  lemma ShownBytes(s: Screen, text: seq<byte>)
    requires Shows(s, text)
    ensures forall i :: 0 <= i < CELLS ==>
      var c := Shown(text, 80 * Top(text) + i);
      s.cells[i] % 256 == c && s.cells[i] / 256 == if c < 128 then s.color else 255
  {
    hide Shown, Top;
    forall i | 0 <= i < CELLS
      ensures var c := Shown(text, 80 * Top(text) + i);
        s.cells[i] % 256 == c && s.cells[i] / 256 == if c < 128 then s.color else 255
    {
      CellBytes(s.color, Shown(text, 80 * Top(text) + i), s.cells[i]);
    }
  }

  /** The terminal theorem: after clearing, any sequence of characters leaves the last 25
      rows of its layout in video memory: in each cell the character in the low byte, the
      colour in the high one. */
  lemma VideoMemoryAfter(s: Screen, text: seq<byte>)
    requires WellFormed(s)
    ensures var s' := PutAll(Cleared(s), text);
      forall i :: 0 <= i < CELLS ==>
        var c := Shown(text, 80 * Top(text) + i);
        s'.cells[i] % 256 == c && s'.cells[i] / 256 == if c < 128 then s.color else 255
  {
    hide Shown, Top, Put;
    PutAllShows(s, text);
    ColorStays(Cleared(s), text);
    ShownBytes(PutAll(Cleared(s), text), text);
  }

  lemma {:induction false} ColorStays(s: Screen, text: seq<byte>)
    requires WellFormed(s)
    ensures PutAll(s, text).color == s.color
    decreases |text|
  {
    if text != [] {
      ColorStays(s, text[..|text| - 1]);
    }
  }

  /** The same on cells: the screen shows the last 25 rows of the layout. */
  lemma {:induction false} PutAllShows(s: Screen, text: seq<byte>)
    requires WellFormed(s)
    ensures Shows(PutAll(Cleared(s), text), text)
    decreases |text|
  {
    if text == [] {
      ClearShows(s);
    } else {
      var n := |text| - 1;
      PutAllShows(s, text[..n]);
      PutShows(PutAll(Cleared(s), text[..n]), text[..n], text[n]);
      assert text[..n] + [text[n]] == text;
    }
  }

  /** The text printed since the screen was last cleared. */
  function SinceClear(output: seq<Output>): seq<byte> {
    if output == [] then []
    else
      match output[|output| - 1]
      case Print(c) => SinceClear(output[..|output| - 1]) + [c]
      case Clear => []
  }

  /** The same for output that clears the screen as it goes: what was printed before
      the last clear leaves no trace. */
  lemma {:induction false} EmitShows(s: Screen, output: seq<Output>)
    requires WellFormed(s)
    ensures Shows(Emit(Cleared(s), output), SinceClear(output))
    decreases |output|
  {
    hide Shows, Cleared, Put, WellFormed;
    if output == [] {
      ClearShows(s);
    } else {
      var n := |output| - 1;
      EmitShows(s, output[..n]);
      var before := Emit(Cleared(s), output[..n]);
      match output[n]
      case Print(c) => PutShows(before, SinceClear(output[..n]), c);
      case Clear => ClearShows(before);
    }
  }

  // ----- what lies ahead of the cursor -----

  function CursorCell(s: Screen): nat { WIDTH * s.y + s.x }

  /** Every cell from `p` on is blank. */
  predicate BlankFrom(s: Screen, p: nat) {
    |s.cells| == CELLS && forall q :: p <= q < CELLS ==> s.cells[q] == Blank(s)
  }

  lemma AdvanceShift(pos: nat, rows: nat, c: byte)
    requires WIDTH * rows <= pos
    ensures Advance(pos - WIDTH * rows, c) == Advance(pos, c) - WIDTH * rows
  {
    assert (pos - WIDTH * rows) / WIDTH == pos / WIDTH - rows;
  }

  /** One character more: the cells ahead of the new cursor are those that were there,
      moved up by a row if the screen scrolls, and then blank. */
  lemma PutAhead(s: Screen, c: byte, q: nat)
    requires WellFormed(s)
    ensures var p, s' := Advance(CursorCell(s), c), Put(s, c);
      var k := if p < CELLS then 0 else 1;
      && p < CELLS + WIDTH && CursorCell(s') == p - WIDTH * k && s'.color == s.color
      && (p - WIDTH * k <= q < CELLS ==>
           s'.cells[q] == if q + WIDTH * k < CELLS then s.cells[q + WIDTH * k] else Blank(s))
  {
    assert CursorCell(s) / WIDTH == s.y && CursorCell(s) % WIDTH == s.x;
  }

  /** The same for a text: it leaves the cells ahead of the cursor as they were, but for
      the rows that scrolling adds. */
  lemma {:induction false} TextAhead(s: Screen, text: seq<byte>, q: nat)
    requires WellFormed(s)
    ensures var p, s' := PosFrom(CursorCell(s), text), PutAll(s, text);
      var k := RowsOff(p);
      && WIDTH * k <= p && CursorCell(s') == p - WIDTH * k && s'.color == s.color
      && (p - WIDTH * k <= q < CELLS ==>
           s'.cells[q] == if q + WIDTH * k < CELLS then s.cells[q + WIDTH * k] else Blank(s))
    decreases |text|
  {
    hide Put, Advance;
    if text == [] {
      assert CursorCell(s) < CELLS && CursorCell(s) / WIDTH == s.y;
    } else {
      var n := |text| - 1;
      var p0 := PosFrom(CursorCell(s), text[..n]);
      var k0 := RowsOff(p0);
      var p := Advance(p0, text[n]);
      TextAhead(s, text[..n], q);
      PutAhead(PutAll(s, text[..n]), text[n], q);
      AdvanceShift(p0, k0, text[n]);
      AdvanceGrows(p0, text[n]);
      RowsOffStep(p0, p);
      if RowsOff(p) > k0 {
        TextAhead(s, text[..n], q + WIDTH);
      }
    }
  }

  lemma RowsOffStep(p0: nat, p: nat)
    requires p0 < p && p / WIDTH <= p0 / WIDTH + 1
    ensures RowsOff(p) == RowsOff(p0) + if p - WIDTH * RowsOff(p0) < CELLS then 0 else 1
    ensures RowsOff(p0) > 0 ==> p0 - WIDTH * RowsOff(p0) >= CELLS - WIDTH
  {
  }

  /** After printing, the cells ahead of the cursor are blank exactly when those from the
      position reached on were. */
  lemma TextBlankIff(s: Screen, text: seq<byte>)
    requires WellFormed(s)
    ensures BlankFrom(PutAll(s, text), CursorCell(PutAll(s, text))) <==> BlankFrom(s, PosFrom(CursorCell(s), text))
  {
    hide PutAll, PosFrom;
    var p, s' := PosFrom(CursorCell(s), text), PutAll(s, text);
    var k := RowsOff(p);
    TextAhead(s, text, 0);
    forall q | p - WIDTH * k <= q < CELLS
      ensures s'.cells[q] == if q + WIDTH * k < CELLS then s.cells[q + WIDTH * k] else Blank(s)
    {
      TextAhead(s, text, q);
    }
    if BlankFrom(s', CursorCell(s')) {
      forall q | p <= q < CELLS
        ensures s.cells[q] == Blank(s)
      {
        assert s'.cells[q - WIDTH * k] == Blank(s);
      }
    }
  }

  /** Output as text: what was printed since the last clear, from the cleared screen if
      there was one. */
  lemma {:induction false} EmitAsText(s: Screen, output: seq<Output>) returns (start: Screen)
    requires WellFormed(s)
    ensures WellFormed(start) && Emit(s, output) == PutAll(start, SinceClear(output))
    ensures Clear !in output ==> start == s
    ensures Clear in output ==> BlankFrom(start, 0)
    decreases |output|
  {
    hide Put;
    if output == [] {
      start := s;
    } else {
      var n := |output| - 1;
      assert output == output[..n] + [output[n]];
      start := EmitAsText(s, output[..n]);
      match output[n] {
        case Print(c) =>
          assert (SinceClear(output[..n]) + [c])[..|SinceClear(output[..n])|] == SinceClear(output[..n]);
        case Clear =>
          start := Cleared(Emit(s, output[..n]));
      }
    }
  }

  lemma EmitBlankIff(s: Screen, output: seq<Output>)
    requires WellFormed(s)
    ensures BlankFrom(Emit(s, output), CursorCell(Emit(s, output)))
      <==> Clear in output || BlankFrom(s, PosFrom(CursorCell(s), SinceClear(output)))
  {
    hide Emit, PutAll, PosFrom;
    var start := EmitAsText(s, output);
    TextBlankIff(start, SinceClear(output));
  }

  lemma {:induction false} EmitFirst(s: Screen, c: byte, output: seq<Output>)
    requires WellFormed(s)
    ensures Emit(s, [Print(c)] + output) == Emit(Put(s, c), output)
    ensures Clear in output <==> Clear in [Print(c)] + output
    ensures Clear !in output ==> SinceClear([Print(c)] + output) == [c] + SinceClear(output)
    decreases |output|
  {
    hide Put;
    var all := [Print(c)] + output;
    if output == [] {
      assert all == [Print(c)] && all[..0] == [];
    } else {
      var n := |output| - 1;
      EmitFirst(s, c, output[..n]);
      assert all[..n + 1] == [Print(c)] + output[..n];
      assert output == output[..n] + [output[n]];
      assert all == all[..n + 1] + [output[n]];
    }
  }

  lemma {:induction false} PosFromTwo(from: nat, a: seq<byte>, b: seq<byte>)
    ensures PosFrom(from, a + b) == PosFrom(PosFrom(from, a), b)
    decreases |b|
  {
    if b == [] {
      assert a + b == a;
    } else {
      var n := |b| - 1;
      PosFromTwo(from, a, b[..n]);
      assert (a + b)[..|a + b| - 1] == a + b[..n];
    }
  }

  lemma {:induction false} PosFromPlain(from: nat, text: seq<byte>)
    requires NEWLINE !in text
    ensures PosFrom(from, text) == from + |text|
    decreases |text|
  {
    if text != [] {
      PosFromPlain(from, text[..|text| - 1]);
    }
  }

  lemma {:induction false} PosFromNewlines(n: nat)
    ensures PosFrom(0, seq(n, _ => NEWLINE)) == WIDTH * n
    decreases n
  {
    if n > 0 {
      PosFromNewlines(n - 1);
      assert seq(n, _ => NEWLINE)[..n - 1] == seq(n - 1, _ => NEWLINE);
    }
  }

  // ----- the input-start marker -----

  /** The marker names row `row` of the layout, or the top row once `row` is gone. */
  predicate MarksRow(s: Screen, text: seq<byte>, row: nat) {
    s.startY == if row >= Top(text) then row - Top(text) else 0
  }

  lemma PutKeepsMark(s: Screen, text: seq<byte>, c: byte, row: nat)
    requires WellFormed(s) && Shows(s, text) && MarksRow(s, text, row)
    ensures MarksRow(Put(s, c), text + [c], row) && Put(s, c).startX == s.startX
  {
    hide Shown, Pos;
    Snoc(text, c);
    AdvanceGrows(Pos(text), c);
  }

  /** A marker set after `text` keeps naming the same row and column of the layout while
      `more` is printed, until that row has scrolled off. */
  lemma {:induction false} MarkStays(s: Screen, text: seq<byte>, more: seq<byte>)
    requires WellFormed(s) && Shows(s, text)
    ensures var s' := PutAll(Marked(s), more);
      && Shows(s', text + more)
      && MarksRow(s', text + more, Pos(text) / WIDTH)
      && s'.startX == Pos(text) % WIDTH
    decreases |more|
  {
    hide Shown, Pos;
    if more == [] {
      assert text + more == text;
    } else {
      var n := |more| - 1;
      MarkStays(s, text, more[..n]);
      var before := PutAll(Marked(s), more[..n]);
      PutShows(before, text + more[..n], more[n]);
      PutKeepsMark(before, text + more[..n], more[n], Pos(text) / WIDTH);
      assert text + more[..n] + [more[n]] == text + more;
    }
  }
}
