/** The VGA text driver and the console's marker, as loops over video memory. */
module Terminal {
  import opened Bytes
  import opened TerminalSpec

  /** The first `n` cells hold what was one row below them; the rest is as before. */
  ghost predicate MovedUp(cells: seq<Cell>, was: seq<Cell>, n: nat) {
    && |cells| == |was| == CELLS && n + WIDTH <= CELLS
    && (forall i :: 0 <= i < n ==> cells[i] == was[i + WIDTH])
    && (forall i :: n <= i < CELLS ==> cells[i] == was[i])
  }

  class Terminal {
    const video: array<Cell>
    var cursorX: nat
    var cursorY: nat
    var currentColor: byte
    var inputStartX: nat
    var inputStartY: nat

    ghost function Abs(): Screen
      reads this, video
    {
      Screen(video[..], cursorX, cursorY, inputStartX, inputStartY, currentColor)
    }

    ghost predicate Valid()
      reads this, video
    {
      WellFormed(Abs())
    }

    constructor (video: array<Cell>, color: byte)
      requires video.Length == CELLS
      ensures Valid() && this.video == video
      ensures Abs() == Screen(video[..], 0, 0, 0, 0, color)
    {
      this.video := video;
      cursorX, cursorY, currentColor, inputStartX, inputStartY := 0, 0, color, 0, 0;
    }

    method Clear()
      requires video.Length == CELLS
      modifies this`cursorX, this`cursorY, video
      ensures Abs() == Cleared(old(Abs()))
    {
      cursorX := 0;
      cursorY := 0;
      for i := 0 to CELLS
        invariant forall j :: 0 <= j < i ==> video[j] == EntryOf(currentColor, SPACE)
        modifies video
      {
        video[i] := EntryOf(currentColor, SPACE);
      }
    }

    method ScrollNotify()
      modifies this`inputStartY
      ensures inputStartY == if old(inputStartY) > 0 then old(inputStartY) - 1 else 0
    {
      if inputStartY > 0 {
        inputStartY := inputStartY - 1;
      }
    }

    method Scroll()
      requires video.Length == CELLS
      modifies this`cursorY, this`inputStartY, video
      ensures Abs() == Scrolled(old(Abs()))
    {
      ghost var was := video[..];
      for y := 1 to HEIGHT
        invariant MovedUp(video[..], was, WIDTH * (y - 1))
        modifies video
      {
        for x := 0 to WIDTH
          invariant MovedUp(video[..], was, WIDTH * (y - 1) + x)
          modifies video
        {
          video[WIDTH * (y - 1) + x] := video[WIDTH * y + x];
        }
      }
      for x := 0 to WIDTH
        invariant forall i :: 0 <= i < CELLS - WIDTH ==> video[i] == was[i + WIDTH]
        invariant forall i :: CELLS - WIDTH <= i < CELLS - WIDTH + x ==> video[i] == EntryOf(currentColor, SPACE)
        modifies video
      {
        video[WIDTH * (HEIGHT - 1) + x] := EntryOf(currentColor, SPACE);
      }
      cursorY := HEIGHT - 1;
      ScrollNotify();
    }

    method PutChar(c: byte)
      requires Valid()
      modifies this, video
      ensures Valid() && Abs() == Put(old(Abs()), c)
    {
      if c == NEWLINE {
        cursorX := 0;
        cursorY := cursorY + 1;
      } else {
        video[cursorY * WIDTH + cursorX] := EntryOf(currentColor, c);
        cursorX := cursorX + 1;
        if cursorX >= WIDTH {
          cursorX := 0;
          cursorY := cursorY + 1;
        }
      }
      if cursorY >= HEIGHT {
        Scroll();
      }
    }

    /** Everything that a shell command and the prompt after it send to the screen. */
    method Show(output: seq<Output>)
      requires Valid()
      modifies this, video
      ensures Valid() && Abs() == Emit(old(Abs()), output)
    {
      hide Put, Cleared;
      ghost var s := Abs();
      for i := 0 to |output|
        invariant Valid() && Abs() == Emit(s, output[..i])
      {
        assert output[..i + 1][..i] == output[..i];
        match output[i] {
          case Print(c) => PutChar(c);
          case Clear => Clear();
        }
      }
      assert output[..|output|] == output;
    }

    method PutEntryAt(c: byte, x: nat, y: nat)
      requires video.Length == CELLS
      modifies video
      ensures Abs() == PutAt(old(Abs()), c, x, y)
    {
      if x >= WIDTH || y >= HEIGHT {
        return;
      }
      video[y * WIDTH + x] := EntryOf(currentColor, c);
    }

    method SetCursor(x: nat, y: nat)
      requires video.Length == CELLS
      modifies this, video
      ensures Abs() == CursorAt(old(Abs()), x, y)
    {
      ghost var s := Abs();
      var row := y + x / WIDTH;
      var column := x % WIDTH;
      while row >= HEIGHT
        invariant inputStartX == s.startX && currentColor == s.color && cursorX == s.x
        invariant video.Length == CELLS
        invariant row >= 0 && ScrolledTo(Abs(), row) == ScrolledTo(s, y + x / WIDTH)
        invariant row < HEIGHT ==> (row == y + x / WIDTH || row == HEIGHT - 1)
        invariant row <= y + x / WIDTH
        decreases row
      {
        Scroll();
        row := row - 1;
      }
      cursorX := column;
      cursorY := row;
    }

    method SetInputStart()
      requires Valid()
      modifies this`inputStartX, this`inputStartY
      ensures Valid() && Abs() == Marked(old(Abs()))
    {
      inputStartX := cursorX;
      inputStartY := cursorY;
    }
  }
}
