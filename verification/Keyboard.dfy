/** The keyboard interrupt handler: a NUL-terminated buffer edited in place, redrawn on
    the terminal after every change. */
module Keyboard {
  import opened Bytes
  import opened TerminalSpec
  import opened LineEditorSpec
  import opened ConsoleRuns
  import opened T = Terminal
  import LibkString
  import opened Shell

  /** A line handed to the shell, with the command line that the shell built from it. */
  datatype Event = Nothing | Line(text: seq<byte>, command: CommandLine)

  /** The event that a key must cause: on Enter, the whole text and its arguments. */
  ghost predicate Answers(event: Event, key: Key, e: Editor)
    reads if event.Line? then {event.command, event.command.buffer, event.command.argv} else {}
  {
    if key.Enter? then event.Line? && event.text == Text(e) && event.command.Holds(Arguments(Text(e)))
    else event.Nothing?
  }

  class Keyboard {
    const maps: Keymaps
    const terminal: Terminal
    const inputBuffer: array<byte>
    var inputLength: nat
    var cursorPosition: nat
    var shiftPressed: bool
    var capsLock: bool
    var extendedScancode: bool
    var previousLength: nat

    ghost function Flags(): Flags
      reads this
    {
      LineEditorSpec.Flags(shiftPressed, capsLock, extendedScancode)
    }

    ghost function Editor(): Editor
      requires cursorPosition <= inputLength <= inputBuffer.Length
      reads this, inputBuffer
    {
      LineEditorSpec.Editor(inputBuffer[..cursorPosition], inputBuffer[cursorPosition..inputLength])
    }

    /** The buffer is always a proper C string of at most 255 characters. */
    ghost predicate Shaped()
      reads this, inputBuffer
    {
      && Complete(maps)
      && inputBuffer.Length == BUFFER_SIZE
      && cursorPosition <= inputLength < BUFFER_SIZE
      && inputBuffer[inputLength] == 0
      && 0 !in inputBuffer[..inputLength]
    }

    ghost predicate Valid()
      reads this, inputBuffer, terminal, terminal.video
    {
      && Shaped() && previousLength == inputLength
      && terminal.Valid()
    }

    /** The console as the runs of keyboard interrupts see it. */
    ghost function Abs(): (c: Console)
      requires Valid()
      reads this, inputBuffer, terminal, terminal.video
      ensures ConsoleOk(c)
    {
      assert Text(Editor()) == inputBuffer[..inputLength];
      Console(Flags(), Editor(), terminal.Abs())
    }

    /** What the shell receives is the buffer as a C string: the edited text. */
    lemma BufferIsTheText()
      requires Shaped()
      ensures 0 in inputBuffer[..] && LibkString.CStr(inputBuffer[..]) == Text(Editor())
      ensures |Text(Editor())| < BUFFER_SIZE
    {
      var m := inputBuffer[..];
      assert m == m[..inputLength] + m[inputLength..] && m[inputLength] == 0;
      LibkString.CStrOf(m[..inputLength], m[inputLength..]);
      assert Text(Editor()) == m[..inputLength];
    }

    constructor (maps: Keymaps, terminal: Terminal)
      requires Complete(maps) && terminal.Valid()
      ensures Valid() && fresh(inputBuffer)
      ensures this.maps == maps && this.terminal == terminal
      ensures Flags() == LineEditorSpec.Flags(false, false, false) && Editor() == LineEditorSpec.Editor([], [])
    {
      this.maps, this.terminal := maps, terminal;
      inputBuffer := new byte[BUFFER_SIZE](_ => 0);
      inputLength, cursorPosition, previousLength := 0, 0, 0;
      shiftPressed, capsLock, extendedScancode := false, false, false;
    }

    method RedrawInput()
      requires Shaped() && terminal.Valid()
      modifies this`previousLength, terminal, terminal.video
      ensures Valid()
      ensures terminal.Abs() == Redrawn(old(terminal.Abs()), old(previousLength), inputBuffer[..inputLength], cursorPosition)
    {
      hide Drawn, ScrolledTo;
      ghost var s := terminal.Abs();
      RedrawnWellFormed(s, previousLength, inputBuffer[..inputLength], cursorPosition);
      DrawLine(previousLength, Spaces(previousLength));
      DrawLine(inputLength, inputBuffer[..inputLength]);
      previousLength := inputLength;
      var x, y := ScreenPos(cursorPosition);
      terminal.SetCursor(x, y);
    }

    /** Puts `n` characters on the first input cells. */
    method DrawLine(n: nat, text: seq<byte>)
      requires terminal.video.Length == CELLS && n == |text|
      modifies terminal.video
      ensures terminal.Abs() == Drawn(old(terminal.Abs()), text)
    {
      ghost var s := terminal.Abs();
      for i := 0 to n
        invariant terminal.Abs() == Drawn(s, text[..i])
      {
        var x, y := ScreenPos(i);
        assert text[..i + 1][..i] == text[..i];
        terminal.PutEntryAt(text[i], x, y);
      }
      assert text[..n] == text;
    }

    method ScreenPos(index: nat) returns (x: nat, y: nat)
      ensures x == InputX(terminal.Abs(), index) && y == InputY(terminal.Abs(), index)
    {
      var pos := terminal.inputStartX + index;
      x := pos % WIDTH;
      y := terminal.inputStartY + pos / WIDTH;
    }

    /** Removes the character before the cursor by shifting the rest down. */
    method EraseChar()
      requires Shaped() && cursorPosition > 0
      modifies this`inputLength, this`cursorPosition, inputBuffer
      ensures Shaped() && Editor() == Edit(old(Editor()), Erase)
      ensures inputLength == old(inputLength) - 1
    {
      hide Complete;
      ghost var was := inputBuffer[..];
      for i := cursorPosition - 1 to inputLength - 1
        invariant forall j :: 0 <= j < cursorPosition - 1 || i <= j < BUFFER_SIZE ==> inputBuffer[j] == was[j]
        invariant forall j :: cursorPosition - 1 <= j < i ==> inputBuffer[j] == was[j + 1]
        modifies inputBuffer
      {
        inputBuffer[i] := inputBuffer[i + 1];
      }
      inputLength := inputLength - 1;
      cursorPosition := cursorPosition - 1;
      inputBuffer[inputLength] := 0;
      assert inputBuffer[..cursorPosition] == was[..cursorPosition];
      assert inputBuffer[cursorPosition..inputLength] == was[cursorPosition + 1..inputLength + 1];
      NoNul(was[..inputLength + 1], inputBuffer[..inputLength]);
    }

    /** Inserts a character at the cursor by shifting the rest up. */
    method InsertChar(c: byte)
      requires Shaped() && inputLength < BUFFER_SIZE - 1 && c != 0
      modifies this`inputLength, this`cursorPosition, inputBuffer
      ensures Shaped() && Editor() == Edit(old(Editor()), Insert(c))
      ensures inputLength == old(inputLength) + 1
    {
      ghost var before, after := inputBuffer[..cursorPosition], inputBuffer[cursorPosition..inputLength];
      MakeRoom(inputBuffer, cursorPosition, inputLength);
      inputBuffer[cursorPosition] := c;
      inputLength := inputLength + 1;
      cursorPosition := cursorPosition + 1;
      inputBuffer[inputLength] := 0;
      assert inputBuffer[..cursorPosition] == before + [c];
      assert inputBuffer[cursorPosition..inputLength] == after;
      assert inputBuffer[..inputLength] == before + [c] + after;
    }

    /** One keyboard interrupt. `output` is what the shell shows, prompt included, when
        the line is handed to it. */
    method Handler(scancode: byte, output: seq<Output>) returns (event: Event)
      requires Valid()
      modifies this, inputBuffer, terminal, terminal.video
      ensures Valid()
      ensures Abs() == Pressed(old(Abs()), maps, Stroke(scancode, output))
      ensures Answers(event, Decode(old(Flags()), maps, scancode).1, old(Editor()))
    {
      hide WellFormed, EditorOk, Edit, ScreenAfter, Arguments, Strings;
      NothingPressed(terminal.Abs(), Editor(), output);
      event := Nothing;
      if scancode == 0xE0 {
        extendedScancode := true;
        return;
      }
      if extendedScancode {
        extendedScancode := false;
        ArrowKey(scancode, output);
        return;
      }
      if scancode == 0x2A || scancode == 0x36 {
        shiftPressed := true;
        return;
      }
      if scancode == 0xAA || scancode == 0xB6 {
        shiftPressed := false;
        return;
      }
      if scancode == 0x3A {
        capsLock := !capsLock;
        return;
      }
      if scancode >= KEYS {
        return;
      }
      var c := maps.plain[scancode];
      if 97 <= c <= 122 {
        if shiftPressed != capsLock {
          c := c - 32;
        }
      } else if shiftPressed {
        c := maps.shifted[scancode];
      }
      event := Typed(c, output);
    }

    /** Moves the cursor one character to the left. */
    method CursorLeft(output: seq<Output>)
      requires Valid() && cursorPosition > 0
      modifies this`cursorPosition, this`previousLength, terminal, terminal.video
      ensures Valid() && Editor() == Edit(old(Editor()), Left)
      ensures terminal.Abs() == ScreenAfter(old(terminal.Abs()), old(Editor()), Left, output)
    {
      hide Redrawn, WellFormed;
      WholeLine(inputBuffer[..], cursorPosition, inputLength);
      cursorPosition := cursorPosition - 1;
      MoveLeft(inputBuffer[..], cursorPosition, inputLength);
      RedrawInput();
    }

    /** Moves the cursor one character to the right. */
    method CursorRight(output: seq<Output>)
      requires Valid() && cursorPosition < inputLength
      modifies this`cursorPosition, this`previousLength, terminal, terminal.video
      ensures Valid() && Editor() == Edit(old(Editor()), Right)
      ensures terminal.Abs() == ScreenAfter(old(terminal.Abs()), old(Editor()), Right, output)
    {
      hide Redrawn, WellFormed;
      WholeLine(inputBuffer[..], cursorPosition, inputLength);
      cursorPosition := cursorPosition + 1;
      MoveRight(inputBuffer[..], cursorPosition, inputLength);
      RedrawInput();
    }

    /** The second byte of an extended scancode. */
    method ArrowKey(scancode: byte, output: seq<Output>)
      requires Valid()
      modifies this`cursorPosition, this`previousLength, terminal, terminal.video
      ensures Valid()
      ensures var key := if scancode == 0x4B then Left else if scancode == 0x4D then Right else NoKey;
        var e, s := old(Editor()), old(terminal.Abs());
        && Editor() == Edit(e, key)
        && terminal.Abs() == ScreenAfter(s, e, key, output)
    {
      hide Redrawn, Emit, Put, WellFormed;
      if scancode == 0x4B && cursorPosition > 0 {
        CursorLeft(output);
      } else if scancode == 0x4D && cursorPosition < inputLength {
        CursorRight(output);
      }
    }

    /** What the handler does with a decoded character. */
    method Typed(c: byte, output: seq<Output>) returns (event: Event)
      requires Valid()
      modifies this`inputLength, this`cursorPosition, this`previousLength, inputBuffer, terminal, terminal.video
      ensures Valid()
      ensures var key := if c == 0 then NoKey else if c == BACKSPACE then Erase else if c == NEWLINE then Enter else Insert(c);
        var e, s := old(Editor()), old(terminal.Abs());
        && Editor() == Edit(e, key)
        && Answers(event, key, e)
        && terminal.Abs() == ScreenAfter(s, e, key, output)
    {
      hide Redrawn, Emit, Put, Drawn, CursorAt, Arguments, Strings;
      WholeLine(inputBuffer[..], cursorPosition, inputLength);
      event := Nothing;
      if c == 0 {
        return;
      }
      if c == BACKSPACE {
        if cursorPosition == 0 {
          return;
        }
        EraseChar();
        WholeLine(inputBuffer[..], cursorPosition, inputLength);
        RedrawInput();
        return;
      }
      if c == NEWLINE {
        event := EnterLine(output);
        return;
      }
      if inputLength >= BUFFER_SIZE - 1 {
        return;
      }
      InsertChar(c);
      WholeLine(inputBuffer[..], cursorPosition, inputLength);
      RedrawInput();
    }

    /** Enter: the buffer goes to the shell and a new input line begins. */
    method EnterLine(output: seq<Output>) returns (event: Event)
      requires Valid()
      modifies this`inputLength, this`cursorPosition, this`previousLength, inputBuffer, terminal, terminal.video
      ensures Valid()
      ensures Editor() == LineEditorSpec.Editor([], [])
      ensures Answers(event, Enter, old(Editor()))
      ensures terminal.Abs() == Marked(Emit(Put(old(terminal.Abs()), NEWLINE), output))
    {
      hide Emit, Put, Arguments, Strings;
      BufferIsTheText();
      WholeLine(inputBuffer[..], cursorPosition, inputLength);
      terminal.PutChar(NEWLINE);
      var command := new CommandLine();
      command.Tokenize(inputBuffer[..]);
      event := Line(inputBuffer[..inputLength], command);
      terminal.Show(output);
      inputLength := 0;
      cursorPosition := 0;
      previousLength := 0;
      inputBuffer[0] := 0;
      terminal.SetInputStart();
    }
  }

  /** Shifts the entries from `at` to `n` up by one. */
  method MakeRoom(a: array<byte>, at: nat, n: nat)
    requires at <= n < a.Length
    modifies a
    ensures a[..at] == old(a[..at]) && a[at + 1..n + 1] == old(a[at..n])
  {
    ghost var was := a[..];
    var i := n;
    while i > at
      invariant at <= i <= n
      invariant forall j :: 0 <= j <= i ==> a[j] == was[j]
      invariant forall j :: i < j <= n ==> a[j] == was[j - 1]
    {
      a[i] := a[i - 1];
      i := i - 1;
    }
  }

  lemma NothingPressed(s: Screen, e: Editor, output: seq<Output>)
    requires WellFormed(s)
    ensures Edit(e, NoKey) == e && ScreenAfter(s, e, NoKey, output) == s
  {
  }

  lemma NoNul(was: seq<byte>, now: seq<byte>)
    requires 0 !in was && forall i :: 0 <= i < |now| ==> now[i] in was
    ensures 0 !in now
  {
  }

  lemma WholeLine(m: seq<byte>, cursor: nat, length: nat)
    requires cursor <= length <= |m|
    ensures m[..cursor] + m[cursor..length] == m[..length]
  {
  }

  lemma MoveLeft(m: seq<byte>, cursor: nat, length: nat)
    requires cursor < length <= |m|
    ensures m[cursor..length] == [m[..cursor + 1][cursor]] + m[cursor + 1..length]
    ensures m[..cursor] == m[..cursor + 1][..cursor]
    ensures m[..cursor] + m[cursor..length] == m[..length]
  {
  }

  lemma MoveRight(m: seq<byte>, cursor: nat, length: nat)
    requires 0 < cursor <= length <= |m|
    ensures m[..cursor] == m[..cursor - 1] + [m[cursor - 1..length][0]]
    ensures m[cursor..length] == m[cursor - 1..length][1..]
    ensures m[..cursor] + m[cursor..length] == m[..length]
  {
  }
}
