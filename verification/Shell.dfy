/** The shell's in-place tokenizer and the joining of arguments in its write command
    (kernel/shell.c), against the words of a line. */
module Shell {
  import opened Bytes
  import opened LibkString
  import LineEditorSpec

  const MAX_ARGS := 16
  const TEXT_SIZE := 512

  /** The number of characters before the first space. */
  function WordLength(t: seq<byte>): (n: nat)
    ensures n <= |t|
    ensures forall i :: 0 <= i < n ==> t[i] != SPACE
    ensures n < |t| ==> t[n] == SPACE
  {
    if t == [] || t[0] == SPACE then 0 else 1 + WordLength(t[1..])
  }

  /** The words of a text: its longest stretches without a space. */
  function Words(t: seq<byte>): seq<seq<byte>>
    decreases |t|
  {
    if t == [] then []
    else if t[0] == SPACE then Words(t[1..])
    else [t[..WordLength(t)]] + Words(t[WordLength(t)..])
  }

  predicate IsWord(w: seq<byte>) {
    w != [] && SPACE !in w
  }

  function Join(ws: seq<seq<byte>>): seq<byte> {
    if ws == [] then []
    else if |ws| == 1 then ws[0]
    else ws[0] + [SPACE] + Join(ws[1..])
  }

  // ----- what the words of a text are -----

  lemma {:induction false} WordLengthOf(w: seq<byte>, rest: seq<byte>)
    requires SPACE !in w && (rest != [] ==> rest[0] == SPACE)
    ensures WordLength(w + rest) == |w|
    decreases |w|
  {
    if w == [] {
      assert w + rest == rest;
    } else {
      assert (w + rest)[1..] == w[1..] + rest;
      WordLengthOf(w[1..], rest);
    }
  }

  lemma {:induction false} WordsAreWords(t: seq<byte>)
    ensures forall w :: w in Words(t) ==> IsWord(w)
    decreases |t|
  {
    if t != [] {
      if t[0] == SPACE {
        WordsAreWords(t[1..]);
      } else {
        WordsAreWords(t[WordLength(t)..]);
      }
    }
  }

  /** A space separates: the words of two texts with a space between are the words of
      the first followed by those of the second. With `OneWord` this fixes Words. */
  lemma {:induction false} SpaceSeparates(a: seq<byte>, b: seq<byte>)
    ensures Words(a + [SPACE] + b) == Words(a) + Words(b)
    decreases |a|
  {
    var t := a + [SPACE] + b;
    if a == [] {
      assert t[1..] == b;
    } else if a[0] == SPACE {
      assert t[1..] == a[1..] + [SPACE] + b;
      SpaceSeparates(a[1..], b);
    } else {
      var n := WordLength(a);
      assert t == a[..n] + (a[n..] + [SPACE] + b);
      WordLengthOf(a[..n], a[n..] + [SPACE] + b);
      assert t[..n] == a[..n] && t[n..] == a[n..] + [SPACE] + b;
      SpaceSeparates(a[n..], b);
    }
  }

  lemma OneWord(w: seq<byte>)
    requires SPACE !in w
    ensures Words(w) == if w == [] then [] else [w]
  {
    if w != [] {
      WordLengthOf(w, []);
      assert w + [] == w;
    }
  }

  /** Splitting what was joined gives the words back. */
  lemma {:induction false} WordsOfJoin(ws: seq<seq<byte>>)
    requires forall w :: w in ws ==> IsWord(w)
    ensures Words(Join(ws)) == ws
    decreases |ws|
  {
    if ws != [] {
      assert IsWord(ws[0]) by { assert ws[0] in ws; }
      OneWord(ws[0]);
      if |ws| > 1 {
        WordsOfJoin(ws[1..]);
        SpaceSeparates(ws[0], Join(ws[1..]));
        assert ws == [ws[0]] + ws[1..];
      }
    }
  }

  /** The total length of the words, one separator each. */
  function Room(ws: seq<seq<byte>>): nat {
    if ws == [] then 0 else |ws[0]| + 1 + Room(ws[1..])
  }

  lemma {:induction false} JoinLength(ws: seq<seq<byte>>)
    ensures |Join(ws)| == if ws == [] then 0 else Room(ws) - 1
    decreases |ws|
  {
    if |ws| > 1 {
      JoinLength(ws[1..]);
    }
  }

  lemma {:induction false} WordsFit(t: seq<byte>)
    ensures Room(Words(t)) <= |t| + 1
    decreases |t|
  {
    if t != [] {
      if t[0] == SPACE {
        WordsFit(t[1..]);
      } else {
        var n := WordLength(t);
        var rest := t[n..];
        if rest != [] {
          WordsFit(rest[1..]);
        }
      }
    }
  }

  lemma {:induction false} RoomOfPart(ws: seq<seq<byte>>, lo: nat, hi: nat)
    requires lo <= hi <= |ws|
    ensures Room(ws[lo..hi]) <= Room(ws)
    decreases |ws|
  {
    if lo > 0 {
      assert ws[lo..hi] == ws[1..][lo - 1..hi - 1];
      RoomOfPart(ws[1..], lo - 1, hi - 1);
    } else if hi > 0 {
      assert ws[0..hi][1..] == ws[1..][0..hi - 1];
      RoomOfPart(ws[1..], 0, hi - 1);
    }
  }

  // ----- the tokenizer -----

  /** The arguments the shell passes on: at most sixteen. */
  function Arguments(line: seq<byte>): seq<seq<byte>> {
    var ws := Words(line);
    if |ws| <= MAX_ARGS then ws else ws[..MAX_ARGS]
  }

  lemma FirstSixteen(line: seq<byte>)
    ensures |Arguments(line)| == if |Words(line)| < 16 then |Words(line)| else 16
    ensures forall i :: 0 <= i < |Arguments(line)| ==> Arguments(line)[i] == Words(line)[i]
  {
  }

  /** Word `w` stands at offset `at` of the buffer, ended by a NUL. */
  ghost predicate StandsAt(m: seq<byte>, at: nat, w: seq<byte>) {
    at + |w| < |m| && m[at..at + |w|] == w && m[at + |w|] == 0
  }

  lemma StringAt(m: seq<byte>, at: nat, w: seq<byte>)
    requires StandsAt(m, at, w) && 0 !in w
    ensures CStr(m[at..]) == w && 0 in m[at..]
  {
    assert m[at..] == w + m[at + |w|..];
    assert m[at..][|w|] == 0;
    CStrOf(w, m[at + |w|..]);
  }

  lemma WordsFromSpace(t: seq<byte>, p: nat)
    requires p < |t| && t[p] == SPACE
    ensures Words(t[p..]) == Words(t[p + 1..])
  {
    assert t[p..][1..] == t[p + 1..];
  }

  lemma WordsFromWord(t: seq<byte>, start: nat, end: nat)
    requires start < end <= |t| && SPACE !in t[start..end] && (end < |t| ==> t[end] == SPACE)
    ensures Words(t[start..]) == [t[start..end]] + Words(t[end..])
  {
    assert t[start..] == t[start..end] + t[end..];
    WordLengthOf(t[start..end], t[end..]);
    assert t[start..][..end - start] == t[start..end];
    assert t[start] == t[start..end][0];
  }

  /** The strings at the offsets `argv` of memory `m` are `args`. */
  ghost predicate Strings(m: seq<byte>, argv: seq<nat>, args: seq<seq<byte>>) {
    && |argv| == |args|
    && forall i :: 0 <= i < |args| ==> argv[i] < |m| && 0 in m[argv[i]..] && CStr(m[argv[i]..]) == args[i]
  }

  class CommandLine {
    const buffer: array<byte>
    const argv: array<nat>
    var argc: nat

    constructor ()
      ensures buffer.Length == LineEditorSpec.BUFFER_SIZE && argv.Length == MAX_ARGS && fresh(buffer) && fresh(argv)
    {
      buffer := new byte[LineEditorSpec.BUFFER_SIZE](_ => 0);
      argv := new nat[MAX_ARGS](_ => 0);
      argc := 0;
    }

    /** The buffer holds the arguments, each a C string at its offset in argv. */
    ghost predicate Holds(args: seq<seq<byte>>)
      reads this, buffer, argv
    {
      argc <= argv.Length && Strings(buffer[..], argv[..argc], args)
    }

    /** shell_execute up to the command lookup. */
    method Tokenize(cmd: seq<byte>)
      requires buffer.Length == LineEditorSpec.BUFFER_SIZE && argv.Length == MAX_ARGS
      requires 0 in cmd && |CStr(cmd)| < LineEditorSpec.BUFFER_SIZE
      modifies this, buffer, argv
      ensures Holds(Arguments(CStr(cmd)))
    {
      hide Collected, Strings, Words, Arguments, CStr, Rest;
      ghost var text := CStr(cmd);
      ghost var args: seq<seq<byte>> := [];
      ghost var ended := false;
      argc := 0;
      CopiedLine(buffer[..], cmd);
      Strcpy(buffer, 0, cmd);
      var token := 0;
      CollectNone(buffer[..], argv[..0]);
      assert text[0..] == text;
      while buffer[token] != 0 && argc < MAX_ARGS
        invariant argc == |args| <= MAX_ARGS && !ended
        invariant token <= |text| && Rest(buffer[..], text, token)
        invariant Collected(buffer[..], argv[..argc], args, token)
        invariant Words(text) == args + Words(text[token..])
        invariant |text| < buffer.Length
        decreases |text| - token
      {
        ghost var from := token;
        token := SkipSpaces(text, token);
        RestLater(buffer[..], text, from, token);
        CollectedLater(buffer[..], argv[..argc], args, from, token);
        if buffer[token] == 0 {
          NulIsEnd(buffer[..], text, token);
          NoWordsLeft(text, args, token);
          ended := true;
          break;
        }
        NotNul(buffer[..], text, token);
        var more: bool;
        ghost var word: seq<byte>;
        token, more, word := TakeWord(text, args, token);
        args := args + [word];
        if !more {
          NoWordsLeft(text, args, token);
          ended := true;
          break;
        }
      }
      if !ended {
        if buffer[token] == 0 {
          NulIsEnd(buffer[..], text, token);
        }
        ArgumentsFull(text, args, token);
      }
      CollectedStrings(buffer[..], argv[..argc], args);
    }

    /** Records the word at `from` and, unless the line ends with it, puts a NUL over the
        space behind it. */
    method TakeWord(ghost text: seq<byte>, ghost args: seq<seq<byte>>, from: nat)
      returns (token: nat, more: bool, ghost word: seq<byte>)
      requires argc == |args| < MAX_ARGS == argv.Length
      requires from < |text| < buffer.Length && Rest(buffer[..], text, from) && buffer[from] != SPACE
      requires Collected(buffer[..], argv[..argc], args, from)
      requires Words(text) == args + Words(text[from..])
      modifies this, buffer, argv
      ensures argc == |args| + 1 && from < token <= |text|
      ensures Words(text) == args + [word] + Words(text[token..])
      ensures Collected(buffer[..], argv[..argc], args + [word], if more then token else |text| + 1)
      ensures Rest(buffer[..], text, token) && (!more ==> token == |text|)
    {
      hide Collected, Words, CStr, Rest;
      ghost var before, argvBefore := buffer[..], argv[..argc];
      argv[argc] := from;
      assert argv[..argc + 1] == argvBefore + [from];
      argc := argc + 1;
      token := SkipWord(text, from);
      word := text[from..token];
      WordsFromWord(text, from, token);
      assert args + ([word] + Words(text[token..])) == args + [word] + Words(text[token..]);
      RestLater(before, text, from, token);
      if buffer[token] == 0 {
        NulIsEnd(before, text, token);
        CollectLast(before, text, argvBefore, args, from);
        return token, false, word;
      }
      NotNul(before, text, token);
      buffer[token] := 0;
      CollectMore(before, text, argvBefore, args, from, token);
      WordsFromSpace(text, token);
      return token + 1, true, word;
    }

    method SkipSpaces(ghost text: seq<byte>, from: nat) returns (token: nat)
      requires from <= |text| && Rest(buffer[..], text, from)
      ensures from <= token <= |text|
      ensures buffer[token] != SPACE
      ensures Words(text[token..]) == Words(text[from..])
    {
      token := from;
      while buffer[token] == SPACE
        invariant from <= token <= |text|
        invariant Words(text[token..]) == Words(text[from..])
        decreases |text| - token
      {
        WordsFromSpace(text, token);
        token := token + 1;
      }
    }

    method SkipWord(ghost text: seq<byte>, from: nat) returns (token: nat)
      requires from < |text| && Rest(buffer[..], text, from) && buffer[from] != SPACE
      ensures from < token <= |text|
      ensures SPACE !in text[from..token]
      ensures token < |text| ==> text[token] == SPACE
    {
      token := from;
      while buffer[token] != 0 && buffer[token] != SPACE
        invariant from <= token <= |text|
        invariant SPACE !in text[from..token]
        decreases |text| - token
      {
        assert text[from..token + 1] == text[from..token] + [text[token]];
        token := token + 1;
      }
    }

    /** The loop of the write command: the arguments from the third on, joined by single
        spaces. */
    method JoinText(ghost args: seq<seq<byte>>, text: array<byte>)
      requires 3 <= |args| && text.Length == TEXT_SIZE && text != buffer
      requires Holds(args) && Room(args[2..]) <= LineEditorSpec.BUFFER_SIZE
      modifies text
      ensures 0 in text[..] && CStr(text[..]) == Join(args[2..])
    {
      hide Words, Room, Begun, Join, CStr, Strings;
      assert argc == |args| by { StringsLength(buffer[..], argv[..argc], args); }
      text[0] := 0;
      EmptyString(text[..]);
      BegunEmpty(args);
      for i := 2 to argc
        invariant 0 in text[..]
        invariant CStr(text[..]) == Begun(args, i)
      {
        BegunStep(args, i);
        StringsAt(buffer[..], argv[..argc], args, i);
        Strcat(text, buffer[argv[i]..]);
        if i != argc - 1 {
          OneSpace();
          Strcat(text, [SPACE, 0]);
        }
      }
      BegunAll(args);
    }
  }

  /** From position `p` on, the buffer still holds the text and its terminator. */
  ghost predicate Rest(m: seq<byte>, text: seq<byte>, p: nat) {
    && |text| < |m| && 0 !in text && m[|text|] == 0
    && forall j :: p <= j < |text| ==> m[j] == text[j]
  }

  lemma NoWordsLeft(text: seq<byte>, args: seq<seq<byte>>, p: nat)
    requires p == |text| && |args| <= MAX_ARGS && Words(text) == args + Words(text[p..])
    ensures Arguments(text) == args
  {
    assert text[p..] == [];
    assert args + [] == args;
  }

  lemma ArgumentsFull(text: seq<byte>, args: seq<seq<byte>>, p: nat)
    requires p <= |text| && |args| <= MAX_ARGS && Words(text) == args + Words(text[p..])
    requires p == |text| || |args| == MAX_ARGS
    ensures Arguments(text) == args
  {
    if p == |text| {
      NoWordsLeft(text, args, p);
    }
  }

  lemma CopiedLine(m: seq<byte>, cmd: seq<byte>)
    requires 0 in cmd && |CStr(cmd)| + 1 <= |m|
    ensures Rest(Patch(m, 0, CStr(cmd) + [0]), CStr(cmd), 0)
  {
  }

  lemma RestLater(m: seq<byte>, text: seq<byte>, p: nat, q: nat)
    requires Rest(m, text, p) && p <= q
    ensures Rest(m, text, q)
  {
  }

  lemma NulIsEnd(m: seq<byte>, text: seq<byte>, p: nat)
    requires Rest(m, text, p) && p <= |text| < |m| && m[p] == 0
    ensures p == |text|
  {
  }

  lemma NotNul(m: seq<byte>, text: seq<byte>, p: nat)
    requires Rest(m, text, p) && p <= |text| < |m| && m[p] != 0
    ensures p < |text| && m[p] == text[p]
  {
  }

  /** The words collected so far, all before position `limit`. */
  ghost predicate Collected(m: seq<byte>, argv: seq<nat>, args: seq<seq<byte>>, limit: nat) {
    && |argv| == |args|
    && forall i :: 0 <= i < |args| ==>
         StandsAt(m, argv[i], args[i]) && argv[i] + |args[i]| < limit && 0 !in args[i]
  }

  lemma CollectNone(m: seq<byte>, argv: seq<nat>)
    requires argv == []
    ensures Collected(m, argv, [], 0)
  {
  }

  lemma CollectedLater(m: seq<byte>, argv: seq<nat>, args: seq<seq<byte>>, limit: nat, later: nat)
    requires Collected(m, argv, args, limit) && limit <= later
    ensures Collected(m, argv, args, later)
  {
  }

  lemma CollectedStrings(m: seq<byte>, argv: seq<nat>, args: seq<seq<byte>>)
    requires exists limit: nat :: Collected(m, argv, args, limit)
    ensures Strings(m, argv, args)
  {
    var limit: nat :| Collected(m, argv, args, limit);
    forall i | 0 <= i < |args|
      ensures argv[i] < |m| && 0 in m[argv[i]..] && CStr(m[argv[i]..]) == args[i]
    {
      StringAt(m, argv[i], args[i]);
    }
  }

  /** The word before the end of the line is ended by the line's own terminator. */
  lemma CollectLast(m: seq<byte>, text: seq<byte>, argv: seq<nat>, args: seq<seq<byte>>, start: nat)
    requires Collected(m, argv, args, start) && start <= |text| && Rest(m, text, start)
    ensures Collected(m, argv + [start], args + [text[start..|text|]], |text| + 1)
  {
    assert m[start..|text|] == text[start..|text|];
  }

  /** A word before a space is ended by the NUL that replaces the space; the words before
      it stay as they are. */
  lemma CollectMore(m: seq<byte>, text: seq<byte>, argv: seq<nat>, args: seq<seq<byte>>, start: nat, end: nat)
    requires Collected(m, argv, args, start) && start <= end < |text| < |m| && Rest(m, text, start)
    ensures Collected(m[end := 0], argv + [start], args + [text[start..end]], end + 1)
    ensures Rest(m[end := 0], text, end + 1)
  {
    var m' := m[end := 0];
    assert m'[start..end] == text[start..end];
    forall i | 0 <= i < |args|
      ensures StandsAt(m', argv[i], args[i])
    {
      assert m'[argv[i]..argv[i] + |args[i]|] == m[argv[i]..argv[i] + |args[i]|];
    }
  }

  // ----- joining -----

  /** What the text buffer holds before argument `i` is appended. */
  function Begun(args: seq<seq<byte>>, i: nat): seq<byte>
    requires 2 <= i <= |args|
  {
    Join(args[2..i]) + if 2 < i < |args| then [SPACE] else []
  }

  lemma {:induction false} JoinSnoc(ws: seq<seq<byte>>, w: seq<byte>)
    ensures Join(ws + [w]) == if ws == [] then w else Join(ws) + [SPACE] + w
    decreases |ws|
  {
    if |ws| == 1 {
      assert (ws + [w])[1..] == [w];
    } else if |ws| > 1 {
      assert (ws + [w])[1..] == ws[1..] + [w];
      JoinSnoc(ws[1..], w);
    }
  }

  lemma StringsLength(m: seq<byte>, argv: seq<nat>, args: seq<seq<byte>>)
    requires Strings(m, argv, args)
    ensures |argv| == |args|
  {
  }

  lemma StringsAt(m: seq<byte>, argv: seq<nat>, args: seq<seq<byte>>, i: nat)
    requires Strings(m, argv, args) && i < |args|
    ensures |argv| == |args| && argv[i] < |m| && 0 in m[argv[i]..] && CStr(m[argv[i]..]) == args[i]
  {
  }

  lemma EmptyString(m: seq<byte>)
    requires m != [] && m[0] == 0
    ensures 0 in m && CStr(m) == []
  {
  }

  lemma OneSpace()
    ensures CStr([SPACE, 0]) == [SPACE]
  {
    CStrOf([SPACE], [0]);
    assert [SPACE] + [0] == [SPACE, 0];
  }

  lemma BegunEmpty(args: seq<seq<byte>>)
    requires 2 <= |args|
    ensures Begun(args, 2) == []
  {
  }

  lemma BegunAll(args: seq<seq<byte>>)
    requires 2 <= |args|
    ensures Begun(args, |args|) == Join(args[2..])
  {
    assert args[2..|args|] == args[2..];
  }

  lemma BegunStep(args: seq<seq<byte>>, i: nat)
    requires 2 <= i < |args|
    ensures Begun(args, i + 1) == Begun(args, i) + args[i] + if i + 1 < |args| then [SPACE] else []
    ensures |Begun(args, i)| + |args[i]| + 1 <= Room(args[2..])
  {
    assert args[2..i + 1] == args[2..i] + [args[i]];
    JoinSnoc(args[2..i], args[i]);
    JoinLength(args[2..i + 1]);
    RoomOfPart(args[2..], 0, i - 1);
    assert args[2..][0..i - 1] == args[2..i + 1];
  }

  /** The write command stores text that splits into exactly the arguments given. */
  lemma WrittenTextSplitsBack(line: seq<byte>)
    requires |Arguments(line)| >= 2
    ensures Words(Join(Arguments(line)[2..])) == Arguments(line)[2..]
  {
    WordsAreWords(line);
    WordsOfJoin(Arguments(line)[2..]);
  }

  /** The arguments of a line always fit in the write command's buffer. */
  lemma WrittenTextFits(line: seq<byte>)
    requires |line| < LineEditorSpec.BUFFER_SIZE && |Arguments(line)| >= 2
    ensures Room(Arguments(line)[2..]) <= LineEditorSpec.BUFFER_SIZE && |Join(Arguments(line)[2..])| < TEXT_SIZE
  {
    WordsFit(line);
    RoomOfPart(Words(line), 2, |Arguments(line)|);
    JoinLength(Arguments(line)[2..]);
  }
}
