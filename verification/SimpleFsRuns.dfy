/** Runs of SimpleFS operations over a disk whose write commands may fail, and the
    map from names to contents that every run refines. */
module SimpleFsRuns {
  import opened Bytes
  import opened Wrappers
  import opened SimpleFsTable
  import opened SimpleFsPlan
  import opened SimpleFs

  datatype Op =
    | Format
    | Create(name: Name)
    | Delete(name: Name)
    | Write(name: Name, data: FileData)
    | Read(name: Name, room: nat)

  /** What the caller sees: a return code, and the bytes that a read delivers. */
  datatype Answer = Code(rc: int) | Bytes(bytes: seq<byte>)

  /** A disk image and the number of write commands issued so far. */
  datatype State = State(image: DiskImage, commands: nat)

  type FileMap = map<seq<byte>, Content>

  // ----- the concrete step -----

  ghost function PlanOf(d: DiskImage, op: Op): Option<seq<Io>> {
    match op
    case Format => Some(FormatPlan())
    case Create(name) => CreatePlan(d, name)
    case Delete(name) => DeletePlan(d, name)
    case Write(name, data) => WritePlan(d, name, data)
    case Read(_, _) => None
  }

  /** The next state: the planned writes up to the first failure. Formatting alone
      ignores failures and goes on. */
  ghost function Next(s: State, op: Op, fails: nat -> bool): State {
    match PlanOf(s.image, op)
    case None => s
    case Some(ios) =>
      if op.Format? then
        State(ApplySurviving(s.image, ios, fails, s.commands), s.commands + |ios|)
      else
        var k := Completed(fails, s.commands, |ios|);
        State(Apply(s.image, ios[..k]), s.commands + if k < |ios| then k + 1 else k)
  }

  ghost function AnswerOf(s: State, op: Op, fails: nat -> bool): Answer
    requires Wf(s.image)
  {
    match op
    case Format => Code(0)
    case Read(name, room) => ReadAnswer(Files(s.image), name, room)
    case _ =>
      var plan := PlanOf(s.image, op);
      Code(if plan.Some? && Completed(fails, s.commands, |plan.value|) == |plan.value| then 0 else -1)
  }

  // ----- the abstract step -----

  function ReadAnswer(m: FileMap, name: Name, room: nat): Answer {
    if name in m && m[name].Written? && |m[name].bytes| <= room then Bytes(m[name].bytes) else Code(-1)
  }

  ghost predicate SubMap(m': FileMap, m: FileMap) {
    forall name :: name in m' ==> name in m && m'[name] == m[name]
  }

  /** What an overwrite in place can leave when one of its commands fails: a number of
      sectors of the new data, then the old bytes. */
  ghost predicate TornFrom(m: FileMap, name: Name, data: FileData, m': FileMap)
    requires name in m && m[name].Written?
  {
    exists k :: 0 <= k <= Sectors(|data|) && m' == m[name := Written(Torn(m[name].bytes, data, k))]
  }

  /** What an operation does to the files. `clean` says that no write command of the
      operation failed, `fits` that some free run takes the data of a write. */
  ghost predicate Allowed(m: FileMap, op: Op, answer: Answer, m': FileMap, clean: bool, fits: bool) {
    match op
    case Format => answer == Code(0) && SubMap(m', m) && (clean ==> m' == map[])
    case Create(name) =>
      if name in m || |m| == SLOTS || !clean then answer == Code(-1) && m' == m
      else answer == Code(0) && m' == m[name := NeverWritten]
    case Delete(name) =>
      if name !in m || !clean then answer == Code(-1) && m' == m
      else answer == Code(0) && m' == m - {name}
    case Write(name, data) =>
      if name !in m || (NeedsRoom(m[name], data) && (data == [] || !fits)) then answer == Code(-1) && m' == m
      else if clean then answer == Code(0) && m' == m[name := Written(data)]
      else answer == Code(-1) && if NeedsRoom(m[name], data) then m' == m else TornFrom(m, name, data, m')
    case Read(name, room) => answer == ReadAnswer(m, name, room) && m' == m
  }

  /** Some run of free sectors takes the data of a write. */
  ghost predicate SomeRunFits(d: DiskImage, op: Op) {
    op.Write? && exists s :: FreeRun(Table(d), s, Sectors(|op.data|))
  }

  predicate Clean(s: State, s': State, fails: nat -> bool) {
    forall c :: s.commands <= c < s'.commands ==> !fails(c)
  }

  // ----- formatting -----

  lemma FormatIo(i: nat)
    requires i < |FormatPlan()|
    ensures FormatPlan()[i].lba == START_SECTOR + i
    ensures i > 0 ==> FormatPlan()[i].data == BlankSector()
  {
  }

  lemma {:induction false} FormatPrefix(d: DiskImage, fails: nat -> bool, first: nat, k: nat)
    requires k <= |FormatPlan()|
    ensures var d' := ApplySurviving(d, FormatPlan()[..k], fails, first);
      forall x :: 0 <= x < |d| && x != START_SECTOR ==>
        d'[x] == if TABLE_SECTOR <= x < START_SECTOR + k && !fails(first + (x - START_SECTOR)) then BlankSector() else d[x]
  {
    hide FormatPlan, ApplySurviving, BlankSector;
    if k == 0 {
      NothingSurvives(d, FormatPlan(), fails, first);
    } else {
      FormatPrefix(d, fails, first, k - 1);
      FormatIo(k - 1);
      SurvivingLonger(d, FormatPlan(), fails, first, k - 1);
    }
  }

  lemma NothingSurvives(d: DiskImage, ios: seq<Io>, fails: nat -> bool, first: nat)
    ensures ApplySurviving(d, ios[..0], fails, first) == d
  {
  }

  lemma BlankSlots(i: nat)
    requires i < ENTRIES_PER_SECTOR
    ensures EntryAt(BlankSector(), i).used == 0
  {
  }

  /** After formatting, every slot is as before or unused; all are unused when no
      command failed. */
  lemma FormattedTable(d: DiskImage, fails: nat -> bool, first: nat, k: nat)
    requires k < SLOTS
    ensures var d' := ApplySurviving(d, FormatPlan(), fails, first);
      && (Table(d')[k].used == 0 || Table(d')[k] == Table(d)[k])
      && ((forall c :: first <= c < first + |FormatPlan()| ==> !fails(c)) ==> Table(d')[k].used == 0)
  {
    FormatPrefix(d, fails, first, |FormatPlan()|);
    assert FormatPlan()[..|FormatPlan()|] == FormatPlan();
    BlankSlots(k % ENTRIES_PER_SECTOR);
    var x := TABLE_SECTOR + k / ENTRIES_PER_SECTOR;
    assert first <= first + (x - START_SECTOR) < first + |FormatPlan()|;
  }

  lemma FewerSlots(d: DiskImage, d': DiskImage)
    requires Wf(d) && |d'| == |d|
    requires forall k :: 0 <= k < SLOTS ==> Table(d')[k].used == 0 || Table(d')[k] == Table(d)[k]
    requires forall x :: DATA_SECTOR <= x < |d| ==> d'[x] == d[x]
    ensures Wf(d') && SubMap(Files(d'), Files(d))
  {
    hide Table, Files, EntryOk, NameOf;
    var t, t' := Table(d), Table(d');
    forall name | name in Files(d')
      ensures name in Files(d) && Files(d)[name] == Files(d')[name]
    {
      InFilesIffFound(d', name);
      var k := FindSlot(t', name, 0);
      FilesOfSlot(d, k);
      FilesOfSlot(d', k);
      UsedEntryOk(t, k);
      ContentFrame(d, d', t[k]);
    }
  }

  /** Formatting a working disk empties it whatever it held; a well-formed disk stays
      well-formed, and loses files at most, even when writes fail. */
  lemma FormatEmpties(d: DiskImage, fails: nat -> bool, first: nat)
    ensures var d' := ApplySurviving(d, FormatPlan(), fails, first);
      && ((forall c :: first <= c < first + |FormatPlan()| ==> !fails(c)) ==> Wf(d') && Files(d') == map[])
      && (Wf(d) ==> Wf(d') && SubMap(Files(d'), Files(d)))
  {
    hide Table, Files, FormatPlan, ApplySurviving, NameOf;
    var d' := ApplySurviving(d, FormatPlan(), fails, first);
    forall k | 0 <= k < SLOTS
      ensures Table(d')[k].used == 0 || Table(d')[k] == Table(d)[k]
      ensures (forall c :: first <= c < first + |FormatPlan()| ==> !fails(c)) ==> Table(d')[k].used == 0
    {
      FormattedTable(d, fails, first, k);
    }
    FormatKeepsData(d, fails, first);
    if Wf(d) {
      FewerSlots(d, d');
    }
    if forall c :: first <= c < first + |FormatPlan()| ==> !fails(c) {
      NoUsedSlotsNoFiles(d');
    }
  }

  /** The superblock that formatting leaves in sector 128, if its command did not fail: the
      magic number, version 1, a zero and the first data sector, and zeros behind them. */
  lemma {:induction false} FormatSuperblock(d: DiskImage, fails: nat -> bool, first: nat, k: nat)
    requires 0 < k <= |FormatPlan()| && !fails(first)
    ensures ApplySurviving(d, FormatPlan()[..k], fails, first)[128]
         == [0x31, 0x53, 0x46, 0x53, 1, 0, 0, 0, 0, 0, 0, 0, 145, 0, 0, 0] + seq(496, _ => 0 as byte)
    decreases k
  {
    hide FormatPlan, ApplySurviving, BlankSector;
    FormatIo(k - 1);
    SurvivingLonger(d, FormatPlan(), fails, first, k - 1);
    if k > 1 {
      FormatSuperblock(d, fails, first, k - 1);
    } else {
      NothingSurvives(d, FormatPlan(), fails, first);
      FirstIo();
    }
  }

  lemma FirstIo()
    ensures FormatPlan()[0].data
         == [0x31, 0x53, 0x46, 0x53, 1, 0, 0, 0, 0, 0, 0, 0, 145, 0, 0, 0] + seq(496, _ => 0 as byte)
  {
  }

  lemma FormatKeepsData(d: DiskImage, fails: nat -> bool, first: nat)
    ensures var d' := ApplySurviving(d, FormatPlan(), fails, first);
      forall x :: DATA_SECTOR <= x < |d| ==> d'[x] == d[x]
  {
    FormatPrefix(d, fails, first, |FormatPlan()|);
    assert FormatPlan()[..|FormatPlan()|] == FormatPlan();
  }

  lemma NoUsedSlotsNoFiles(d: DiskImage)
    requires forall k :: 0 <= k < SLOTS ==> Table(d)[k].used == 0
    ensures Wf(d) && Files(d) == map[]
  {
    hide Table;
  }

  // ----- one step -----

  lemma {:induction false} CompletedWhenClean(fails: nat -> bool, first: nat, n: nat)
    ensures Completed(fails, first, n) == n <==> forall c :: first <= c < first + n ==> !fails(c)
  {
  }

  /** Every operation on a well-formed disk, whichever commands fail, leaves a
      well-formed disk and does to the files what the abstract step allows. */
  lemma StepRefines(s: State, op: Op, fails: nat -> bool)
    requires Wf(s.image)
    ensures var s' := Next(s, op, fails);
      && Wf(s'.image)
      && Allowed(Files(s.image), op, AnswerOf(s, op, fails), Files(s'.image), Clean(s, s', fails), SomeRunFits(s.image, op))
  {
    hide Wf, Files, FormatPlan, ApplySurviving, Apply, CreatePlan, DeletePlan, WritePlan, NeedsRoom, Torn, FreeRun;
    match op
    case Format =>
      FormatEmpties(s.image, fails, s.commands);
    case Create(name) =>
      CreateStep(s, name, fails);
    case Delete(name) =>
      DeleteStep(s, name, fails);
    case Write(name, data) =>
      WriteStep(s, name, data, fails);
    case Read(name, room) =>
  }

  lemma CreateStep(s: State, name: Name, fails: nat -> bool)
    requires Wf(s.image)
    ensures var op := Create(name);
      var s' := Next(s, op, fails);
      && Wf(s'.image)
      && Allowed(Files(s.image), op, AnswerOf(s, op, fails), Files(s'.image), Clean(s, s', fails), SomeRunFits(s.image, op))
  {
    hide Wf, Files, Apply, Table, FindSlot, FreeSlot;
    CreateFailsIff(s.image, name);
    var plan := CreatePlan(s.image, name);
    if plan.Some? {
      CreateAddsFile(s.image, name);
      OneCommand(s, plan.value, fails);
    }
  }

  lemma DeleteStep(s: State, name: Name, fails: nat -> bool)
    requires Wf(s.image)
    ensures var op := Delete(name);
      var s' := Next(s, op, fails);
      && Wf(s'.image)
      && Allowed(Files(s.image), op, AnswerOf(s, op, fails), Files(s'.image), Clean(s, s', fails), SomeRunFits(s.image, op))
  {
    hide Wf, Files, Apply, Table, FindSlot;
    DeleteFailsIff(s.image, name);
    var plan := DeletePlan(s.image, name);
    if plan.Some? {
      DeleteRemovesFile(s.image, name);
      OneCommand(s, plan.value, fails);
    }
  }

  lemma OneCommand(s: State, ios: seq<Io>, fails: nat -> bool)
    requires |ios| == 1
    ensures var k := Completed(fails, s.commands, 1);
      && k == (if fails(s.commands) then 0 else 1)
      && Apply(s.image, ios[..k]) == if fails(s.commands) then s.image else Apply(s.image, ios)
  {
    assert ios[..1] == ios;
  }

  lemma WriteStep(s: State, name: Name, data: FileData, fails: nat -> bool)
    requires Wf(s.image)
    ensures var op := Write(name, data);
      var s' := Next(s, op, fails);
      && Wf(s'.image)
      && Allowed(Files(s.image), op, AnswerOf(s, op, fails), Files(s'.image), Clean(s, s', fails), SomeRunFits(s.image, op))
  {
    hide Wf, Files, Apply, Table, FindSlot, WritePlan, Torn, FreeRun, FitsInPlace;
    var d := s.image;
    WriteFailsIff(d, name, data);
    var plan := WritePlan(d, name, data);
    if plan.Some? {
      var n := |plan.value|;
      var k := Completed(fails, s.commands, n);
      CompletedWhenClean(fails, s.commands, n);
      WriterSlot(d, name, data);
      TargetFacts(d, name, data);
      if k == n {
        assert plan.value[..n] == plan.value;
        WriteReplacesContent(d, name, data);
      } else if FitsInPlace(EntryFor(d, name), data) {
        InPlaceWriteTears(d, name, data, k);
      } else {
        RelocatingWriteIsAtomic(d, name, data, k);
      }
    }
  }

  // ----- whole runs -----

  /** The states of a run, the first one included. */
  ghost function States(s: State, ops: seq<Op>, fails: nat -> bool): (trace: seq<State>)
    ensures |trace| == |ops| + 1 && trace[0] == s
    decreases |ops|
  {
    if ops == [] then [s] else [s] + States(Next(s, ops[0], fails), ops[1..], fails)
  }

  /** One step of a run, seen on the files. */
  ghost predicate RefinedStep(s: State, op: Op, s': State, fails: nat -> bool) {
    && Wf(s.image) && Wf(s'.image)
    && s' == Next(s, op, fails)
    && Allowed(Files(s.image), op, AnswerOf(s, op, fails), Files(s'.image), Clean(s, s', fails), SomeRunFits(s.image, op))
  }

  /** The refinement theorem: along every run from a well-formed disk, whichever
      commands fail, each operation takes a well-formed disk to a well-formed disk and
      does what the map of files allows. */
  lemma {:induction false} RunRefines(s: State, ops: seq<Op>, fails: nat -> bool, i: nat)
    requires Wf(s.image) && i < |ops|
    ensures RefinedStep(States(s, ops, fails)[i], ops[i], States(s, ops, fails)[i + 1], fails)
    decreases |ops|
  {
    hide Wf, Files, Allowed, Next, AnswerOf, Clean;
    StepRefines(s, ops[0], fails);
    if i > 0 {
      RunRefines(Next(s, ops[0], fails), ops[1..], fails, i - 1);
    }
  }

  /** Whatever the disk held before, a format without failing commands starts such a run
      from no files at all. */
  lemma FormatStartsCleanRun(s: State, ops: seq<Op>, fails: nat -> bool, i: nat)
    requires forall c :: s.commands <= c < s.commands + |FormatPlan()| ==> !fails(c)
    requires i < |ops|
    ensures var s' := Next(s, Format, fails);
      && Wf(s'.image) && Files(s'.image) == map[]
      && RefinedStep(States(s', ops, fails)[i], ops[i], States(s', ops, fails)[i + 1], fails)
  {
    hide Wf, Files, RefinedStep, States, FormatPlan, ApplySurviving;
    FormatEmpties(s.image, fails, s.commands);
    RunRefines(Next(s, Format, fails), ops, fails, i);
  }

  /** `op` does not aim at file `name`. */
  predicate Spares(op: Op, name: Name) {
    match op
    case Format => false
    case Create(n) => n != name
    case Delete(n) => n != name
    case Write(n, _) => n != name
    case Read(_, _) => true
  }

  /** A successful write is what every later read returns, through any operations on
      other files and any failing commands in between. */
  lemma {:induction false} WriteThenRead(s: State, name: Name, data: FileData, ops: seq<Op>, fails: nat -> bool, room: nat)
    requires Wf(s.image) && AnswerOf(s, Write(name, data), fails) == Code(0)
    requires forall i :: 0 <= i < |ops| ==> Spares(ops[i], name)
    requires |data| <= room
    ensures var s' := States(Next(s, Write(name, data), fails), ops, fails)[|ops|];
      Wf(s'.image) && AnswerOf(s', Read(name, room), fails) == Bytes(data)
  {
    hide Wf, Files, Next, Clean, States;
    StepRefines(s, Write(name, data), fails);
    SparedFileStays(Next(s, Write(name, data), fails), name, ops, fails);
  }

  lemma {:induction false} SparedFileStays(s: State, name: Name, ops: seq<Op>, fails: nat -> bool)
    requires Wf(s.image) && name in Files(s.image)
    requires forall i :: 0 <= i < |ops| ==> Spares(ops[i], name)
    ensures var s' := States(s, ops, fails)[|ops|];
      Wf(s'.image) && name in Files(s'.image) && Files(s'.image)[name] == Files(s.image)[name]
    decreases |ops|
  {
    hide Wf, Files, Next, Clean, AnswerOf, Torn, NeedsRoom;
    if ops != [] {
      StepRefines(s, ops[0], fails);
      SparedFileStays(Next(s, ops[0], fails), name, ops[1..], fails);
    }
  }

  // ----- a run that tears a file -----

  /** A disk on which no file has been written has room for any file. */
  lemma UnwrittenDiskHasRoom(d: DiskImage, n: nat)
    requires Wf(d) && n <= DATA_SECTORS
    requires forall name :: name in Files(d) ==> Files(d)[name].NeverWritten?
    ensures FreeRun(Table(d), DATA_SECTOR, n)
  {
    hide Table, Files, NameOf;
    forall k, x | 0 <= k < SLOTS
      ensures !InExtent(Table(d)[k], x)
    {
      if Table(d)[k].used != 0 {
        FilesOfSlot(d, k);
        UsedEntryOk(Table(d), k);
      }
    }
  }

  lemma CleanStep(s: State, op: Op, fails: nat -> bool)
    requires !op.Format? && PlanOf(s.image, op).Some?
    requires forall c :: s.commands <= c < s.commands + |PlanOf(s.image, op).value| ==> !fails(c)
    ensures var s' := Next(s, op, fails);
      s'.commands == s.commands + |PlanOf(s.image, op).value| && Clean(s, s', fails)
  {
    hide CreatePlan, DeletePlan, WritePlan;
    CompletedWhenClean(fails, s.commands, |PlanOf(s.image, op).value|);
  }

  /** The concrete failing run: format any disk, create a file, write 600 bytes to it,
      and overwrite them with 600 others of which the second sector's write fails. The
      overwrite answers -1, and the file reads as neither the old nor the new bytes but
      512 new ones and 88 old ones. */
  lemma TornRun(s: State, name: Name, was: FileData, data: FileData, fails: nat -> bool)
    requires |was| == |data| == 600
    requires forall c :: fails(c) <==> c == s.commands + 22
    ensures var trace := States(s, [Format, Create(name), Write(name, was), Write(name, data)], fails);
      && Wf(trace[3].image) && Wf(trace[4].image)
      && Files(trace[3].image) == map[name := Written(was)]
      && AnswerOf(trace[3], Write(name, data), fails) == Code(-1)
      && Files(trace[4].image) == map[name := Written(data[..512] + was[512..])]
  {
    hide Wf, Files, Table, Next, AnswerOf, States;
    var s1 := Formatted(s, fails);
    var s2 := Next(s1, Create(name), fails);
    FirstWrite(s1, name, was, fails);
    var s3 := Next(s2, Write(name, was), fails);
    SecondWriteTears(s3, name, was, data, fails);
    var ops := [Format, Create(name), Write(name, was), Write(name, data)];
    NextState(s, ops, fails, 0);
    NextState(s, ops, fails, 1);
    NextState(s, ops, fails, 2);
    NextState(s, ops, fails, 3);
  }

  lemma Formatted(s: State, fails: nat -> bool) returns (s': State)
    requires forall c :: s.commands <= c < s.commands + 17 ==> !fails(c)
    ensures s' == Next(s, Format, fails) && s'.commands == s.commands + 17
    ensures Wf(s'.image) && Files(s'.image) == map[]
  {
    hide Wf, Files, Table, ApplySurviving;
    FormatEmpties(s.image, fails, s.commands);
    s' := Next(s, Format, fails);
  }

  lemma FirstWrite(s: State, name: Name, was: FileData, fails: nat -> bool)
    requires Wf(s.image) && Files(s.image) == map[] && |was| == 600
    requires forall c :: s.commands <= c < s.commands + 4 ==> !fails(c)
    ensures var s' := Next(Next(s, Create(name), fails), Write(name, was), fails);
      && Wf(s'.image) && Files(s'.image) == map[name := Written(was)]
      && s'.commands == s.commands + 4
  {
    hide Wf, Files, Table, Apply, FormatPlan, CreatePlan, WritePlan, Completed, TornFrom, FreeRun;
    CreateFailsIff(s.image, name);
    OneCreateCommand(s.image, name);
    CleanStep(s, Create(name), fails);
    StepRefines(s, Create(name), fails);
    var s2 := Next(s, Create(name), fails);
    UnwrittenDiskHasRoom(s2.image, Sectors(|was|));
    WriteFailsIff(s2.image, name, was);
    WriterSlot(s2.image, name, was);
    CleanStep(s2, Write(name, was), fails);
    StepRefines(s2, Write(name, was), fails);
  }

  lemma OneCreateCommand(d: DiskImage, name: Name)
    ensures CreatePlan(d, name).Some? ==> |CreatePlan(d, name).value| == 1
  {
    hide Table, FindSlot, FreeSlot;
  }

  lemma SecondWriteTears(s: State, name: Name, was: FileData, data: FileData, fails: nat -> bool)
    requires Wf(s.image) && Files(s.image) == map[name := Written(was)] && |was| == |data| == 600
    requires !fails(s.commands) && fails(s.commands + 1)
    ensures var s' := Next(s, Write(name, data), fails);
      && Wf(s'.image) && Files(s'.image) == map[name := Written(data[..512] + was[512..])]
    ensures AnswerOf(s, Write(name, data), fails) == Code(-1)
  {
    hide Wf, Files, Table, Apply, WritePlan, Completed, FreeRun, Torn;
    var d := s.image;
    WriteFailsIff(d, name, data);
    WriterSlot(d, name, data);
    TargetFacts(d, name, data);
    CompletedIs(fails, s.commands, 3, 1);
    InPlaceWriteTears(d, name, data, 1);
    assert Torn(was, data, 1) == data[..512] + was[512..] by {
      TornFirstSector(was, data);
    }
    assert map[name := Written(was)][name := Written(Torn(was, data, 1))] == map[name := Written(Torn(was, data, 1))];
  }

  lemma TornFirstSector(was: seq<byte>, data: seq<byte>)
    requires |was| >= 512 && |data| >= 512
    ensures Torn(was, data, 1) == data[..512] + was[512..]
  {
  }

  lemma {:induction false} NextState(s: State, ops: seq<Op>, fails: nat -> bool, i: nat)
    requires i < |ops|
    ensures States(s, ops, fails)[i + 1] == Next(States(s, ops, fails)[i], ops[i], fails)
    decreases i
  {
    hide Next;
    if i > 0 {
      NextState(Next(s, ops[0], fails), ops[1..], fails, i - 1);
    }
  }

  // ----- the kernel's operations take exactly these steps -----

  method PerformWrite(fs: FileSystem, name: Name, data: FileData) returns (answer: Answer)
    requires fs.Valid()
    modifies fs, fs.disk
    ensures State(fs.disk.sectors, fs.disk.commands)
         == Next(old(State(fs.disk.sectors, fs.disk.commands)), Write(name, data), fs.disk.fails)
    ensures answer == old(AnswerOf(State(fs.disk.sectors, fs.disk.commands), Write(name, data), fs.disk.fails))
  {
    hide Wf, Files, Apply, WritePlan, Completed;
    var buffer := new byte[|data|](i requires 0 <= i < |data| => data[i]);
    assert buffer[..] == data;
    var rc := fs.Write(name, buffer);
    answer := Code(rc);
  }

  method PerformRead(fs: FileSystem, name: Name, room: nat) returns (answer: Answer)
    requires fs.Valid()
    modifies fs
    ensures answer == ReadAnswer(Files(fs.disk.sectors), name, room)
  {
    hide Wf, Files;
    var buffer := new byte[room](_ => 0);
    var r := fs.Read(name, buffer, room);
    assert r != -1 ==> buffer[..r] == Files(fs.disk.sectors)[name].bytes;
    answer := if r == -1 then Code(-1) else Bytes(buffer[..r]);
  }

  method Perform(fs: FileSystem, op: Op) returns (answer: Answer)
    requires fs.Valid()
    modifies fs, fs.disk
    ensures State(fs.disk.sectors, fs.disk.commands)
         == Next(old(State(fs.disk.sectors, fs.disk.commands)), op, fs.disk.fails)
    ensures answer == old(AnswerOf(State(fs.disk.sectors, fs.disk.commands), op, fs.disk.fails))
    ensures fs.Valid()
  {
    hide Wf, Files, FormatPlan, ApplySurviving, Apply, WritePlan, Table, FindSlot, FreeSlot, Completed, Allowed, ReadAnswer;
    StepRefines(State(fs.disk.sectors, fs.disk.commands), op, fs.disk.fails);
    match op
    case Format =>
      fs.Format();
      answer := Code(0);
    case Create(name) =>
      var rc := fs.Create(name);
      answer := Code(rc);
    case Delete(name) =>
      var rc := fs.Delete(name);
      answer := Code(rc);
    case Write(name, data) =>
      answer := PerformWrite(fs, name, data);
    case Read(name, room) =>
      answer := PerformRead(fs, name, room);
  }
}
