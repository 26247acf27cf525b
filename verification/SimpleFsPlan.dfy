/** The sector writes that each SimpleFS operation issues, in order, and what
    every prefix of them does to the files on the disk. */
module SimpleFsPlan {
  import opened Bytes
  import opened Wrappers
  import opened LibkString
  import opened SimpleFsTable

  /** One sector write command. */
  datatype Io = Io(lba: nat, data: Sector)

  function ApplyOne(d: DiskImage, io: Io): (d': DiskImage)
    ensures |d'| == |d|
  {
    if io.lba < |d| then d[io.lba := io.data] else d
  }

  /** The disk after a sequence of writes that all reached it. */
  function Apply(d: DiskImage, ios: seq<Io>): (d': DiskImage)
    ensures |d'| == |d|
  {
    if ios == [] then d else ApplyOne(Apply(d, ios[..|ios| - 1]), ios[|ios| - 1])
  }

  lemma ApplyLonger(d: DiskImage, ios: seq<Io>, k: nat)
    requires k < |ios|
    ensures Apply(d, ios[..k + 1]) == ApplyOne(Apply(d, ios[..k]), ios[k])
  {
    assert ios[..k + 1][..k] == ios[..k];
  }

  lemma ApplySingle(d: DiskImage, io: Io)
    ensures Apply(d, [io]) == ApplyOne(d, io)
  {
    assert [io][..0] == [];
  }

  // ----- a disk whose commands may fail -----

  /** How many of the next `n` write commands complete before one fails, when command
      number `first` comes next. */
  function Completed(fails: nat -> bool, first: nat, n: nat): (k: nat)
    ensures k <= n
    ensures forall i :: first <= i < first + k ==> !fails(i)
    ensures k < n ==> fails(first + k)
    decreases n
  {
    if n == 0 || fails(first) then 0 else 1 + Completed(fails, first + 1, n - 1)
  }

  lemma {:induction false} CompletedIs(fails: nat -> bool, first: nat, n: nat, k: nat)
    requires k <= n
    requires forall i :: first <= i < first + k ==> !fails(i)
    requires k < n ==> fails(first + k)
    ensures Completed(fails, first, n) == k
    decreases n
  {
    if k > 0 {
      CompletedIs(fails, first + 1, n - 1, k - 1);
    }
  }

  lemma {:induction false} CompletedOneMore(fails: nat -> bool, first: nat, n: nat)
    ensures Completed(fails, first, n + 1) ==
      if Completed(fails, first, n) < n then Completed(fails, first, n)
      else if fails(first + n) then n else n + 1
    decreases n
  {
    if n > 0 && !fails(first) {
      CompletedOneMore(fails, first + 1, n - 1);
    }
  }

  lemma ApplyNone(d: DiskImage, ios: seq<Io>)
    ensures Apply(d, ios[..0]) == d
  {
  }

  /** A plan of one write either completes or leaves the disk as it was. */
  lemma CarryOne(d: DiskImage, io: Io, fails: nat -> bool, first: nat)
    ensures var k := Completed(fails, first, 1);
            && k == (if fails(first) then 0 else 1)
            && Apply(d, [io][..k]) == if fails(first) then d else ApplyOne(d, io)
  {
    ApplySingle(d, io);
    assert [io][..1] == [io];
  }

  /** The disk after each of `ios` was tried, those that failed being skipped. */
  ghost function ApplySurviving(d: DiskImage, ios: seq<Io>, fails: nat -> bool, first: nat): (d': DiskImage)
    ensures |d'| == |d|
    ensures ios == [] ==> d' == d
  {
    if ios == [] then d
    else
      var shorter := ApplySurviving(d, ios[..|ios| - 1], fails, first);
      if fails(first + |ios| - 1) then shorter else ApplyOne(shorter, ios[|ios| - 1])
  }

  lemma SurvivingLonger(d: DiskImage, ios: seq<Io>, fails: nat -> bool, first: nat, k: nat)
    requires k < |ios|
    ensures var shorter := ApplySurviving(d, ios[..k], fails, first);
            ApplySurviving(d, ios[..k + 1], fails, first)
            == if fails(first + k) then shorter else ApplyOne(shorter, ios[k])
  {
    assert ios[..k + 1][..k] == ios[..k];
  }

  // ----- plans -----

  function FreshEntry(name: Name): Entry {
    Entry(name + Zeros(MAX_NAME - |name|), 0, 0, 1, Zeros(RESERVED))
  }

  function BlankEntry(): Entry {
    Entry(Zeros(MAX_NAME), 0, 0, 0, Zeros(RESERVED))
  }

  function SlotIo(d: DiskImage, k: nat, e: Entry): Io
    requires k < SLOTS
  {
    Io(TABLE_SECTOR + k / ENTRIES_PER_SECTOR, SlotSector(d, k, e))
  }

  /** The writes of simplefs_create, or None when it gives up before writing. */
  function CreatePlan(d: DiskImage, name: Name): Option<seq<Io>> {
    var t := Table(d);
    if FindSlot(t, name, 0) < SLOTS || FreeSlot(t, 0) == SLOTS then None
    else Some([SlotIo(d, FreeSlot(t, 0), FreshEntry(name))])
  }

  function DeletePlan(d: DiskImage, name: Name): Option<seq<Io>> {
    var k := FindSlot(Table(d), name, 0);
    if k == SLOTS then None else Some([SlotIo(d, k, BlankEntry())])
  }

  /** The i-th 512-byte piece of `data`, padded with zeros. */
  function Chunk(data: seq<byte>, i: nat): Sector {
    seq(SECTOR_SIZE, j requires 0 <= j < SECTOR_SIZE =>
      if 512 * i + j < |data| then data[512 * i + j] else 0)
  }

  function DataIos(start: nat, data: seq<byte>): (ios: seq<Io>)
    ensures |ios| == Sectors(|data|)
  {
    seq(Sectors(|data|), i requires 0 <= i < Sectors(|data|) => Io(start + i, Chunk(data, i)))
  }

  /** Data that simplefs_write is specified for: larger sizes wrap its sector count. */
  type FileData = s: seq<byte> | |s| <= WORD - SECTOR_SIZE witness []

  /** The file already has a place that is large enough. */
  predicate FitsInPlace(e: Entry, data: FileData) {
    e.start != 0 && Sectors(|data|) <= Sectors(e.size)
  }

  /** Where simplefs_write puts the data; 0 when there is no place. */
  ghost function TargetStart(t: seq<Entry>, e: Entry, data: FileData): nat {
    if FitsInPlace(e, data) then e.start else Allocation(t, Sectors(|data|))
  }

  function Rewritten(e: Entry, start: nat, data: FileData): Entry
    requires start < WORD
  {
    e.(start := start, size := |data|)
  }

  ghost function WritePlan(d: DiskImage, name: Name, data: FileData): Option<seq<Io>> {
    var t := Table(d);
    var k := FindSlot(t, name, 0);
    if k == SLOTS then None
    else
      var start := TargetStart(t, t[k], data);
      if start == 0 then None
      else Some(DataIos(start, data) + [SlotIo(d, k, Rewritten(t[k], start, data))])
  }

  function Superblock(): Sector {
    Le32(0x53465331) + Le32(1) + Le32(0) + Le32(DATA_SECTOR) + Zeros(SECTOR_SIZE - 16)
  }

  function FormatPlan(): (ios: seq<Io>) {
    [Io(START_SECTOR, Superblock())] + seq(TABLE_SECTORS, i requires 0 <= i => Io(TABLE_SECTOR + i, BlankSector()))
  }

  // ----- creating and deleting -----

  lemma FreshEntryName(name: Name)
    ensures NameOf(FreshEntry(name)) == name && EntryOk(FreshEntry(name))
  {
    CStrOf(name, Zeros(MAX_NAME - |name|));
    assert FreshEntry(name).name[|name|] == 0;
  }

  /** A table in which one slot gets an entry that reserves nothing new. */
  lemma TableOkAfterSlotWrite(t: seq<Entry>, k: nat, e: Entry)
    requires TableOk(t) && k < |t|
    requires e.used != 0 ==> EntryOk(e)
    requires e.used != 0 ==> forall j :: 0 <= j < |t| && j != k ==> !HasName(t[j], NameOf(e))
    requires forall j, x :: 0 <= j < |t| && j != k ==> !(InExtent(t[j], x) && InExtent(e, x))
    ensures TableOk(t[k := e])
  {
  }

  /** No file has its contents in a table sector. */
  lemma TableWriteKeepsExtents(d: DiskImage, io: Io)
    requires Wf(d) && io.lba < DATA_SECTOR
    ensures forall j :: 0 <= j < SLOTS ==> SameExtent(d, ApplyOne(d, io), Table(d)[j])
  {
    forall j | 0 <= j < SLOTS
      ensures SameExtent(d, ApplyOne(d, io), Table(d)[j])
    {
      UsedEntryOk(Table(d), j);
    }
  }

  lemma CreateAddsFile(d: DiskImage, name: Name)
    requires Wf(d) && CreatePlan(d, name).Some?
    ensures var d' := Apply(d, CreatePlan(d, name).value);
            Wf(d') && Files(d') == Files(d)[name := NeverWritten]
  {
    hide TableOk, Files, Table, WithEntry, CStr;
    var t, k, e := Table(d), FreeSlot(Table(d), 0), FreshEntry(name);
    var d' := Apply(d, CreatePlan(d, name).value);
    ApplySingle(d, SlotIo(d, k, e));
    FreshEntryName(name);
    TableAfterSlotWrite(d, k, e);
    TableOkAfterSlotWrite(t, k, e);
    TableWriteKeepsExtents(d, SlotIo(d, k, e));
    FilesAfterSlotWrite(d, d', k, e);
  }

  lemma DeleteRemovesFile(d: DiskImage, name: Name)
    requires Wf(d) && DeletePlan(d, name).Some?
    ensures var d' := Apply(d, DeletePlan(d, name).value);
            Wf(d') && Files(d') == Files(d) - {name}
  {
    hide TableOk, Files, Table, WithEntry, CStr;
    var t, k, e := Table(d), FindSlot(Table(d), name, 0), BlankEntry();
    var d' := Apply(d, DeletePlan(d, name).value);
    ApplySingle(d, SlotIo(d, k, e));
    TableAfterSlotWrite(d, k, e);
    TableOkAfterSlotWrite(t, k, e);
    TableWriteKeepsExtents(d, SlotIo(d, k, e));
    FilesAfterSlotWrite(d, d', k, e);
  }

  /** Where a name is found after slot `k` changed from one entry to another. */
  lemma FindAfterSlotWrite(t: seq<Entry>, k: nat, e: Entry, name: seq<byte>)
    requires k < |t| && NamesUnique(t) && NamesUnique(t[k := e])
    ensures FindSlot(t[k := e], name, 0) ==
      if HasName(e, name) then k
      else if FindSlot(t, name, 0) == k then |t|
      else FindSlot(t, name, 0)
  {
    var t' := t[k := e];
    var j := FindSlot(t, name, 0);
    if HasName(e, name) {
      FindSlotOfUsed(t', k);
    } else if j < |t| && j != k {
      assert HasName(t'[j], name);
      FindSlotOfUsed(t', j);
    }
  }

  /** The files after slot `k` changed from one entry to another, all other extents
      being untouched. */
  lemma FilesAfterSlotWrite(d: DiskImage, d': DiskImage, k: nat, e: Entry)
    requires Wf(d) && Wf(d') && |d'| == |d| && k < SLOTS
    requires e.used != 0 ==> EntryOk(e)
    requires Table(d') == Table(d)[k := e]
    requires OthersKept(d, d', k)
    ensures e.used == 0 ==> Files(d') == Files(d) - OwnName(Table(d)[k])
    ensures e.used != 0 ==> Files(d') == (Files(d) - OwnName(Table(d)[k]))[NameOf(e) := ContentOf(d', e)]
  {
    hide TableOk, Files, Table;
    var files, files' := Files(d), Files(d');
    var others := files - OwnName(Table(d)[k]);
    forall name
      ensures name in files' <==> HasName(e, name) || name in others
      ensures HasName(e, name) ==> files'[name] == ContentOf(d', e)
      ensures name in files' && !HasName(e, name) ==> files'[name] == others[name]
    {
      LookupAfterSlotWrite(d, d', k, e, name);
    }
    if e.used == 0 {
      assert files' == others;
    } else {
      assert files' == others[NameOf(e) := ContentOf(d', e)];
    }
  }

  ghost function OwnName(e: Entry): set<seq<byte>> {
    if e.used != 0 then {NameOf(e)} else {}
  }

  lemma LookupAfterSlotWrite(d: DiskImage, d': DiskImage, k: nat, e: Entry, name: seq<byte>)
    requires Wf(d) && Wf(d') && |d'| == |d| && k < SLOTS
    requires e.used != 0 ==> EntryOk(e)
    requires Table(d') == Table(d)[k := e]
    requires OthersKept(d, d', k)
    ensures name in Files(d') <==> HasName(e, name) || (name in Files(d) && !HasName(Table(d)[k], name))
    ensures HasName(e, name) ==> Files(d')[name] == ContentOf(d', e)
    ensures name in Files(d') && !HasName(e, name) ==> Files(d')[name] == Files(d)[name]
  {
    var t := Table(d);
    var j := FindSlot(t, name, 0);
    FindAfterSlotWrite(t, k, e, name);
    NamesIffFound(t, name);
    NamesIffFound(Table(d'), name);
    if HasName(t[k], name) {
      FindSlotOfUsed(t, k);
    }
    if j < SLOTS && j != k {
      UsedEntryOk(t, j);
      ContentFrame(d, d', t[j]);
    }
  }

  // ----- writing -----

  lemma WriterSlot(d: DiskImage, name: Name, data: FileData)
    requires WritePlan(d, name, data).Some?
    ensures SlotFor(d, name) < SLOTS && HasName(EntryFor(d, name), name)
    ensures |WritePlan(d, name, data).value| == Sectors(|data|) + 1
  {
  }

  /** A write needs room when the file has none yet or not enough of it. */
  predicate NeedsRoom(c: Content, data: seq<byte>) {
    c.NeverWritten? || Sectors(|data|) > Sectors(|c.bytes|)
  }

  lemma FitsUnlessNeedsRoom(d: DiskImage, e: Entry, data: FileData)
    requires EntryOk(e)
    ensures FitsInPlace(e, data) <==> !NeedsRoom(ContentOf(d, e), data)
    ensures FitsInPlace(e, data) ==> e.start != 0
  {
  }

  lemma NamedEntryOk(d: DiskImage, name: Name)
    requires Wf(d) && SlotFor(d, name) < SLOTS
    ensures EntryOk(EntryFor(d, name))
    ensures name in Files(d) && Files(d)[name] == ContentOf(d, EntryFor(d, name))
  {
    UsedEntryOk(Table(d), SlotFor(d, name));
    FilesOfSlot(d, SlotFor(d, name));
  }

  lemma TargetFacts(d: DiskImage, name: Name, data: FileData)
    requires Wf(d) && WritePlan(d, name, data).Some?
    ensures name in Files(d)
    ensures FitsInPlace(EntryFor(d, name), data) <==> !NeedsRoom(Files(d)[name], data)
  {
    hide Wf, Files, Table, ContentOf, NeedsRoom, EntryOk;
    NamedEntryOk(d, name);
    FitsUnlessNeedsRoom(d, EntryFor(d, name), data);
  }

  /** What the first `k` data writes do, sector by sector. */
  lemma {:induction false} DataIosEffect(d: DiskImage, start: nat, data: seq<byte>, k: nat)
    requires k <= Sectors(|data|) && start + Sectors(|data|) <= |d|
    ensures forall x :: 0 <= x < |d| ==>
      Apply(d, DataIos(start, data)[..k])[x] == if start <= x < start + k then Chunk(data, x - start) else d[x]
  {
    if k > 0 {
      DataIosEffect(d, start, data, k - 1);
      ApplyLonger(d, DataIos(start, data), k - 1);
    }
  }

  lemma PlanPrefix(d: DiskImage, name: Name, data: FileData, k: nat)
    requires WritePlan(d, name, data).Some? && k <= Sectors(|data|)
    ensures SlotFor(d, name) < SLOTS
    ensures AfterWrites(d, name, data, k)
         == Apply(d, DataIos(TargetStart(Table(d), EntryFor(d, name), data), data)[..k])
  {
    var ios := DataIos(TargetStart(Table(d), EntryFor(d, name), data), data);
    assert WritePlan(d, name, data).value[..k] == ios[..k];
  }

  /** The bytes read back from the chunks of `data`. */
  lemma ChunksReadBack(d: DiskImage, start: nat, data: seq<byte>)
    requires start + Sectors(|data|) <= |d|
    requires forall x :: start <= x < start + Sectors(|data|) ==> d[x] == Chunk(data, x - start)
    ensures BytesAt(d, start, |data|) == data
  {
    forall i | 0 <= i < |data|
      ensures d[start + i / 512][i % 512] == data[i]
    {
      assert start <= start + i / 512 < start + Sectors(|data|);
      assert 512 * (i / 512) + i % 512 == i;
    }
  }

  /** The place chosen for the data lies in the data area and touches no other file;
      a relocating write also leaves the file's own old extent alone. */
  lemma TargetIsFree(t: seq<Entry>, k: nat, data: FileData, j: nat, x: int)
    requires TableOk(t) && k < |t| && j < |t| && t[k].used != 0
    requires TargetStart(t, t[k], data) != 0
    ensures var start := TargetStart(t, t[k], data);
            && DATA_SECTOR <= start && start + Sectors(|data|) <= DATA_END
            && (InExtent(t[j], x) && (j != k || !FitsInPlace(t[k], data))
                ==> !(start <= x < start + Sectors(|data|)))
  {
    var start, n := TargetStart(t, t[k], data), Sectors(|data|);
    assert EntryOk(t[k]);
    if FitsInPlace(t[k], data) {
      if InExtent(t[j], x) && start <= x < start + n {
        assert InExtent(t[k], x);
      }
    } else {
      assert FreeRun(t, start, n);
      if InExtent(t[j], x) && start <= x < start + n {
        assert Occupied(t, x);
      }
    }
  }

  ghost function SlotFor(d: DiskImage, name: Name): nat {
    FindSlot(Table(d), name, 0)
  }

  ghost function EntryFor(d: DiskImage, name: Name): Entry
    requires SlotFor(d, name) < SLOTS
  {
    Table(d)[SlotFor(d, name)]
  }

  /** The disk after the first `k` writes of a write plan. */
  ghost function AfterWrites(d: DiskImage, name: Name, data: FileData, k: nat): (d': DiskImage)
    requires WritePlan(d, name, data).Some? && k <= |WritePlan(d, name, data).value|
    ensures |d'| == |d|
  {
    Apply(d, WritePlan(d, name, data).value[..k])
  }

  lemma DataIosKeepTable(d: DiskImage, start: nat, data: seq<byte>, k: nat)
    requires k <= Sectors(|data|) && DATA_SECTOR <= start && start + Sectors(|data|) <= DATA_END
    ensures Table(Apply(d, DataIos(start, data)[..k])) == Table(d)
  {
    DataIosEffect(d, start, data, k);
    TableDependsOnTableSectors(d, Apply(d, DataIos(start, data)[..k]));
  }

  /** Before the table write, only sectors of the chosen place have changed. */
  lemma DataPhase(d: DiskImage, name: Name, data: FileData, k: nat)
    requires Wf(d) && WritePlan(d, name, data).Some? && k <= Sectors(|data|)
    ensures var start := TargetStart(Table(d), EntryFor(d, name), data);
            var d' := AfterWrites(d, name, data, k);
            && DATA_SECTOR <= start && start + Sectors(|data|) <= DATA_END
            && Table(d') == Table(d)
            && Wf(d')
            && forall x :: 0 <= x < |d| ==>
                 d'[x] == if start <= x < start + k then Chunk(data, x - start) else d[x]
  {
    hide TableOk, Table, Chunk, Apply, DataIos, FitsInPlace, Allocation;
    var slot := SlotFor(d, name);
    var start := TargetStart(Table(d), Table(d)[slot], data);
    TargetIsFree(Table(d), slot, data, slot, 0);
    PlanPrefix(d, name, data, k);
    DataIosEffect(d, start, data, k);
    DataIosKeepTable(d, start, data, k);
  }

  /** After any prefix of the data writes, every other file keeps its bytes; so does
      the target when the write relocates it. */
  lemma DataPhaseKeepsOthers(d: DiskImage, name: Name, data: FileData, k: nat, j: nat)
    requires Wf(d) && WritePlan(d, name, data).Some? && k <= Sectors(|data|) && j < SLOTS
    requires j != SlotFor(d, name) || !FitsInPlace(EntryFor(d, name), data)
    ensures SameExtent(d, AfterWrites(d, name, data, k), Table(d)[j])
  {
    hide TableOk, Files, Table;
    var start, d' := TargetStart(Table(d), EntryFor(d, name), data), AfterWrites(d, name, data, k);
    DataPhase(d, name, data, k);
    forall x | 0 <= x < |d| && InExtent(Table(d)[j], x)
      ensures d'[x] == d[x]
    {
      TargetIsFree(Table(d), SlotFor(d, name), data, j, x);
    }
  }

  /** No entry but that of `slot` reserves any of the `n` sectors from `start` on. */
  ghost predicate ClearOfOthers(t: seq<Entry>, slot: nat, start: nat, n: nat) {
    forall j, x :: 0 <= j < |t| && j != slot && InExtent(t[j], x) ==> !(start <= x < start + n)
  }

  lemma DataPhaseIsClear(d: DiskImage, name: Name, data: FileData, k: nat)
    requires Wf(d) && WritePlan(d, name, data).Some? && k <= Sectors(|data|)
    ensures ClearOfOthers(Table(d), SlotFor(d, name), TargetStart(Table(d), EntryFor(d, name), data), Sectors(|data|))
    ensures OthersKept(d, AfterWrites(d, name, data, k), SlotFor(d, name))
  {
    hide TableOk, Table;
    var t, slot, n := Table(d), SlotFor(d, name), Sectors(|data|);
    var start, mid := TargetStart(t, t[slot], data), AfterWrites(d, name, data, k);
    forall j, x | 0 <= j < SLOTS && j != slot && InExtent(t[j], x)
      ensures !(start <= x < start + n)
    {
      TargetIsFree(t, slot, data, j, x);
    }
    forall j | 0 <= j < SLOTS && j != slot
      ensures SameExtent(d, mid, t[j])
    {
      DataPhaseKeepsOthers(d, name, data, k, j);
    }
  }

  lemma SameTableSameFiles(d: DiskImage, d': DiskImage)
    requires Wf(d) && |d'| == |d| && Table(d') == Table(d)
    requires forall j :: 0 <= j < SLOTS ==> SameExtent(d, d', Table(d)[j])
    ensures Files(d') == Files(d)
  {
    forall name | name in Names(Table(d))
      ensures Files(d')[name] == Files(d)[name]
    {
      NamesIffFound(Table(d), name);
      ContentFrame(d, d', Table(d)[FindSlot(Table(d), name, 0)]);
    }
  }

  /** Crash atomicity: for a first or growing write, every proper prefix of the
      sector writes leaves every file, the target included, reading as before. */
  lemma RelocatingWriteIsAtomic(d: DiskImage, name: Name, data: FileData, k: nat)
    requires Wf(d) && WritePlan(d, name, data).Some?
    requires !FitsInPlace(EntryFor(d, name), data)
    requires k < |WritePlan(d, name, data).value|
    ensures Wf(AfterWrites(d, name, data, k))
    ensures Files(AfterWrites(d, name, data, k)) == Files(d)
  {
    hide TableOk, Files, Table;
    DataPhase(d, name, data, k);
    forall j | 0 <= j < SLOTS
      ensures SameExtent(d, AfterWrites(d, name, data, k), Table(d)[j])
    {
      DataPhaseKeepsOthers(d, name, data, k, j);
    }
    SameTableSameFiles(d, AfterWrites(d, name, data, k));
  }

  /** Contents `was` of which the first `k` sectors have been overwritten. */
  function Torn(was: seq<byte>, data: seq<byte>, k: nat): seq<byte> {
    seq(|was|, i requires 0 <= i < |was| =>
      if i < 512 * k then (if i < |data| then data[i] else 0) else was[i])
  }

  lemma TornBytes(d: DiskImage, d': DiskImage, start: nat, size: nat, data: seq<byte>, k: nat)
    requires start + Sectors(size) <= |d| == |d'| && k <= Sectors(|data|) <= Sectors(size)
    requires forall x :: start <= x < start + Sectors(size) ==>
      d'[x] == if x < start + k then Chunk(data, x - start) else d[x]
    ensures BytesAt(d', start, size) == Torn(BytesAt(d, start, size), data, k)
  {
    forall i | 0 <= i < size
      ensures BytesAt(d', start, size)[i] == Torn(BytesAt(d, start, size), data, k)[i]
    {
      var x := start + i / 512;
      assert x < start + Sectors(size);
      assert d'[x] == if x < start + k then Chunk(data, x - start) else d[x];
      assert 512 * (i / 512) + i % 512 == i;
    }
  }

  /** An overwrite in place, interrupted after `k` sectors, leaves the target torn and
      every other file reading as before. */
  lemma InPlaceWriteTears(d: DiskImage, name: Name, data: FileData, k: nat)
    requires Wf(d) && WritePlan(d, name, data).Some?
    requires FitsInPlace(EntryFor(d, name), data)
    requires k < |WritePlan(d, name, data).value|
    ensures Wf(AfterWrites(d, name, data, k))
    ensures name in Files(d) && Files(d)[name].Written?
    ensures Files(AfterWrites(d, name, data, k))
         == Files(d)[name := Written(Torn(Files(d)[name].bytes, data, k))]
  {
    hide TableOk, Files, Table, Chunk, Apply, Allocation, WritePlan, AfterWrites, FindSlot,
      OthersKept, ClearOfOthers, BytesAt, Torn;
    WriterSlot(d, name, data);
    var t, slot := Table(d), SlotFor(d, name);
    var e := EntryFor(d, name);
    var d' := AfterWrites(d, name, data, k);
    DataPhase(d, name, data, k);
    FilesOfSlot(d, slot);
    DataPhaseIsClear(d, name, data, k);
    UsedEntryOk(t, slot);
    assert t == t[slot := e];
    FilesAfterSlotWrite(d, d', slot, e);
    TornBytes(d, d', e.start, e.size, data, k);
  }

  /** The data writes would change none of the bytes `was`: as far as its own end and the
      end of the last sector written, `was` is the data followed by zeros. */
  predicate Overlays(data: seq<byte>, was: seq<byte>) {
    forall i :: 0 <= i < |was| && i < 512 * Sectors(|data|) ==> was[i] == if i < |data| then data[i] else 0
  }

  lemma TornUnchangedIff(was: seq<byte>, data: seq<byte>, k: nat)
    requires k <= Sectors(|data|)
    ensures Overlays(data, was) ==> Torn(was, data, k) == was
    ensures Torn(was, data, Sectors(|data|)) == was ==> Overlays(data, was)
  {
    var n := Sectors(|data|);
    if Torn(was, data, n) == was {
      forall i | 0 <= i < |was| && i < 512 * n
        ensures was[i] == if i < |data| then data[i] else 0
      {
        assert Torn(was, data, n)[i] == was[i];
      }
    }
  }

  /** A write is crash-atomic exactly when the file needs new room, or the data writes
      change none of its bytes. */
  lemma WriteIsAtomicIff(d: DiskImage, name: Name, data: FileData)
    requires Wf(d) && WritePlan(d, name, data).Some?
    requires name in Files(d)
    ensures (forall k :: 0 <= k < |WritePlan(d, name, data).value| ==>
              Wf(AfterWrites(d, name, data, k)) && Files(AfterWrites(d, name, data, k)) == Files(d))
      <==> NeedsRoom(Files(d)[name], data) || Overlays(data, Files(d)[name].bytes)
  {
    hide Wf, Files, AfterWrites, FitsInPlace, Torn, WritePlan, FindSlot, Table, Overlays, NeedsRoom;
    WriterSlot(d, name, data);
    TargetFacts(d, name, data);
    var n := Sectors(|data|);
    if NeedsRoom(Files(d)[name], data) {
      forall k | 0 <= k <= n
        ensures Wf(AfterWrites(d, name, data, k)) && Files(AfterWrites(d, name, data, k)) == Files(d)
      {
        RelocatingWriteIsAtomic(d, name, data, k);
      }
    } else {
      InPlaceWriteTears(d, name, data, n);
      var c := Files(d)[name].bytes;
      forall k | 0 <= k <= n
        ensures Wf(AfterWrites(d, name, data, k))
        ensures Files(AfterWrites(d, name, data, k)) == Files(d)[name := Written(Torn(c, data, k))]
        ensures Overlays(data, c) ==> Torn(c, data, k) == c
      {
        InPlaceWriteTears(d, name, data, k);
        TornUnchangedIff(c, data, k);
      }
      TornUnchangedIff(c, data, n);
      SameBinding(Files(d), name, Written(c));
      SameBinding(Files(d), name, Written(Torn(c, data, n)));
    }
  }

  /** Appending within the last sector is atomic, although the sector gets new bytes. */
  lemma AppendInLastSectorIsAtomic(was: seq<byte>, more: seq<byte>)
    requires Sectors(|was + more|) == Sectors(|was|)
    ensures Overlays(was + more, was) && !NeedsRoom(Written(was), was + more)
  {
  }

  lemma SameBinding(m: map<seq<byte>, Content>, name: seq<byte>, c: Content)
    requires name in m
    ensures m[name := c] == m <==> c == m[name]
  {
    assert m[name := c][name] == c;
  }

  /** The table write of a write plan switches the file to its new place. */
  lemma SwitchEntry(d: DiskImage, mid: DiskImage, slot: nat, start: nat, data: FileData)
    requires Wf(d) && Table(mid) == Table(d) && |mid| == |d| && slot < SLOTS
    requires Table(d)[slot].used != 0
    requires DATA_SECTOR <= start && start + Sectors(|data|) <= DATA_END
    requires forall x :: start <= x < start + Sectors(|data|) ==> mid[x] == Chunk(data, x - start)
    requires OthersKept(d, mid, slot)
    requires ClearOfOthers(Table(d), slot, start, Sectors(|data|))
    ensures var d' := ApplyOne(mid, SlotIo(mid, slot, Rewritten(Table(d)[slot], start, data)));
            Wf(d') && Files(d') == Files(d)[NameOf(Table(d)[slot]) := Written(data)]
  {
    hide TableOk, Files, Table, WithEntry, CStr;
    var t := Table(d);
    var e' := Rewritten(t[slot], start, data);
    var d' := ApplyOne(mid, SlotIo(mid, slot, e'));
    UsedEntryOk(t, slot);
    TableAfterSlotWrite(mid, slot, e');
    assert Table(d') == t[slot := e'];
    SlotKeepsName(t, slot, e');
    TableOkAfterSlotWrite(t, slot, e');
    TableWriteKeepsExtents(mid, SlotIo(mid, slot, e'));
    FilesAfterSlotWrite(d, d', slot, e');
    FilesOfSlot(d, slot);
    ChunksReadBack(d', start, data);
  }

  lemma SlotKeepsName(t: seq<Entry>, k: nat, e: Entry)
    requires TableOk(t) && k < |t| && t[k].used != 0 && e.name == t[k].name
    ensures forall j :: 0 <= j < |t| && j != k ==> !HasName(t[j], NameOf(e))
  {
  }

  /** The complete plan makes exactly the target read as the new data. */
  lemma WriteReplacesContent(d: DiskImage, name: Name, data: FileData)
    requires Wf(d) && WritePlan(d, name, data).Some?
    ensures var d' := Apply(d, WritePlan(d, name, data).value);
            Wf(d') && Files(d') == Files(d)[name := Written(data)]
  {
    hide TableOk, Files, Table, Chunk, Apply, Allocation, ClearOfOthers, OthersKept,
      WritePlan, AfterWrites, TargetStart, FindSlot, Rewritten, SlotIo, ApplyOne;
    WriterSlot(d, name, data);
    var slot, n := SlotFor(d, name), Sectors(|data|);
    DataPhase(d, name, data, n);
    LastWrite(d, name, data);
    DataPhaseIsClear(d, name, data, n);
    SwitchEntry(d, AfterWrites(d, name, data, n), slot, TargetStart(Table(d), EntryFor(d, name), data), data);
  }

  lemma LastWrite(d: DiskImage, name: Name, data: FileData)
    requires Wf(d) && WritePlan(d, name, data).Some?
    ensures var start := TargetStart(Table(d), EntryFor(d, name), data);
            var mid := AfterWrites(d, name, data, Sectors(|data|));
            start < WORD &&
            Apply(d, WritePlan(d, name, data).value)
            == ApplyOne(mid, SlotIo(mid, SlotFor(d, name), Rewritten(EntryFor(d, name), start, data)))
  {
    hide TableOk, Table, Chunk, Apply, FitsInPlace, Allocation, DataIos, FindSlot;
    var slot, n := SlotFor(d, name), Sectors(|data|);
    var plan, mid := WritePlan(d, name, data).value, AfterWrites(d, name, data, n);
    DataPhase(d, name, data, n);
    ApplyLonger(d, plan, n);
    assert plan[..n + 1] == plan;
    var s := TABLE_SECTOR + slot / ENTRIES_PER_SECTOR;
    assert mid[s] == d[s];
  }

  // ----- the bytes on the disk -----

  /** The 64 bytes of table slot `k`: eight to a sector from sector 129 on. */
  function Record(d: DiskImage, k: nat): (b: seq<byte>)
    requires k < 128
    ensures |b| == 64
  {
    d[129 + k / 8][64 * (k % 8)..64 * (k % 8) + 64]
  }

  /** The layout of an entry, byte by byte: 32 bytes of name, the start sector and the
      size in four bytes each, lowest first, the used flag, and 23 bytes of padding. */
  lemma EntryBytes(e: Entry)
    ensures var b := EncodeEntry(e);
      && b[..32] == e.name && Number(b, 32) == e.start && Number(b, 36) == e.size
      && b[40] == e.used && b[41..] == e.reserved
  {
    var b := EncodeEntry(e);
    assert b[32..36] == Le32(e.start) && b[36..40] == Le32(e.size);
    FromLe32OfLe32(e.start);
    FromLe32OfLe32(e.size);
    WordIsNumber(b, 32);
    WordIsNumber(b, 36);
  }

  lemma SlotWriteStores(d: DiskImage, k: nat, e: Entry)
    requires k < SLOTS
    ensures Record(ApplyOne(d, SlotIo(d, k, e)), k) == EncodeEntry(e)
  {
    var i := k % 8;
    PatchSlice(d[129 + k / 8], 64 * i, EncodeEntry(e), 64 * i, 64 * i + 64);
  }

  lemma RecordIsEntry(d: DiskImage, k: nat)
    requires k < SLOTS
    ensures Record(d, k) == EncodeEntry(Table(d)[k]) && Record(d, k)[40] == Table(d)[k].used
  {
    RecordRoundTrip(Record(d, k));
  }

  /** Creating a file fills the first record with a zero used flag: the name, padded with
      zeros, flag 1, and zeros otherwise. */
  lemma CreatedRecord(d: DiskImage, name: Name, k: nat)
    requires Wf(d) && CreatePlan(d, name).Some?
    requires k < 128 && Record(d, k)[40] == 0 && forall j :: 0 <= j < k ==> Record(d, j)[40] != 0
    ensures Record(Apply(d, CreatePlan(d, name).value), k)
         == name + seq(40 - |name|, _ => 0 as byte) + [1] + seq(23, _ => 0 as byte)
  {
    hide Wf, Table, EncodeEntry, Record, SlotIo, FindSlot;
    var t, e := Table(d), FreshEntry(name);
    forall j | 0 <= j <= k
      ensures Record(d, j)[40] == t[j].used
    {
      RecordIsEntry(d, j);
    }
    FreeSlotIs(t, k);
    ApplySingle(d, SlotIo(d, k, e));
    SlotWriteStores(d, k, e);
    FreshBytes(name);
  }

  lemma FreeSlotIs(t: seq<Entry>, k: nat)
    requires k < |t| && t[k].used == 0 && forall j :: 0 <= j < k ==> t[j].used != 0
    ensures FreeSlot(t, 0) == k
  {
  }

  lemma FreshBytes(name: Name)
    ensures EncodeEntry(FreshEntry(name)) == name + seq(40 - |name|, _ => 0 as byte) + [1] + seq(23, _ => 0 as byte)
  {
  }

  /** Deleting a file blanks its record. */
  lemma DeletedRecord(d: DiskImage, name: Name)
    requires Wf(d) && DeletePlan(d, name).Some?
    ensures SlotFor(d, name) < 128
    ensures Record(Apply(d, DeletePlan(d, name).value), SlotFor(d, name)) == seq(64, _ => 0 as byte)
  {
    hide Wf, Table, Record, SlotIo, FindSlot;
    var k, e := SlotFor(d, name), BlankEntry();
    ApplySingle(d, SlotIo(d, k, e));
    SlotWriteStores(d, k, e);
    assert EncodeEntry(e) == seq(64, _ => 0 as byte);
  }

  /** A completed write leaves the chosen sector and the size in the file's record, and its
      other bytes as they were. */
  lemma WrittenRecord(d: DiskImage, name: Name, data: FileData)
    requires Wf(d) && WritePlan(d, name, data).Some?
    ensures SlotFor(d, name) < 128
    ensures var r, r' := Record(d, SlotFor(d, name)), Record(Apply(d, WritePlan(d, name, data).value), SlotFor(d, name));
      && Number(r', 32) == TargetStart(Table(d), EntryFor(d, name), data)
      && Number(r', 36) == |data|
      && r'[..32] == r[..32] && r'[40..] == r[40..]
  {
    hide Wf, Table, EncodeEntry, Record, SlotIo, FindSlot, Apply, WritePlan, TargetStart, Number, ApplyOne;
    WriterSlot(d, name, data);
    LastWrite(d, name, data);
    var k, mid := SlotFor(d, name), AfterWrites(d, name, data, Sectors(|data|));
    var e := Rewritten(EntryFor(d, name), TargetStart(Table(d), EntryFor(d, name), data), data);
    SlotWriteStores(mid, k, e);
    RecordIsEntry(d, k);
    EntryBytes(e);
    EntryBytes(EntryFor(d, name));
    EntryTail(e);
    EntryTail(EntryFor(d, name));
  }

  lemma EntryTail(e: Entry)
    ensures EncodeEntry(e)[40..] == [e.used] + e.reserved
  {
  }

  // ----- when operations fail -----

  ghost function NamesBelow(t: seq<Entry>, n: nat): set<seq<byte>>
    requires n <= |t|
  {
    if n == 0 then {}
    else NamesBelow(t, n - 1) + if t[n - 1].used != 0 then {NameOf(t[n - 1])} else {}
  }

  lemma {:induction false} NamesBelowAll(t: seq<Entry>, n: nat)
    requires n <= |t|
    ensures forall name :: name in NamesBelow(t, n) <==>
      exists k :: 0 <= k < n && t[k].used != 0 && NameOf(t[k]) == name
    ensures n == |t| ==> NamesBelow(t, n) == Names(t)
  {
    if n > 0 {
      NamesBelowAll(t, n - 1);
    }
  }

  /** Names are unique, so a table prefix names as many files as it has used slots. */
  lemma {:induction false} CountNames(t: seq<Entry>, n: nat)
    requires NamesUnique(t) && n <= |t|
    ensures |NamesBelow(t, n)| <= n
    ensures |NamesBelow(t, n)| == n <==> forall k :: 0 <= k < n ==> t[k].used != 0
  {
    hide NameOf, NamesUnique;
    if n > 0 {
      CountNames(t, n - 1);
      if t[n - 1].used != 0 {
        NameIsNew(t, n - 1);
      }
    }
  }

  lemma NameIsNew(t: seq<Entry>, k: nat)
    requires NamesUnique(t) && k < |t| && t[k].used != 0
    ensures NameOf(t[k]) !in NamesBelow(t, k)
  {
    NamesBelowAll(t, k);
  }

  lemma CreateFailsIff(d: DiskImage, name: Name)
    requires Wf(d)
    ensures CreatePlan(d, name).None? <==> name in Files(d) || |Files(d)| == SLOTS
  {
    hide Table, NameOf;
    var t, files := Table(d), Files(d);
    assert files.Keys == Names(t);
    TableFullIff(t);
    NamesIffFound(t, name);
    SizeOfKeys(files);
  }

  lemma SizeOfKeys<K, V>(m: map<K, V>)
    ensures |m| == |m.Keys|
  {
  }

  lemma TableFullIff(t: seq<Entry>)
    requires NamesUnique(t)
    ensures FreeSlot(t, 0) == |t| <==> |Names(t)| == |t|
  {
    CountNames(t, |t|);
    NamesBelowAll(t, |t|);
  }

  lemma DeleteFailsIff(d: DiskImage, name: Name)
    requires Wf(d)
    ensures DeletePlan(d, name).None? <==> name !in Files(d)
  {
    InFilesIffFound(d, name);
  }

  lemma WriteFailsIff(d: DiskImage, name: Name, data: FileData)
    requires Wf(d)
    ensures WritePlan(d, name, data).None? <==>
      || name !in Files(d)
      || (NeedsRoom(Files(d)[name], data)
          && (data == [] || forall s :: !FreeRun(Table(d), s, Sectors(|data|))))
  {
    hide Table, Files, TableOk, NameOf, ContentOf, NeedsRoom, FitsInPlace;
    InFilesIffFound(d, name);
    var t, k := Table(d), SlotFor(d, name);
    if k < SLOTS {
      UsedEntryOk(t, k);
      FilesOfSlot(d, k);
      FitsUnlessNeedsRoom(d, t[k], data);
    }
  }
}
