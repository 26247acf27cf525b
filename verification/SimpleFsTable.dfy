/** The on-disk file table of kernel/fs/simplefs.c: how 64-byte entries are laid
    out in table sectors, what a well-formed table is, and the map from names to
    contents that a disk stands for. */
module SimpleFsTable {
  import opened Bytes
  import opened LibkString

  const SECTOR_SIZE := 512
  const START_SECTOR := 128
  const TABLE_SECTOR := 129
  const TABLE_SECTORS := 16
  const ENTRIES_PER_SECTOR := 8
  const SLOTS := 128
  const DATA_SECTOR := 145
  const DATA_SECTORS := 1024
  const DATA_END := 1169
  const ENTRY_SIZE := 64
  const MAX_NAME := 32
  const RESERVED := 23

  type Sector = s: seq<byte> | |s| == SECTOR_SIZE witness Zeros(SECTOR_SIZE)
  type DiskImage = d: seq<Sector> | |d| >= DATA_END witness seq<Sector>(DATA_END, i => BlankSector())

  function BlankSector(): Sector {
    Zeros(SECTOR_SIZE)
  }

  /** A file name that the table can hold: at most 31 bytes and no NUL. */
  type Name = n: seq<byte> | |n| < MAX_NAME && 0 !in n witness []

  datatype RawEntry = Entry(name: seq<byte>, start: u32, size: u32, used: byte, reserved: seq<byte>)
  type Entry = e: RawEntry | |e.name| == MAX_NAME && |e.reserved| == RESERVED
    witness Entry(Zeros(MAX_NAME), 0, 0, 0, Zeros(RESERVED))

  // ----- record layout -----

  function EncodeEntry(e: Entry): (b: seq<byte>)
    ensures |b| == ENTRY_SIZE
  {
    e.name + Le32(e.start) + Le32(e.size) + [e.used] + e.reserved
  }

  function DecodeEntry(b: seq<byte>): Entry
    requires |b| == ENTRY_SIZE
  {
    Entry(b[..32], FromLe32(b[32..36]), FromLe32(b[36..40]), b[40], b[41..])
  }

  lemma EntryRoundTrip(e: Entry)
    ensures DecodeEntry(EncodeEntry(e)) == e
  {
    var b := EncodeEntry(e);
    assert b[..32] == e.name;
    assert b[32..36] == Le32(e.start);
    assert b[36..40] == Le32(e.size);
    assert b[41..] == e.reserved;
    FromLe32OfLe32(e.start);
    FromLe32OfLe32(e.size);
  }

  lemma RecordRoundTrip(b: seq<byte>)
    requires |b| == ENTRY_SIZE
    ensures EncodeEntry(DecodeEntry(b)) == b
  {
    Le32OfFromLe32(b[32..36]);
    Le32OfFromLe32(b[36..40]);
    assert b == b[..32] + b[32..36] + b[36..40] + [b[40]] + b[41..];
  }

  function EntryAt(sector: Sector, index: nat): Entry
    requires index < ENTRIES_PER_SECTOR
  {
    DecodeEntry(sector[ENTRY_SIZE * index..ENTRY_SIZE * index + ENTRY_SIZE])
  }

  function WithEntry(sector: Sector, index: nat, e: Entry): Sector
    requires index < ENTRIES_PER_SECTOR
  {
    Patch(sector, ENTRY_SIZE * index, EncodeEntry(e))
  }

  lemma EntryAtWithEntry(sector: Sector, index: nat, e: Entry, other: nat)
    requires index < ENTRIES_PER_SECTOR && other < ENTRIES_PER_SECTOR
    ensures EntryAt(WithEntry(sector, index, e), other)
         == if other == index then e else EntryAt(sector, other)
  {
    EntryRoundTrip(e);
    PatchSlice(sector, ENTRY_SIZE * index, EncodeEntry(e), ENTRY_SIZE * other, ENTRY_SIZE * other + ENTRY_SIZE);
  }

  // ----- the table -----

  function SlotEntry(d: DiskImage, k: nat): Entry
    requires k < SLOTS
  {
    EntryAt(d[TABLE_SECTOR + k / ENTRIES_PER_SECTOR], k % ENTRIES_PER_SECTOR)
  }

  function Table(d: DiskImage): (t: seq<Entry>)
    ensures |t| == SLOTS
  {
    seq(SLOTS, k requires 0 <= k < SLOTS => SlotEntry(d, k))
  }

  /** The table sector holding slot `k`, rewritten so that the slot holds `e`. */
  function SlotSector(d: DiskImage, k: nat, e: Entry): Sector
    requires k < SLOTS
  {
    WithEntry(d[TABLE_SECTOR + k / ENTRIES_PER_SECTOR], k % ENTRIES_PER_SECTOR, e)
  }

  /** Rewriting one shared table sector changes one slot and no other. */
  lemma TableAfterSlotWrite(d: DiskImage, k: nat, e: Entry)
    requires k < SLOTS
    ensures Table(d[TABLE_SECTOR + k / ENTRIES_PER_SECTOR := SlotSector(d, k, e)]) == Table(d)[k := e]
  {
    var s := TABLE_SECTOR + k / ENTRIES_PER_SECTOR;
    var d' := d[s := SlotSector(d, k, e)];
    forall j | 0 <= j < SLOTS
      ensures SlotEntry(d', j) == if j == k then e else SlotEntry(d, j)
    {
      EntryAtWithEntry(d[s], k % ENTRIES_PER_SECTOR, e, j % ENTRIES_PER_SECTOR);
    }
  }

  lemma TableDependsOnTableSectors(d: DiskImage, d': DiskImage)
    requires forall s :: TABLE_SECTOR <= s < DATA_SECTOR ==> d'[s] == d[s]
    ensures Table(d') == Table(d)
  {
    forall j | 0 <= j < SLOTS
      ensures SlotEntry(d', j) == SlotEntry(d, j)
    {
      assert TABLE_SECTOR <= TABLE_SECTOR + j / ENTRIES_PER_SECTOR < DATA_SECTOR;
    }
  }

  // ----- well-formed tables -----

  /** Sectors needed for `size` bytes. */
  function Sectors(size: nat): (n: nat)
    ensures 512 * n - 512 < size <= 512 * n
  {
    (size + 511) / 512
  }

  /** The kernel's 32-bit expression for the same count. */
  function SectorCount(size: u32): nat {
    (size + 511) % WORD / 512
  }

  lemma SectorCountIsExactBelowWrap(size: u32)
    ensures SectorCount(size) == Sectors(size) <==> size <= WORD - 512
  {
    var sum: int := size + 511;
    if size <= WORD - 512 {
      assert sum % WORD == sum;
    } else {
      assert sum % WORD == sum - WORD;
      assert SectorCount(size) == 0;
    }
  }

  function NameOf(e: Entry): seq<byte> {
    CStr(e.name)
  }

  predicate HasName(e: Entry, name: seq<byte>) {
    e.used != 0 && NameOf(e) == name
  }

  /** Sector `x` is reserved by entry `e`. */
  predicate InExtent(e: Entry, x: int) {
    e.used != 0 && e.start != 0 && e.start <= x < e.start + Sectors(e.size)
  }

  predicate EntryOk(e: Entry) {
    && 0 in e.name
    && (e.start == 0 ==> e.size == 0)
    && (e.start != 0 ==> DATA_SECTOR <= e.start && e.start + Sectors(e.size) <= DATA_END)
  }

  ghost predicate NamesUnique(t: seq<Entry>) {
    forall j, k :: 0 <= j < k < |t| && t[j].used != 0 && t[k].used != 0 ==> NameOf(t[j]) != NameOf(t[k])
  }

  ghost predicate ExtentsDisjoint(t: seq<Entry>) {
    forall j, k, x :: 0 <= j < k < |t| ==> !(InExtent(t[j], x) && InExtent(t[k], x))
  }

  ghost predicate TableOk(t: seq<Entry>) {
    && (forall k :: 0 <= k < |t| && t[k].used != 0 ==> EntryOk(t[k]))
    && NamesUnique(t)
    && ExtentsDisjoint(t)
  }

  ghost predicate Wf(d: DiskImage) {
    TableOk(Table(d))
  }

  /** The table scan of simplefs_find: the lowest slot from `k` on that holds `name`. */
  function FindSlot(t: seq<Entry>, name: seq<byte>, k: nat): (r: nat)
    requires k <= |t|
    ensures k <= r <= |t|
    ensures r < |t| ==> HasName(t[r], name)
    ensures forall j :: k <= j < r ==> !HasName(t[j], name)
    decreases |t| - k
  {
    if k == |t| || HasName(t[k], name) then k else FindSlot(t, name, k + 1)
  }

  /** The table scan of simplefs_create: the lowest unused slot from `k` on. */
  function FreeSlot(t: seq<Entry>, k: nat): (r: nat)
    requires k <= |t|
    ensures k <= r <= |t|
    ensures r < |t| ==> t[r].used == 0
    ensures forall j :: k <= j < r ==> t[j].used != 0
    decreases |t| - k
  {
    if k == |t| || t[k].used == 0 then k else FreeSlot(t, k + 1)
  }

  // ----- the files a disk stands for -----

  datatype Content = NeverWritten | Written(bytes: seq<byte>)

  ghost function BytesAt(d: DiskImage, start: nat, size: nat): (b: seq<byte>)
    requires start + Sectors(size) <= |d|
    ensures |b| == size
  {
    seq(size, i requires 0 <= i < size => d[start + i / 512][i % 512])
  }

  ghost function ContentOf(d: DiskImage, e: Entry): Content
    requires EntryOk(e)
  {
    if e.start == 0 then NeverWritten else Written(BytesAt(d, e.start, e.size))
  }

  ghost function Names(t: seq<Entry>): set<seq<byte>> {
    set k | 0 <= k < |t| && t[k].used != 0 :: NameOf(t[k])
  }

  ghost function Files(d: DiskImage): map<seq<byte>, Content>
    requires Wf(d)
  {
    map name | name in Names(Table(d)) :: ContentOf(d, Table(d)[FindSlot(Table(d), name, 0)])
  }

  lemma FindSlotOfUsed(t: seq<Entry>, k: nat)
    requires NamesUnique(t) && k < |t| && t[k].used != 0
    ensures FindSlot(t, NameOf(t[k]), 0) == k
  {
  }

  /** `Files` holds exactly one binding for each used slot. */
  lemma FilesOfSlot(d: DiskImage, k: nat)
    requires Wf(d) && k < SLOTS && Table(d)[k].used != 0
    ensures NameOf(Table(d)[k]) in Files(d)
    ensures Files(d)[NameOf(Table(d)[k])] == ContentOf(d, Table(d)[k])
  {
    FindSlotOfUsed(Table(d), k);
  }

  lemma NamesIffFound(t: seq<Entry>, name: seq<byte>)
    ensures name in Names(t) <==> FindSlot(t, name, 0) < |t|
  {
  }

  lemma InFilesIffFound(d: DiskImage, name: seq<byte>)
    requires Wf(d)
    ensures name in Files(d) <==> FindSlot(Table(d), name, 0) < SLOTS
  {
    NamesIffFound(Table(d), name);
  }

  /** `d'` holds the same bytes as `d` in the extent of `e`. */
  ghost predicate SameExtent(d: DiskImage, d': DiskImage, e: Entry)
    requires |d'| == |d|
  {
    forall x :: 0 <= x < |d| && InExtent(e, x) ==> d'[x] == d[x]
  }

  /** A file's contents depend only on the sectors of its own extent. */
  lemma ContentFrame(d: DiskImage, d': DiskImage, e: Entry)
    requires e.used != 0 && EntryOk(e) && |d'| == |d|
    requires SameExtent(d, d', e)
    ensures ContentOf(d', e) == ContentOf(d, e)
  {
    if e.start != 0 {
      forall i | 0 <= i < e.size
        ensures d'[e.start + i / 512][i % 512] == d[e.start + i / 512][i % 512]
      {
        assert InExtent(e, e.start + i / 512);
      }
      assert BytesAt(d', e.start, e.size) == BytesAt(d, e.start, e.size);
    }
  }

  lemma UsedEntryOk(t: seq<Entry>, k: nat)
    requires TableOk(t) && k < |t|
    ensures t[k].used != 0 ==> EntryOk(t[k])
    ensures forall x :: InExtent(t[k], x) ==> DATA_SECTOR <= x < DATA_END
  {
  }

  /** Every used entry but that of slot `k` keeps its extent's bytes. */
  ghost predicate OthersKept(d: DiskImage, d': DiskImage, k: nat)
    requires |d'| == |d|
  {
    forall j :: 0 <= j < SLOTS && j != k ==> SameExtent(d, d', Table(d)[j])
  }

  // ----- free space -----

  ghost predicate Occupied(t: seq<Entry>, x: int) {
    exists k :: 0 <= k < |t| && InExtent(t[k], x)
  }

  /** `count` free sectors of the data area start at sector `s`. */
  ghost predicate FreeRun(t: seq<Entry>, s: int, count: nat) {
    && DATA_SECTOR <= s && s + count <= DATA_END
    && forall x :: s <= x < s + count ==> !Occupied(t, x)
  }

  /** The same in numbers: the data area is sectors 145 to 1168. */
  lemma FreeRunInNumbers(t: seq<Entry>, s: int, count: nat)
    ensures FreeRun(t, s, count) <==>
      145 <= s && s + count <= 1169 && forall x :: s <= x < s + count ==> !Occupied(t, x)
  {
  }

  /** A used entry with a start sector reserves as many sectors as its size takes, rounded
      up; any other entry reserves none. */
  lemma ExtentInNumbers(e: Entry, x: int)
    ensures InExtent(e, x) <==> e.used != 0 && e.start != 0 && e.start <= x < e.start + (e.size + 511) / 512
  {
  }

  /** What simplefs_alloc_sector answers: the lowest free run, or 0 for none. A run
      of no sectors is never found. */
  ghost predicate IsAllocation(t: seq<Entry>, count: nat, r: nat) {
    if r == 0 then
      count == 0 || forall s :: !FreeRun(t, s, count)
    else
      && count > 0
      && FreeRun(t, r, count)
      && forall s :: s < r ==> !FreeRun(t, s, count)
  }

  ghost function Allocation(t: seq<Entry>, count: nat): (r: nat)
    ensures IsAllocation(t, count, r)
  {
    if count == 0 then 0 else AllocationFrom(t, count, DATA_SECTOR)
  }

  ghost function AllocationFrom(t: seq<Entry>, count: nat, s: nat): (r: nat)
    requires count > 0 && DATA_SECTOR <= s <= DATA_END
    requires forall x :: x < s ==> !FreeRun(t, x, count)
    ensures IsAllocation(t, count, r)
    decreases DATA_END - s
  {
    if s == DATA_END then 0
    else if FreeRun(t, s, count) then s
    else AllocationFrom(t, count, s + 1)
  }

  lemma AllocationUnique(t: seq<Entry>, count: nat, r: nat)
    requires IsAllocation(t, count, r)
    ensures r == Allocation(t, count)
  {
  }

  /** First fit in words: allocation succeeds exactly when some run fits. */
  lemma AllocationSucceedsIffSomeRunFits(t: seq<Entry>, count: nat)
    requires count > 0
    ensures Allocation(t, count) != 0 <==> exists s :: FreeRun(t, s, count)
    ensures forall s :: FreeRun(t, s, count) ==> DATA_SECTOR <= Allocation(t, count) <= s
  {
  }
}
