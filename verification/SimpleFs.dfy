/** The SimpleFS operations as the kernel runs them: sector buffers changed in place
    and written back to a disk whose write commands may fail. */
module SimpleFs {
  import opened Bytes
  import opened Wrappers
  import opened LibkString
  import opened SimpleFsTable
  import opened SimpleFsPlan

  /** The ATA disk. Whether the i-th write command fails is arbitrary; a failing one
      returns before any data word is sent. */
  class Disk {
    var sectors: DiskImage
    var commands: nat
    const fails: nat -> bool

    constructor (image: DiskImage, fails: nat -> bool)
      ensures sectors == image && commands == 0 && this.fails == fails
    {
      sectors, commands, this.fails := image, 0, fails;
    }

    method ReadSector(lba: nat, buffer: array<byte>)
      requires buffer.Length == SECTOR_SIZE && lba < |sectors|
      modifies buffer
      ensures buffer[..] == sectors[lba]
    {
      var data := sectors[lba];
      forall i | 0 <= i < SECTOR_SIZE {
        buffer[i] := data[i];
      }
    }

    method WriteSector(lba: nat, buffer: array<byte>) returns (rc: int)
      requires buffer.Length == SECTOR_SIZE
      modifies this
      ensures commands == old(commands) + 1
      ensures rc == if fails(old(commands)) then -1 else 0
      ensures sectors == if rc == 0 then ApplyOne(old(sectors), Io(lba, buffer[..])) else old(sectors)
    {
      rc := if fails(commands) then -1 else 0;
      commands := commands + 1;
      if rc == 0 {
        sectors := ApplyOne(sectors, Io(lba, buffer[..]));
      }
    }
  }

  /** The structure assignment that stores an entry in a sector buffer. */
  method StoreEntry(buffer: array<byte>, index: nat, e: Entry)
    requires buffer.Length == SECTOR_SIZE && index < ENTRIES_PER_SECTOR
    modifies buffer
    ensures buffer[..] == WithEntry(old(buffer[..]), index, e)
  {
    var record := EncodeEntry(e);
    forall i | 0 <= i < ENTRY_SIZE {
      buffer[ENTRY_SIZE * index + i] := record[i];
    }
  }

  class FileSystem {
    const disk: Disk
    // The static handle that simplefs_find fills in.
    var handleEntry: Entry
    var handleSector: nat
    var handleIndex: nat

    constructor (disk: Disk)
      ensures this.disk == disk
    {
      this.disk := disk;
      handleEntry, handleSector, handleIndex := BlankEntry(), 0, 0;
    }

    ghost predicate Valid()
      reads this, disk
    {
      Wf(disk.sectors)
    }

    /** The disk holds what the first writes of `plan` leave, up to the first failure. */
    twostate predicate Carried(plan: seq<Io>)
      reads this, disk
    {
      var k := Completed(disk.fails, old(disk.commands), |plan|);
      && disk.sectors == Apply(old(disk.sectors), plan[..k])
      && disk.commands == old(disk.commands) + if k < |plan| then k + 1 else k
    }

    twostate predicate Untouched()
      reads this, disk
    {
      disk.sectors == old(disk.sectors) && disk.commands == old(disk.commands)
    }

    method Format()
      modifies disk
      ensures disk.sectors == ApplySurviving(old(disk.sectors), FormatPlan(), disk.fails, old(disk.commands))
      ensures disk.commands == old(disk.commands) + |FormatPlan()|
    {
      hide ApplySurviving, ApplyOne, Superblock;
      ghost var plan, image, first := FormatPlan(), disk.sectors, disk.commands;
      var sector := new byte[SECTOR_SIZE];
      FillSuperblock(sector);
      var rc := disk.WriteSector(START_SECTOR, sector);
      SurvivingLonger(image, plan, disk.fails, first, 0);
      Memset(sector, 0, 0, SECTOR_SIZE);
      assert sector[..] == BlankSector();
      for i := 0 to TABLE_SECTORS
        invariant sector[..] == BlankSector()
        invariant disk.commands == first + 1 + i
        invariant disk.sectors == ApplySurviving(image, plan[..1 + i], disk.fails, first)
      {
        SurvivingLonger(image, plan, disk.fails, first, 1 + i);
        rc := disk.WriteSector(TABLE_SECTOR + i, sector);
      }
      assert plan[..|plan|] == plan;
    }

    method Find(name: Name) returns (found: bool)
      requires Valid()
      modifies this
      ensures found <==> name in Files(disk.sectors)
      ensures found ==> var k := FindSlot(Table(disk.sectors), name, 0);
        && k < SLOTS
        && handleEntry == Table(disk.sectors)[k]
        && handleSector == TABLE_SECTOR + k / ENTRIES_PER_SECTOR
        && handleIndex == k % ENTRIES_PER_SECTOR
      ensures !found ==> FindSlot(Table(disk.sectors), name, 0) == SLOTS
    {
      hide TableOk, Table, Files, FindSlot, EntryAt, NoneNamed, NamesEnd;
      ghost var t := Table(disk.sectors);
      InFilesIffFound(disk.sectors, name);
      FindSlotRange(t, name, SLOTS);
      var sector := new byte[SECTOR_SIZE];
      for s := 0 to TABLE_SECTORS
        invariant FindSlot(t, name, 0) == FindSlot(t, name, ENTRIES_PER_SECTOR * s)
      {
        disk.ReadSector(TABLE_SECTOR + s, sector);
        NamesEnded(disk.sectors, s);
        var i := FindInSector(sector, name);
        FindSlotInSector(disk.sectors, name, s, i);
        if i < ENTRIES_PER_SECTOR {
          handleEntry := EntryAt(sector[..], i);
          handleSector := TABLE_SECTOR + s;
          handleIndex := i;
          SlotIsEntry(disk.sectors, s, i);
          return true;
        }
      }
      return false;
    }

    method AllocSector(count: nat) returns (r: nat)
      requires Valid()
      ensures IsAllocation(Table(disk.sectors), count, r)
    {
      hide TableOk, Table, EntryAt, DecodeEntry, Sectors;
      ghost var t := Table(disk.sectors);
      var used := new bool[DATA_SECTORS](_ => false);
      var sector := new byte[SECTOR_SIZE];
      for s := 0 to TABLE_SECTORS
        invariant forall x :: 0 <= x < DATA_SECTORS ==>
          (used[x] <==> OccupiedBelow(t, ENTRIES_PER_SECTOR * s, DATA_SECTOR + x))
      {
        disk.ReadSector(TABLE_SECTOR + s, sector);
        for i := 0 to ENTRIES_PER_SECTOR
          invariant sector[..] == disk.sectors[TABLE_SECTOR + s]
          invariant forall x :: 0 <= x < DATA_SECTORS ==>
            (used[x] <==> OccupiedBelow(t, ENTRIES_PER_SECTOR * s + i, DATA_SECTOR + x))
        {
          SlotIsEntry(disk.sectors, s, i);
          var entry := EntryAt(sector[..], i);
          UsedEntryOk(t, ENTRIES_PER_SECTOR * s + i);
          MarkExtent(used, entry, t, ENTRIES_PER_SECTOR * s + i);
        }
      }
      r := FirstFreeRun(used, count, t);
    }

    method Create(name: Name) returns (rc: int)
      requires Valid()
      modifies this, disk
      ensures var plan := CreatePlan(old(disk.sectors), name);
        match plan
        case None => rc == -1 && Untouched()
        case Some(ios) => Carried(ios) && (rc == 0 <==> !disk.fails(old(disk.commands))) && (rc == 0 || rc == -1)
    {
      hide TableOk, Files, FindSlot, FreeSlot, Table, EntryAt, ApplyOne, FreshEntry, SlotSector, NoneFree, Completed, WithEntry;
      ghost var d := disk.sectors;
      ghost var t := Table(d);
      var found := Find(name);
      if found {
        return -1;
      }
      FreeSlotRange(t, SLOTS);
      var sector := new byte[SECTOR_SIZE];
      for s := 0 to TABLE_SECTORS
        invariant disk.sectors == d && disk.commands == old(disk.commands)
        invariant FreeSlot(t, 0) == FreeSlot(t, ENTRIES_PER_SECTOR * s)
      {
        disk.ReadSector(TABLE_SECTOR + s, sector);
        var i := FreeInSector(sector);
        FreeSlotInSector(d, s, i);
        if i < ENTRIES_PER_SECTOR {
          ghost var k := ENTRIES_PER_SECTOR * s + i;
          FillFreshEntry(sector, i, name);
          SlotSectorIs(d, s, i, FreshEntry(name));
          CarryOne(d, SlotIo(d, k, FreshEntry(name)), disk.fails, disk.commands);
          rc := disk.WriteSector(TABLE_SECTOR + s, sector);
          return;
        }
      }
      return -1;
    }

    method Delete(name: Name) returns (rc: int)
      requires Valid()
      modifies this, disk
      ensures var plan := DeletePlan(old(disk.sectors), name);
        match plan
        case None => rc == -1 && Untouched()
        case Some(ios) => Carried(ios) && (rc == 0 <==> !disk.fails(old(disk.commands))) && (rc == 0 || rc == -1)
    {
      hide TableOk, Files, FindSlot, Table, ApplyOne, EntryAt;
      ghost var d := disk.sectors;
      var found := Find(name);
      if !found {
        return -1;
      }
      var sector := new byte[SECTOR_SIZE];
      disk.ReadSector(handleSector, sector);
      Memset(sector, ENTRY_SIZE * handleIndex, 0, ENTRY_SIZE);
      ghost var k := FindSlot(Table(d), name, 0);
      BlankRecord();
      assert sector[..] == SlotSector(d, k, BlankEntry());
      CarryOne(d, SlotIo(d, k, BlankEntry()), disk.fails, disk.commands);
      rc := disk.WriteSector(handleSector, sector);
    }

    /** Where the data goes: the file's own place when that is large enough, or else
        newly allocated sectors. */
    method ChoosePlace(size: u32) returns (writeStart: nat)
      requires Valid() && size <= WORD - SECTOR_SIZE && EntryOk(handleEntry)
      modifies this
      ensures handleEntry == old(handleEntry)
      ensures handleSector == old(handleSector) && handleIndex == old(handleIndex)
      ensures writeStart ==
        if handleEntry.start != 0 && Sectors(size) <= Sectors(handleEntry.size) then handleEntry.start
        else Allocation(Table(disk.sectors), Sectors(size))
    {
      hide TableOk, Table, Allocation, IsAllocation;
      ghost var t := Table(disk.sectors);
      SectorCountIsExactBelowWrap(size);
      SectorCountIsExactBelowWrap(handleEntry.size);
      var sectorCount := SectorCount(size);
      writeStart := handleEntry.start;
      if writeStart != 0 {
        var currentSectorCount := SectorCount(handleEntry.size);
        if sectorCount > currentSectorCount {
          var oldStart := writeStart;
          handleEntry := handleEntry.(start := 0);
          writeStart := AllocSector(sectorCount);
          AllocationUnique(t, sectorCount, writeStart);
          handleEntry := handleEntry.(start := oldStart);
        }
      } else {
        writeStart := AllocSector(sectorCount);
        AllocationUnique(t, sectorCount, writeStart);
      }
    }

    /** The loop that writes the data, one zero-padded sector at a time. */
    method WriteData(writeStart: nat, data: array<byte>) returns (done: bool)
      requires data.Length <= WORD - SECTOR_SIZE
      modifies disk
      ensures Carried(DataIos(writeStart, data[..]))
      ensures done <==> Completed(disk.fails, old(disk.commands), Sectors(data.Length)) == Sectors(data.Length)
    {
      hide Apply, ApplyOne, Completed, Chunk;
      ghost var d, first, ios := disk.sectors, disk.commands, DataIos(writeStart, data[..]);
      var size := data.Length;
      SectorCountIsExactBelowWrap(size);
      var sectorCount := SectorCount(size);
      ApplyNone(d, ios);
      for i := 0 to sectorCount
        invariant disk.commands == first + i
        invariant disk.sectors == Apply(d, ios[..i])
        invariant forall j :: first <= j < first + i ==> !disk.fails(j)
      {
        var sector := PaddedSector(data, i);
        assert ios[i] == Io(writeStart + i, sector[..]);
        ApplyLonger(d, ios, i);
        var rc := disk.WriteSector(writeStart + i, sector);
        if rc != 0 {
          CompletedIs(disk.fails, first, sectorCount, i);
          return false;
        }
      }
      CompletedIs(disk.fails, first, sectorCount, sectorCount);
      return true;
    }

    /** The i-th piece of the data in a zeroed sector buffer. */
    static method PaddedSector(data: array<byte>, i: nat) returns (sector: array<byte>)
      requires i < Sectors(data.Length)
      ensures fresh(sector) && sector.Length == SECTOR_SIZE && sector[..] == Chunk(data[..], i)
    {
      sector := new byte[SECTOR_SIZE];
      Memset(sector, 0, 0, SECTOR_SIZE);
      var offset := i * 512;
      var remain := data.Length - offset;
      var copySize := if remain > 512 then 512 else remain;
      Memcpy(sector, 0, data, offset, copySize);
    }

    method Write(name: Name, data: array<byte>) returns (rc: int)
      requires Valid() && data.Length <= WORD - SECTOR_SIZE
      modifies this, disk
      ensures
        match WritePlan(old(disk.sectors), name, data[..])
        case None => rc == -1 && Untouched()
        case Some(ios) =>
          && Carried(ios) && (rc == 0 || rc == -1)
          && (rc == 0 <==> Completed(disk.fails, old(disk.commands), |ios|) == |ios|)
    {
      hide TableOk, Files, FindSlot, Table, Apply, ApplyOne, AfterWrites, DataIos, Chunk, Allocation,
        WithEntry, Completed, HasName, NameOf;
      ghost var d, bytes := disk.sectors, data[..];
      var found := Find(name);
      if !found {
        return -1;
      }
      NamedEntryOk(d, name);
      var writeStart := ChoosePlace(data.Length);
      assert writeStart == TargetStart(Table(d), EntryFor(d, name), bytes);
      if writeStart == 0 {
        return -1;
      }
      rc := StoreFile(name, writeStart, data);
    }

    /** simplefs_write from its data loop on: the data, then the handle's table entry. */
    method StoreFile(ghost name: Name, writeStart: nat, data: array<byte>) returns (rc: int)
      requires Valid() && data.Length <= WORD - SECTOR_SIZE
      requires WritePlan(disk.sectors, name, data[..]).Some?
      requires writeStart == TargetStart(Table(disk.sectors), EntryFor(disk.sectors, name), data[..])
      requires handleEntry == EntryFor(disk.sectors, name)
      requires handleSector == TABLE_SECTOR + SlotFor(disk.sectors, name) / ENTRIES_PER_SECTOR
      requires handleIndex == SlotFor(disk.sectors, name) % ENTRIES_PER_SECTOR
      modifies this, disk
      ensures var ios := WritePlan(old(disk.sectors), name, data[..]).value;
        && Carried(ios) && (rc == 0 || rc == -1)
        && (rc == 0 <==> Completed(disk.fails, old(disk.commands), |ios|) == |ios|)
    {
      hide TableOk, Table, FindSlot, Apply, ApplyOne, DataIos, Allocation, WithEntry, Completed, WritePlan, TargetStart, SlotFor, EntryFor, Wf;
      PlanInTwoSteps(disk.sectors, name, data[..], disk.fails, disk.commands);
      var done := WriteData(writeStart, data);
      if !done {
        return -1;
      }
      handleEntry := handleEntry.(start := writeStart, size := data.Length);
      rc := StoreHandle();
    }

    /** Reads the handle's table sector back, puts the handle's entry in its slot and
        writes the sector. */
    method StoreHandle() returns (rc: int)
      requires handleSector < DATA_SECTOR && handleIndex < ENTRIES_PER_SECTOR
      modifies disk
      ensures disk.commands == old(disk.commands) + 1
      ensures rc == if disk.fails(old(disk.commands)) then -1 else 0
      ensures disk.sectors == if rc == 0
        then ApplyOne(old(disk.sectors), Io(handleSector, WithEntry(old(disk.sectors)[handleSector], handleIndex, handleEntry)))
        else old(disk.sectors)
    {
      hide ApplyOne, WithEntry;
      var sector := new byte[SECTOR_SIZE];
      disk.ReadSector(handleSector, sector);
      StoreEntry(sector, handleIndex, handleEntry);
      rc := disk.WriteSector(handleSector, sector);
    }

    /** Reads a file into a buffer of `bufferSize` bytes. */
    method Read(name: Name, buffer: array<byte>, bufferSize: nat) returns (r: int)
      requires Valid() && bufferSize <= buffer.Length
      modifies this, buffer
      ensures var files := Files(disk.sectors);
        if name in files && files[name].Written? && |files[name].bytes| <= bufferSize then
          && r == |files[name].bytes|
          && buffer[..] == Patch(old(buffer[..]), 0, files[name].bytes)
        else
          r == -1 && buffer[..] == old(buffer[..])
    {
      hide TableOk, Files, FindSlot, Table;
      var found := Find(name);
      if !found {
        return -1;
      }
      NamedEntryOk(disk.sectors, name);
      if handleEntry.start == 0 {
        return -1;
      }
      if bufferSize < handleEntry.size {
        return -1;
      }
      ReadData(buffer);
      return handleEntry.size;
    }

    /** The loop that copies the handle's file into the buffer, sector by sector. */
    method ReadData(buffer: array<byte>)
      requires handleEntry.start != 0 && EntryOk(handleEntry) && handleEntry.size <= buffer.Length
      modifies buffer
      ensures buffer[..] == Patch(old(buffer[..]), 0, BytesAt(disk.sectors, handleEntry.start, handleEntry.size))
    {
      hide BytesAt, Patch, SectorCount;
      var start: int, size: int := handleEntry.start, handleEntry.size;
      SectorCountIsExactBelowWrap(size);
      var sectorCount := SectorCount(size);
      ghost var was, bytes := buffer[..], BytesAt(disk.sectors, start, size);
      PatchNothing(was, bytes);
      for i := 0 to sectorCount
        invariant i <= Sectors(size)
        invariant buffer[..] == Patch(was, 0, bytes[..Least(512 * i, size)])
      {
        var sector := new byte[SECTOR_SIZE];
        disk.ReadSector(start + i, sector);
        var offset := i * 512;
        var remain := size - offset;
        var copySize := if remain > 512 then 512 else remain;
        BytesOfSector(disk.sectors, start, size, i, copySize);
        assert sector[0..0 + copySize] == sector[..][..copySize];
        PatchMore(was, bytes, offset, copySize);
        assert Least(512 * (i + 1), size) == offset + copySize && Least(512 * i, size) == offset;
        Memcpy(buffer, offset, sector, 0, copySize);
      }
      assert bytes[..Least(512 * sectorCount, size)] == bytes;
    }
  }

  /** The scan of one sector for a name: the index of its entry, or 8. */
  method FindInSector(sector: array<byte>, name: Name) returns (i: nat)
    requires sector.Length == SECTOR_SIZE
    requires NamesEnd(sector[..])
    ensures i <= ENTRIES_PER_SECTOR
    ensures NoneNamed(sector[..], name, i)
    ensures i < ENTRIES_PER_SECTOR ==> HasName(EntryAt(sector[..], i), name)
  {
    hide EntryAt, Difference;
    CStrOf(name, [0]);
    i := 0;
    while i < ENTRIES_PER_SECTOR
      invariant i <= ENTRIES_PER_SECTOR
      invariant NoneNamed(sector[..], name, i)
    {
      var entry := EntryAt(sector[..], i);
      if entry.used != 0 {
        var difference := Strcmp(entry.name, name + [0]);
        if difference == 0 {
          return;
        }
      }
      i := i + 1;
    }
  }

  /** The scan of one sector for an unused entry: its index, or 8. */
  method FreeInSector(sector: array<byte>) returns (i: nat)
    requires sector.Length == SECTOR_SIZE
    ensures i <= ENTRIES_PER_SECTOR
    ensures NoneFree(sector[..], i)
    ensures i < ENTRIES_PER_SECTOR ==> EntryAt(sector[..], i).used == 0
  {
    hide EntryAt;
    i := 0;
    while i < ENTRIES_PER_SECTOR
      invariant i <= ENTRIES_PER_SECTOR
      invariant NoneFree(sector[..], i)
    {
      if EntryAt(sector[..], i).used == 0 {
        return;
      }
      i := i + 1;
    }
  }

  /** None of the first `i` entries of a table sector holds the name. */
  ghost predicate NoneNamed(sector: Sector, name: seq<byte>, i: nat)
    requires i <= ENTRIES_PER_SECTOR
  {
    forall j :: 0 <= j < i ==> !HasName(EntryAt(sector, j), name)
  }

  /** None of the first `i` entries of a table sector is unused. */
  ghost predicate NoneFree(sector: Sector, i: nat)
    requires i <= ENTRIES_PER_SECTOR
  {
    forall j :: 0 <= j < i ==> EntryAt(sector, j).used != 0
  }

  /** The names of a table sector's files are NUL-terminated. */
  ghost predicate NamesEnd(sector: Sector) {
    forall j :: 0 <= j < ENTRIES_PER_SECTOR && EntryAt(sector, j).used != 0 ==> 0 in EntryAt(sector, j).name
  }

  lemma NamesEnded(d: DiskImage, s: nat)
    requires Wf(d) && s < TABLE_SECTORS
    ensures NamesEnd(d[TABLE_SECTOR + s])
  {
    hide TableOk, Table, EntryAt;
    var sector := d[TABLE_SECTOR + s];
    forall j | 0 <= j < ENTRIES_PER_SECTOR && EntryAt(sector, j).used != 0
      ensures 0 in EntryAt(sector, j).name
    {
      SlotIsEntry(d, s, j);
      UsedEntryOk(Table(d), ENTRIES_PER_SECTOR * s + j);
    }
  }

  lemma FindSlotRange(t: seq<Entry>, name: seq<byte>, k: nat)
    requires k == |t|
    ensures FindSlot(t, name, k) == k
  {
  }

  lemma FreeSlotRange(t: seq<Entry>, k: nat)
    requires k == |t|
    ensures FreeSlot(t, k) == k
  {
  }

  /** A scan result for one sector as a step of the scan of the table. */
  lemma {:induction false} FindSlotInSector(d: DiskImage, name: Name, s: nat, i: nat)
    requires s < TABLE_SECTORS && i <= ENTRIES_PER_SECTOR
    requires NoneNamed(d[TABLE_SECTOR + s], name, i)
    requires i < ENTRIES_PER_SECTOR ==> HasName(EntryAt(d[TABLE_SECTOR + s], i), name)
    ensures FindSlot(Table(d), name, ENTRIES_PER_SECTOR * s) ==
      if i < ENTRIES_PER_SECTOR then ENTRIES_PER_SECTOR * s + i
      else FindSlot(Table(d), name, ENTRIES_PER_SECTOR * s + ENTRIES_PER_SECTOR)
  {
    hide Table, EntryAt, HasName, FindSlot;
    var j := 0;
    while j < i
      invariant j <= i
      invariant FindSlot(Table(d), name, ENTRIES_PER_SECTOR * s) == FindSlot(Table(d), name, ENTRIES_PER_SECTOR * s + j)
    {
      SlotIsEntry(d, s, j);
      FindSlotStep(Table(d), name, ENTRIES_PER_SECTOR * s + j);
      j := j + 1;
    }
    if i < ENTRIES_PER_SECTOR {
      SlotIsEntry(d, s, i);
      FindSlotStep(Table(d), name, ENTRIES_PER_SECTOR * s + i);
    }
  }

  lemma {:induction false} FreeSlotInSector(d: DiskImage, s: nat, i: nat)
    requires s < TABLE_SECTORS && i <= ENTRIES_PER_SECTOR
    requires NoneFree(d[TABLE_SECTOR + s], i)
    requires i < ENTRIES_PER_SECTOR ==> EntryAt(d[TABLE_SECTOR + s], i).used == 0
    ensures FreeSlot(Table(d), ENTRIES_PER_SECTOR * s) ==
      if i < ENTRIES_PER_SECTOR then ENTRIES_PER_SECTOR * s + i
      else FreeSlot(Table(d), ENTRIES_PER_SECTOR * s + ENTRIES_PER_SECTOR)
  {
    hide Table, EntryAt, FreeSlot;
    var j := 0;
    while j < i
      invariant j <= i
      invariant FreeSlot(Table(d), ENTRIES_PER_SECTOR * s) == FreeSlot(Table(d), ENTRIES_PER_SECTOR * s + j)
    {
      SlotIsEntry(d, s, j);
      FreeSlotStep(Table(d), ENTRIES_PER_SECTOR * s + j);
      j := j + 1;
    }
    if i < ENTRIES_PER_SECTOR {
      SlotIsEntry(d, s, i);
      FreeSlotStep(Table(d), ENTRIES_PER_SECTOR * s + i);
    }
  }

  method FillSuperblock(sector: array<byte>)
    requires sector.Length == SECTOR_SIZE
    modifies sector
    ensures sector[..] == Superblock()
  {
    Memset(sector, 0, 0, SECTOR_SIZE);
    StoreU32(sector, 0, 0x53465331);
    StoreU32(sector, 4, 1);
    StoreU32(sector, 8, 0);
    StoreU32(sector, 12, DATA_SECTOR);
  }

  function Least(a: nat, b: nat): nat {
    if a < b then a else b
  }

  lemma PatchNothing(was: seq<byte>, bytes: seq<byte>)
    ensures Patch(was, 0, bytes[..0]) == was
  {
  }

  /** Copying the next piece behind what is copied already. */
  lemma PatchMore(was: seq<byte>, bytes: seq<byte>, offset: nat, n: nat)
    requires offset + n <= |bytes| <= |was|
    ensures Patch(Patch(was, 0, bytes[..offset]), offset, bytes[offset..offset + n]) == Patch(was, 0, bytes[..offset + n])
  {
  }

  /** The table prefix of `n` slots reserves sector `x`. */
  ghost predicate OccupiedBelow(t: seq<Entry>, n: nat, x: int)
    requires n <= |t|
  {
    exists k :: 0 <= k < n && InExtent(t[k], x)
  }

  /** One entry's part of the occupancy scan. */
  method MarkExtent(used: array<bool>, entry: Entry, ghost t: seq<Entry>, ghost k: nat)
    requires used.Length == DATA_SECTORS && k < |t| && t[k] == entry
    requires entry.used != 0 ==> EntryOk(entry)
    requires forall x :: 0 <= x < DATA_SECTORS ==> (used[x] <==> OccupiedBelow(t, k, DATA_SECTOR + x))
    modifies used
    ensures forall x :: 0 <= x < DATA_SECTORS ==> (used[x] <==> OccupiedBelow(t, k + 1, DATA_SECTOR + x))
  {
    if entry.used == 0 || entry.start == 0 {
      return;
    }
    var usedSectors := SectorCount(entry.size);
    SectorCountIsExactBelowWrap(entry.size);
    for j := 0 to usedSectors
      invariant forall x :: 0 <= x < DATA_SECTORS ==>
        (used[x] <==> OccupiedBelow(t, k, DATA_SECTOR + x) || entry.start <= DATA_SECTOR + x < entry.start + j)
    {
      if entry.start >= DATA_SECTOR {
        var index := entry.start - DATA_SECTOR + j;
        if index < DATA_SECTORS {
          used[index] := true;
        }
      }
    }
  }

  /** The first-fit scan over the occupancy array. */
  method FirstFreeRun(used: array<bool>, count: nat, ghost t: seq<Entry>) returns (r: nat)
    requires used.Length == DATA_SECTORS
    requires forall x :: 0 <= x < DATA_SECTORS ==> (used[x] <==> Occupied(t, DATA_SECTOR + x))
    ensures IsAllocation(t, count, r)
  {
    var freeCount := 0;
    for i := 0 to DATA_SECTORS
      invariant freeCount <= i && (count > 0 ==> freeCount < count)
      invariant forall x :: i - freeCount <= x < i ==> !used[x]
      invariant freeCount < i ==> used[i - freeCount - 1]
      invariant count > 0 ==> forall s :: s + count <= DATA_SECTOR + i ==> !FreeRun(t, s, count)
    {
      if !used[i] {
        freeCount := freeCount + 1;
        if freeCount == count {
          r := DATA_SECTOR + i - count + 1;
          forall x | r <= x < r + count
            ensures !Occupied(t, x)
          {
            assert !used[x - DATA_SECTOR] && x == DATA_SECTOR + (x - DATA_SECTOR);
          }
          return;
        }
      } else {
        freeCount := 0;
        assert Occupied(t, DATA_SECTOR + i);
      }
    }
    return 0;
  }

  /** The byte stores that turn a slot of the sector buffer into a new file's entry. */
  method FillFreshEntry(sector: array<byte>, i: nat, name: Name)
    requires sector.Length == SECTOR_SIZE && i < ENTRIES_PER_SECTOR
    modifies sector
    ensures sector[..] == WithEntry(old(sector[..]), i, FreshEntry(name))
  {
    hide EncodeEntry, FreshEntry, Patch;
    var at := ENTRY_SIZE * i;
    NameSlot(sector, at, name);
    FillFields(sector, at, Patch(Zeros(ENTRY_SIZE), 0, name + [0]), old(sector[..]));
    FreshRecord(name);
  }

  /** Clears a record and stores the name in it. */
  method NameSlot(sector: array<byte>, at: nat, name: Name)
    requires at + ENTRY_SIZE <= sector.Length
    modifies sector
    ensures sector[..] == Patch(old(sector[..]), at, Patch(Zeros(ENTRY_SIZE), 0, name + [0]))
  {
    hide Patch, CStr;
    ghost var was := sector[..];
    Memset(sector, at, 0, ENTRY_SIZE);
    assert seq(ENTRY_SIZE, _ => 0 as byte) == Zeros(ENTRY_SIZE);
    CStrOf(name, [0]);
    Strcpy(sector, at, name + [0]);
    PatchInside(was, at, Zeros(ENTRY_SIZE), 0, name + [0]);
  }

  /** The used flag, the size and the start of a record that so far holds `record`. */
  method FillFields(sector: array<byte>, at: nat, ghost record: seq<byte>, ghost was: seq<byte>)
    requires at + ENTRY_SIZE <= sector.Length == |was| && |record| == ENTRY_SIZE
    requires sector[..] == Patch(was, at, record)
    modifies sector
    ensures sector[..] == Patch(was, at, Patch(Patch(Patch(record, 40, [1]), 36, Le32(0)), 32, Le32(0)))
  {
    hide Patch;
    sector[at + 40] := 1;
    assert sector[..] == Patch(Patch(was, at, record), at + 40, [1]);
    PatchInside(was, at, record, 40, [1]);
    ghost var r2 := Patch(record, 40, [1]);
    StoreU32(sector, at + 36, 0);
    PatchInside(was, at, r2, 36, Le32(0));
    StoreU32(sector, at + 32, 0);
    PatchInside(was, at, Patch(r2, 36, Le32(0)), 32, Le32(0));
  }

  lemma FreshRecord(name: Name)
    ensures Patch(Patch(Patch(Patch(Zeros(ENTRY_SIZE), 0, name + [0]), 40, [1]), 36, Le32(0)), 32, Le32(0))
         == EncodeEntry(FreshEntry(name))
  {
    hide Patch;
    forall j | 0 <= j < ENTRY_SIZE
      ensures EncodeEntry(FreshEntry(name))[j] == (if j < |name| then name[j] else if j == 40 then 1 else 0)
    {
    }
  }

  lemma BlankRecord()
    ensures EncodeEntry(BlankEntry()) == Zeros(ENTRY_SIZE)
  {
  }

  lemma FreeSlotStep(t: seq<Entry>, k: nat)
    requires k < |t|
    ensures FreeSlot(t, k) == if t[k].used == 0 then k else FreeSlot(t, k + 1)
  {
  }

  /** A write plan runs as its data writes and then, if they all completed, the table
      write, whose sector the data writes have left alone. */
  lemma PlanInTwoSteps(d: DiskImage, name: Name, data: FileData, fails: nat -> bool, first: nat)
    requires Wf(d) && WritePlan(d, name, data).Some?
    ensures SlotFor(d, name) < SLOTS && TargetStart(Table(d), EntryFor(d, name), data) < WORD
    ensures var start, n := TargetStart(Table(d), EntryFor(d, name), data), Sectors(|data|);
            var plan, ios := WritePlan(d, name, data).value, DataIos(start, data);
            var k, k' := Completed(fails, first, n), Completed(fails, first, n + 1);
            var mid := Apply(d, ios[..n]);
            var s := TABLE_SECTOR + SlotFor(d, name) / ENTRIES_PER_SECTOR;
            var e := Rewritten(EntryFor(d, name), start, data);
            && |plan| == n + 1
            && (k < n ==> k' == k && plan[..k'] == ios[..k])
            && (k == n ==>
                && mid[s] == d[s]
                && k' == (if fails(first + n) then n else n + 1)
                && Apply(d, plan[..k']) == if fails(first + n) then mid else
                     ApplyOne(mid, Io(s, WithEntry(d[s], SlotFor(d, name) % ENTRIES_PER_SECTOR, e))))
  {
    hide TableOk, Table, FindSlot, Apply, DataIos, Chunk, WithEntry, Allocation, Completed, TargetStart, HasName;
    WriterSlot(d, name, data);
    CompletedOneMore(fails, first, Sectors(|data|));
    DataPhase(d, name, data, Sectors(|data|));
    var plan, n := WritePlan(d, name, data).value, Sectors(|data|);
    var ios := DataIos(TargetStart(Table(d), EntryFor(d, name), data), data);
    assert forall i :: 0 <= i <= n ==> plan[..i] == ios[..i];
    assert plan[..n + 1] == plan;
    ApplyLonger(d, plan, n);
  }

  /** The bytes that a file has in its i-th sector. */
  lemma BytesOfSector(d: DiskImage, start: nat, size: nat, i: nat, n: nat)
    requires start + Sectors(size) <= |d| && i < Sectors(size)
    requires n == if size - 512 * i > 512 then 512 else size - 512 * i
    ensures 0 <= n <= 512 && 512 * i + n <= size
    ensures d[start + i][..n] == BytesAt(d, start, size)[512 * i..512 * i + n]
  {
    forall x | 512 * i <= x < 512 * i + n
      ensures d[start + i][x - 512 * i] == BytesAt(d, start, size)[x]
    {
      assert x / 512 == i && x % 512 == x - 512 * i;
    }
  }

  lemma SlotIsEntry(d: DiskImage, s: nat, i: nat)
    requires s < TABLE_SECTORS && i < ENTRIES_PER_SECTOR
    ensures Table(d)[ENTRIES_PER_SECTOR * s + i] == EntryAt(d[TABLE_SECTOR + s], i)
    ensures (ENTRIES_PER_SECTOR * s + i) / ENTRIES_PER_SECTOR == s
    ensures (ENTRIES_PER_SECTOR * s + i) % ENTRIES_PER_SECTOR == i
  {
  }

  lemma SlotSectorIs(d: DiskImage, s: nat, i: nat, e: Entry)
    requires s < TABLE_SECTORS && i < ENTRIES_PER_SECTOR
    ensures SlotSector(d, ENTRIES_PER_SECTOR * s + i, e) == WithEntry(d[TABLE_SECTOR + s], i, e)
  {
  }

  lemma FindSlotStep(t: seq<Entry>, name: seq<byte>, k: nat)
    requires k < |t|
    ensures FindSlot(t, name, k) == if HasName(t[k], name) then k else FindSlot(t, name, k + 1)
  {
  }
}
