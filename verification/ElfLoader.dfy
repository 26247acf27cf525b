/** The loading loop of kernel/elf_loader.c over one memory that holds both the image and
    the places it is loaded to. */
module ElfLoader {
  import opened Bytes
  import opened LibkString

  const HEADER_SIZE := 52
  const PHDR_SIZE := 32
  const PT_LOAD := 1

  /** The fields of a program header that the loader reads. */
  datatype Segment = Segment(kind: u32, offset: u32, vaddr: u32, filesz: u32, memsz: u32)

  function Half(m: seq<byte>, a: nat): nat
    requires a + 2 <= |m|
  {
    m[a] as int + 256 * m[a + 1] as int
  }

  function SegmentAt(m: seq<byte>, a: nat): Segment
    requires a + PHDR_SIZE <= |m|
  {
    Segment(WordAt(m, a), WordAt(m, a + 4), WordAt(m, a + 8), WordAt(m, a + 16), WordAt(m, a + 20))
  }

  /** The identification and type fields that the loader accepts. */
  predicate GoodHeader(m: seq<byte>, image: nat)
    requires image + HEADER_SIZE <= |m|
  {
    && m[image] == 0x7F && m[image + 1] == 69 && m[image + 2] == 76 && m[image + 3] == 70
    && m[image + 4] == 1
    && m[image + 5] == 1
    && WordAt(m, image + 20) == 1
    && Half(m, image + 18) == 3
    && Half(m, image + 16) == 2
  }

  function TableStart(m: seq<byte>, image: nat): nat
    requires image + HEADER_SIZE <= |m|
  {
    image + WordAt(m, image + 28)
  }

  function SegmentCount(m: seq<byte>, image: nat): nat
    requires image + HEADER_SIZE <= |m|
  {
    Half(m, image + 44)
  }

  function Segments(m: seq<byte>, image: nat): (segments: seq<Segment>)
    requires image + HEADER_SIZE <= |m|
    requires TableStart(m, image) + PHDR_SIZE * SegmentCount(m, image) <= |m|
    ensures |segments| == SegmentCount(m, image)
  {
    seq(SegmentCount(m, image), i requires 0 <= i < SegmentCount(m, image) =>
      SegmentAt(m, TableStart(m, image) + PHDR_SIZE * i))
  }

  /** The bytes that loading a segment writes. */
  function Extent(s: Segment): nat {
    if s.memsz > s.filesz then s.memsz else s.filesz
  }

  predicate Covers(s: Segment, a: int) {
    s.kind == PT_LOAD && s.vaddr <= a < s.vaddr + Extent(s)
  }

  /** The image occupies [image, end): its headers and file contents lie inside, and no
      loaded segment overlaps it or the end of memory. */
  ghost predicate Loadable(m: seq<byte>, image: nat, end: nat) {
    && image + HEADER_SIZE <= end <= |m| <= WORD
    && TableStart(m, image) + PHDR_SIZE * SegmentCount(m, image) <= end
    && forall i :: 0 <= i < SegmentCount(m, image) ==> Placeable(Segments(m, image)[i], image, end, |m|)
  }

  predicate Placeable(s: Segment, image: nat, end: nat, size: nat) {
    s.kind == PT_LOAD ==>
      && image + s.offset + s.filesz <= end
      && s.vaddr + Extent(s) <= size
      && (Extent(s) == 0 || s.vaddr + Extent(s) <= image || end <= s.vaddr)
  }

  // ----- what each byte becomes -----

  /** The byte that a covering segment puts at address `a`. */
  function SegmentByte(m: seq<byte>, image: nat, s: Segment, a: int): byte
    requires Covers(s, a) && image + s.offset + s.filesz <= |m|
  {
    if a < s.vaddr + s.filesz then m[image + s.offset + (a - s.vaddr)] else 0
  }

  /** Memory after loading the first `n` segments, one after the other. */
  ghost predicate LoadedUpTo(m: seq<byte>, m': seq<byte>, image: nat, end: nat, n: nat)
    requires Loadable(m, image, end) && n <= SegmentCount(m, image)
  {
    && |m'| == |m|
    && forall a :: 0 <= a < |m| ==> m'[a] == ByteAfter(m, image, end, n, a)
  }

  ghost function ByteAfter(m: seq<byte>, image: nat, end: nat, n: nat, a: nat): byte
    requires Loadable(m, image, end) && n <= SegmentCount(m, image) && a < |m|
    decreases n
  {
    if n == 0 then m[a]
    else
      var s := Segments(m, image)[n - 1];
      assert Placeable(s, image, end, |m|);
      if Covers(s, a) then SegmentByte(m, image, s, a) else ByteAfter(m, image, end, n - 1, a)
  }

  /** A byte is decided by the last loaded segment that covers it. */
  lemma {:induction false} LastSegmentDecides(m: seq<byte>, image: nat, end: nat, n: nat, a: nat, i: nat)
    requires Loadable(m, image, end) && i < n <= SegmentCount(m, image) && a < |m|
    requires Covers(Segments(m, image)[i], a)
    requires forall j :: i < j < n ==> !Covers(Segments(m, image)[j], a)
    ensures Placeable(Segments(m, image)[i], image, end, |m|)
    ensures ByteAfter(m, image, end, n, a) == SegmentByte(m, image, Segments(m, image)[i], a)
    decreases n
  {
    hide Segments, Covers;
    if i < n - 1 {
      assert !Covers(Segments(m, image)[n - 1], a);
      LastSegmentDecides(m, image, end, n - 1, a, i);
    }
  }

  /** A byte that no loaded segment covers is unchanged. */
  lemma {:induction false} UncoveredByteStays(m: seq<byte>, image: nat, end: nat, n: nat, a: nat)
    requires Loadable(m, image, end) && n <= SegmentCount(m, image) && a < |m|
    requires forall i :: 0 <= i < n ==> !Covers(Segments(m, image)[i], a)
    ensures ByteAfter(m, image, end, n, a) == m[a]
    decreases n
  {
    hide Segments, Covers;
    if n > 0 {
      UncoveredByteStays(m, image, end, n - 1, a);
    }
  }

  /** Loading leaves the image itself alone. */
  lemma {:induction false} ImageKept(m: seq<byte>, image: nat, end: nat, n: nat, a: nat)
    requires Loadable(m, image, end) && n <= SegmentCount(m, image) && image <= a < end
    ensures ByteAfter(m, image, end, n, a) == m[a]
    decreases n
  {
    if n > 0 {
      assert Placeable(Segments(m, image)[n - 1], image, end, |m|);
      ImageKept(m, image, end, n - 1, a);
    }
  }

  lemma ImageSlice(m: seq<byte>, m': seq<byte>, image: nat, end: nat, n: nat, lo: nat, hi: nat)
    requires Loadable(m, image, end) && n <= SegmentCount(m, image) && LoadedUpTo(m, m', image, end, n)
    requires image <= lo <= hi <= end
    ensures m'[lo..hi] == m[lo..hi]
  {
    forall a | lo <= a < hi
      ensures m'[a] == m[a]
    {
      ImageKept(m, image, end, n, a);
    }
  }

  // ----- the same on the bytes of the file -----

  /** A header of 52 bytes that elf_load accepts: the magic number, 32-bit, little-endian;
      an executable for the 386, version 1. */
  predicate Accepted(header: seq<byte>)
    requires |header| == 52
  {
    header[..6] == [0x7F, 0x45, 0x4C, 0x46, 1, 1] && header[16..24] == [2, 0, 3, 0, 1, 0, 0, 0]
  }

  lemma AcceptedIsGood(m: seq<byte>, image: nat)
    requires image + HEADER_SIZE <= |m|
    ensures GoodHeader(m, image) <==> Accepted(m[image..image + 52])
  {
    var h := m[image..image + 52];
    assert forall i :: 0 <= i < 52 ==> h[i] == m[image + i];
    assert h[..6] == [h[0], h[1], h[2], h[3], h[4], h[5]];
    assert h[16..24] == [h[16], h[17], h[18], h[19], h[20], h[21], h[22], h[23]];
    WordIsNumber(m, image + 20);
    OneSpelled(m, image + 20);
  }

  /** The address of the i-th program header: the offset at byte 28, 32 bytes each. */
  function HeaderAddress(m: seq<byte>, image: nat, i: nat): int
    requires image + 52 <= |m|
  {
    image + Number(m, image + 28) + 32 * i
  }

  /** The number of program headers, at byte 44. */
  function HeaderCount(m: seq<byte>, image: nat): int
    requires image + 52 <= |m|
  {
    m[image + 44] + 256 * m[image + 45] as int
  }

  /** The program header at `h` is of type 1 and its place, the words at 8 and at 16 or
      20, reaches over address `a`. */
  predicate Reaches(m: seq<byte>, h: int, a: int)
    requires 0 <= h && h + 32 <= |m|
  {
    && m[h..h + 4] == [1, 0, 0, 0]
    && Number(m, h + 8) <= a
    && (a < Number(m, h + 8) + Number(m, h + 16) || a < Number(m, h + 8) + Number(m, h + 20))
  }

  /** Every byte is what the last program header that reaches it says: a byte of the file
      from the offset at 4 on, as far as the file size at 16 goes, and then 0. Where none
      reaches, nothing has changed. */
  ghost predicate LoadedByHeaders(m: seq<byte>, m': seq<byte>, image: nat) {
    && |m'| == |m| && image + 52 <= |m|
    && (forall i :: 0 <= i < HeaderCount(m, image) ==>
         0 <= HeaderAddress(m, image, i) && HeaderAddress(m, image, i) + 32 <= |m|)
    && (forall i, a :: 0 <= i < HeaderCount(m, image) && 0 <= a < |m| && LastToReach(m, image, i, a) ==>
         var h := HeaderAddress(m, image, i);
         if a < Number(m, h + 8) + Number(m, h + 16) then
           && 0 <= image + Number(m, h + 4) + (a - Number(m, h + 8)) < |m|
           && m'[a] == m[image + Number(m, h + 4) + (a - Number(m, h + 8))]
         else
           m'[a] == 0)
    && (forall a :: 0 <= a < |m| && ReachedByNone(m, image, a) ==> m'[a] == m[a])
  }

  ghost predicate LastToReach(m: seq<byte>, image: nat, i: int, a: int)
    requires image + 52 <= |m| && 0 <= i < HeaderCount(m, image)
    requires forall j :: 0 <= j < HeaderCount(m, image) ==> 0 <= HeaderAddress(m, image, j) && HeaderAddress(m, image, j) + 32 <= |m|
  {
    && Reaches(m, HeaderAddress(m, image, i), a)
    && forall j :: i < j < HeaderCount(m, image) ==> !Reaches(m, HeaderAddress(m, image, j), a)
  }

  ghost predicate ReachedByNone(m: seq<byte>, image: nat, a: int)
    requires image + 52 <= |m|
    requires forall j :: 0 <= j < HeaderCount(m, image) ==> 0 <= HeaderAddress(m, image, j) && HeaderAddress(m, image, j) + 32 <= |m|
  {
    forall j :: 0 <= j < HeaderCount(m, image) ==> !Reaches(m, HeaderAddress(m, image, j), a)
  }

  /** One program header, decoded and read as bytes. */
  lemma HeaderIsSegment(m: seq<byte>, image: nat, end: nat, i: nat)
    requires Loadable(m, image, end) && i < SegmentCount(m, image)
    ensures SegmentCount(m, image) == HeaderCount(m, image)
    ensures 0 <= HeaderAddress(m, image, i) && HeaderAddress(m, image, i) + 32 <= |m|
    ensures var h, s := HeaderAddress(m, image, i), Segments(m, image)[i];
      && s.offset == Number(m, h + 4) && s.vaddr == Number(m, h + 8)
      && s.filesz == Number(m, h + 16) && s.memsz == Number(m, h + 20)
      && (s.kind == PT_LOAD <==> m[h..h + 4] == [1, 0, 0, 0])
  {
    hide WordAt;
    WordIsNumber(m, image + 28);
    var h := TableStart(m, image) + PHDR_SIZE * i;
    assert h == HeaderAddress(m, image, i);
    WordIsNumber(m, h);
    WordIsNumber(m, h + 4);
    WordIsNumber(m, h + 8);
    WordIsNumber(m, h + 16);
    WordIsNumber(m, h + 20);
    assert m[h..h + 4] == [m[h], m[h + 1], m[h + 2], m[h + 3]];
    OneSpelled(m, h);
  }

  lemma OneSpelled(m: seq<byte>, h: nat)
    requires h + 4 <= |m|
    ensures Number(m, h) == 1 <==> m[h] == 1 && m[h + 1] == 0 && m[h + 2] == 0 && m[h + 3] == 0
  {
  }

  lemma ReachesIsCovers(m: seq<byte>, image: nat, end: nat, i: nat, a: int)
    requires Loadable(m, image, end) && i < SegmentCount(m, image)
    ensures 0 <= HeaderAddress(m, image, i) && HeaderAddress(m, image, i) + 32 <= |m|
    ensures Reaches(m, HeaderAddress(m, image, i), a) <==> Covers(Segments(m, image)[i], a)
  {
    hide Loadable, Segments, Number, HeaderAddress;
    HeaderIsSegment(m, image, end, i);
  }

  lemma LoadingFollowsHeaders(m: seq<byte>, m': seq<byte>, image: nat, end: nat)
    requires Loadable(m, image, end) && LoadedUpTo(m, m', image, end, SegmentCount(m, image))
    ensures LoadedByHeaders(m, m', image)
  {
    hide Segments, Covers, Number, HeaderAddress, Reaches, ByteAfter, WordAt;
    var n := SegmentCount(m, image);
    assert n == HeaderCount(m, image);
    forall i | 0 <= i < n
      ensures 0 <= HeaderAddress(m, image, i) && HeaderAddress(m, image, i) + 32 <= |m|
      ensures forall a :: Reaches(m, HeaderAddress(m, image, i), a) <==> Covers(Segments(m, image)[i], a)
    {
      HeaderIsSegment(m, image, end, i);
      forall a
        ensures Reaches(m, HeaderAddress(m, image, i), a) <==> Covers(Segments(m, image)[i], a)
      {
        ReachesIsCovers(m, image, end, i, a);
      }
    }
    forall i, a | 0 <= i < n && 0 <= a < |m| && LastToReach(m, image, i, a)
      ensures var h := HeaderAddress(m, image, i);
        if a < Number(m, h + 8) + Number(m, h + 16) then
          && 0 <= image + Number(m, h + 4) + (a - Number(m, h + 8)) < |m|
          && m'[a] == m[image + Number(m, h + 4) + (a - Number(m, h + 8))]
        else
          m'[a] == 0
    {
      HeaderIsSegment(m, image, end, i);
      LastSegmentDecides(m, image, end, n, a, i);
      CoversFrom(Segments(m, image)[i], a);
    }
    forall a | 0 <= a < |m| && ReachedByNone(m, image, a)
      ensures m'[a] == m[a]
    {
      UncoveredByteStays(m, image, end, n, a);
    }
  }

  lemma CoversFrom(s: Segment, a: int)
    requires Covers(s, a)
    ensures s.kind == PT_LOAD && s.vaddr <= a
  {
  }

  /** The headers of a small program: the program header directly behind the file header,
      one loaded segment at 2 MiB, 4 bytes of the file from offset 84 on and 4 bytes more
      in memory. */
  predicate SmallProgramAt(m: seq<byte>, image: nat)
    requires image + 88 <= |m|
  {
    && Accepted(m[image..image + 52])
    && m[image + 28..image + 32] == [52, 0, 0, 0] && m[image + 44..image + 46] == [1, 0]
    && m[image + 52..image + 56] == [1, 0, 0, 0]
    && m[image + 56..image + 60] == [84, 0, 0, 0]
    && m[image + 60..image + 64] == [0, 0, 0x20, 0]
    && m[image + 68..image + 72] == [4, 0, 0, 0]
    && m[image + 72..image + 76] == [8, 0, 0, 0]
  }

  lemma Spelled(m: seq<byte>, a: nat, b: seq<byte>)
    requires a + 4 <= |m| && |b| == 4 && m[a..a + 4] == b
    ensures Number(m, a) == b[0] as int + 256 * b[1] as int + 65536 * b[2] as int + 16777216 * b[3] as int
  {
    assert m[a] == b[0] && m[a + 1] == b[1] && m[a + 2] == b[2] && m[a + 3] == b[3];
  }

  lemma SmallNumbers(m: seq<byte>, image: nat)
    requires image + 88 <= |m| && SmallProgramAt(m, image)
    ensures HeaderAddress(m, image, 0) == image + 52 && HeaderCount(m, image) == 1
    ensures m[image + 52..image + 56] == [1, 0, 0, 0]
    ensures Number(m, image + 56) == 84 && Number(m, image + 60) == 0x20_0000
    ensures Number(m, image + 68) == 4 && Number(m, image + 72) == 8
  {
    hide Number, Accepted;
    Spelled(m, image + 28, [52, 0, 0, 0]);
    Spelled(m, image + 56, [84, 0, 0, 0]);
    Spelled(m, image + 60, [0, 0, 0x20, 0]);
    Spelled(m, image + 68, [4, 0, 0, 0]);
    Spelled(m, image + 72, [8, 0, 0, 0]);
    assert m[image + 44] == m[image + 44..image + 46][0] && m[image + 45] == m[image + 44..image + 46][1];
  }

  /** Its 4 bytes land at 2 MiB, the next 4 become zero, and nothing else changes. */
  lemma SmallProgram(m: seq<byte>, m': seq<byte>, image: nat)
    requires image + 88 <= 0x20_0000 && 0x20_0008 <= |m|
    requires SmallProgramAt(m, image) && LoadedByHeaders(m, m', image)
    ensures forall a :: 0 <= a < |m| ==>
      m'[a] == if 0x20_0000 <= a < 0x20_0004 then m[image + 84 + (a - 0x20_0000)]
        else if 0x20_0004 <= a < 0x20_0008 then 0 else m[a]
  {
    hide Number, HeaderAddress, HeaderCount, Accepted;
    SmallNumbers(m, image);
    forall a | 0 <= a < |m|
      ensures m'[a] == if 0x20_0000 <= a < 0x20_0004 then m[image + 84 + (a - 0x20_0000)]
        else if 0x20_0004 <= a < 0x20_0008 then 0 else m[a]
    {
      if 0x20_0000 <= a < 0x20_0008 {
        assert LastToReach(m, image, 0, a);
      } else {
        assert ReachedByNone(m, image, a);
      }
    }
  }

  /** elf_load can be called on it. */
  lemma SmallProgramLoadable(m: seq<byte>, image: nat)
    requires image + 88 <= 0x20_0000 && 0x20_0008 <= |m| <= WORD
    requires SmallProgramAt(m, image)
    ensures Loadable(m, image, image + 88)
  {
    hide Number, WordAt, Accepted;
    SmallNumbers(m, image);
    Spelled(m, image + 28, [52, 0, 0, 0]);
    WordIsNumber(m, image + 28);
    WordIsNumber(m, image + 56);
    WordIsNumber(m, image + 60);
    WordIsNumber(m, image + 68);
    WordIsNumber(m, image + 72);
  }

  class Memory {
    const mem: array<byte>

    constructor (mem: array<byte>)
      ensures this.mem == mem
    {
      this.mem := mem;
    }

    /** The checks at the start of elf_load, in their order. */
    method CheckHeader(image: nat) returns (good: bool)
      requires image + HEADER_SIZE <= mem.Length
      ensures good == GoodHeader(mem[..], image)
    {
      hide WordAt;
      if mem[image] != 0x7F || mem[image + 1] != 69 || mem[image + 2] != 76 || mem[image + 3] != 70 {
        return false;
      }
      if mem[image + 4] != 1 {
        return false;
      }
      if mem[image + 5] != 1 {
        return false;
      }
      if WordAt(mem[..], image + 20) != 1 {
        return false;
      }
      if Half(mem[..], image + 18) != 3 {
        return false;
      }
      if Half(mem[..], image + 16) != 2 {
        return false;
      }
      return true;
    }

    /** elf_load up to the jump to the entry point. What it reads lies below `end`. */
    method Load(image: nat, ghost end: nat) returns (rc: int)
      requires image + HEADER_SIZE <= mem.Length
      requires GoodHeader(mem[..], image) ==> Loadable(mem[..], image, end)
      modifies mem
      ensures rc == if GoodHeader(old(mem[..]), image) then 0 else -1
      ensures rc == -1 ==> mem[..] == old(mem[..])
      ensures rc == 0 ==>
        LoadedUpTo(old(mem[..]), mem[..], image, end, SegmentCount(old(mem[..]), image))
      ensures rc == 0 <==> Accepted(old(mem[image..image + HEADER_SIZE]))
      ensures rc == 0 ==> LoadedByHeaders(old(mem[..]), mem[..], image)
    {
      hide GoodHeader, Loadable, LoadedUpTo, LoadedByHeaders, Accepted;
      AcceptedIsGood(mem[..], image);
      assert mem[image..image + HEADER_SIZE] == mem[..][image..image + HEADER_SIZE];
      var good := CheckHeader(image);
      if !good {
        return -1;
      }
      ghost var m := mem[..];
      LoadSegments(image, end);
      LoadingFollowsHeaders(m, mem[..], image, end);
      return 0;
    }

    /** The loop over the program headers. */
    method LoadSegments(image: nat, ghost end: nat)
      requires Loadable(mem[..], image, end)
      modifies mem
      ensures LoadedUpTo(old(mem[..]), mem[..], image, end, SegmentCount(old(mem[..]), image))
    {
      hide LoadedUpTo, WordAt, Segments;
      ghost var m := mem[..];
      var phdr := image + WordAt(mem[..], image + 28);
      var count := Half(mem[..], image + 44);
      NothingLoaded(m, image, end);
      for i := 0 to count
        invariant LoadedUpTo(m, mem[..], image, end, i)
      {
        TableEntryKept(m, mem[..], image, end, i);
        var segment := SegmentAt(mem[..], phdr + PHDR_SIZE * i);
        if segment.kind == PT_LOAD {
          LoadSegment(image, end, segment, i, m);
        } else {
          SegmentSkipped(m, mem[..], image, end, i);
        }
      }
    }

    /** Copies a segment's file bytes and clears the rest of its memory. */
    method LoadSegment(image: nat, ghost end: nat, segment: Segment, ghost i: nat, ghost m: seq<byte>)
      requires Loadable(m, image, end) && i < SegmentCount(m, image)
      requires segment == Segments(m, image)[i] && segment.kind == PT_LOAD
      requires LoadedUpTo(m, mem[..], image, end, i)
      modifies mem
      ensures LoadedUpTo(m, mem[..], image, end, i + 1)
    {
      hide LoadedUpTo, Loadable, Segments, Patch, Covers;
      ghost var before := mem[..];
      SegmentFits(m, before, image, end, i);
      var source := image + segment.offset;
      ImageSlice(m, before, image, end, i, source, source + segment.filesz);
      StoreSegment(source, segment);
      StoredBytes(before, mem[..], m, image, segment);
      SegmentStored(m, before, mem[..], image, end, i);
    }

    /** The memcpy and memset of one segment. */
    method StoreSegment(source: nat, s: Segment)
      requires source + s.filesz <= mem.Length && s.vaddr + Extent(s) <= mem.Length
      requires s.vaddr + Extent(s) <= source || source + s.filesz <= s.vaddr
      modifies mem
      ensures var copied := Patch(old(mem[..]), s.vaddr, old(mem[..])[source..source + s.filesz]);
        mem[..] == if s.memsz > s.filesz
          then Patch(copied, s.vaddr + s.filesz, seq(s.memsz - s.filesz, o => 0)) else copied
    {
      hide Patch;
      assert mem[source..source + s.filesz] == mem[..][source..source + s.filesz];
      Memcpy(mem, s.vaddr, mem, source, s.filesz);
      if s.memsz > s.filesz {
        Memset(mem, s.vaddr + s.filesz, 0, s.memsz - s.filesz);
      }
    }
  }

  lemma SegmentFits(m: seq<byte>, m': seq<byte>, image: nat, end: nat, i: nat)
    requires Loadable(m, image, end) && i < SegmentCount(m, image) && LoadedUpTo(m, m', image, end, i)
    ensures |m'| == |m| && end <= |m| && Placeable(Segments(m, image)[i], image, end, |m|)
  {
  }

  /** The copied bytes are the file bytes of the segment. */
  lemma CopiedBytes(before: seq<byte>, m: seq<byte>, image: nat, s: Segment, a: nat)
    requires s.kind == PT_LOAD && |before| == |m| && s.vaddr + Extent(s) <= |m|
    requires image + s.offset + s.filesz <= |m|
    requires var source := image + s.offset; before[source..source + s.filesz] == m[source..source + s.filesz]
    requires a < |m|
    ensures var source := image + s.offset;
      Patch(before, s.vaddr, before[source..source + s.filesz])[a] ==
        if s.vaddr <= a < s.vaddr + s.filesz then SegmentByte(m, image, s, a) else before[a]
  {
    var source := image + s.offset;
    if s.vaddr <= a < s.vaddr + s.filesz {
      assert m[source..source + s.filesz][a - s.vaddr] == m[source + (a - s.vaddr)];
    }
  }

  /** The two writes of a segment, byte by byte. */
  lemma StoredBytes(before: seq<byte>, after: seq<byte>, m: seq<byte>, image: nat, s: Segment)
    requires s.kind == PT_LOAD && |before| == |m| && s.vaddr + Extent(s) <= |m|
    requires image + s.offset + s.filesz <= |m|
    requires var source := image + s.offset;
      && before[source..source + s.filesz] == m[source..source + s.filesz]
      && var copied := Patch(before, s.vaddr, before[source..source + s.filesz]);
      after == if s.memsz > s.filesz
        then Patch(copied, s.vaddr + s.filesz, seq(s.memsz - s.filesz, o => 0)) else copied
    ensures |after| == |m|
    ensures forall a :: 0 <= a < |m| ==>
      after[a] == if Covers(s, a) then SegmentByte(m, image, s, a) else before[a]
  {
    var source := image + s.offset;
    ghost var copied := Patch(before, s.vaddr, before[source..source + s.filesz]);
    forall a | 0 <= a < |m|
      ensures after[a] == if Covers(s, a) then SegmentByte(m, image, s, a) else before[a]
    {
      CopiedBytes(before, m, image, s, a);
    }
  }

  lemma WordOfSlice(m: seq<byte>, m': seq<byte>, at: nat, k: nat)
    requires at + PHDR_SIZE <= |m| && |m'| == |m| && k + 4 <= PHDR_SIZE
    requires m'[at..at + PHDR_SIZE] == m[at..at + PHDR_SIZE]
    ensures WordAt(m', at + k) == WordAt(m, at + k)
  {
    SliceOfSlice(m, at, at + PHDR_SIZE, k, k + 4);
    SliceOfSlice(m', at, at + PHDR_SIZE, k, k + 4);
  }

  /** Program headers read during the loop are those of the image as it was. */
  lemma TableEntryKept(m: seq<byte>, m': seq<byte>, image: nat, end: nat, i: nat)
    requires Loadable(m, image, end) && i < SegmentCount(m, image) && LoadedUpTo(m, m', image, end, i)
    ensures TableStart(m, image) + PHDR_SIZE * i + PHDR_SIZE <= |m'|
    ensures SegmentAt(m', TableStart(m, image) + PHDR_SIZE * i) == Segments(m, image)[i]
  {
    hide WordAt, ByteAfter;
    var at := TableStart(m, image) + PHDR_SIZE * i;
    ImageSlice(m, m', image, end, i, at, at + PHDR_SIZE);
    WordOfSlice(m, m', at, 0);
    WordOfSlice(m, m', at, 4);
    WordOfSlice(m, m', at, 8);
    WordOfSlice(m, m', at, 16);
    WordOfSlice(m, m', at, 20);
  }

  lemma NothingLoaded(m: seq<byte>, image: nat, end: nat)
    requires Loadable(m, image, end)
    ensures LoadedUpTo(m, m, image, end, 0)
  {
  }

  lemma SegmentSkipped(m: seq<byte>, m': seq<byte>, image: nat, end: nat, i: nat)
    requires Loadable(m, image, end) && i < SegmentCount(m, image) && LoadedUpTo(m, m', image, end, i)
    requires Segments(m, image)[i].kind != PT_LOAD
    ensures LoadedUpTo(m, m', image, end, i + 1)
  {
  }

  lemma SegmentStored(m: seq<byte>, before: seq<byte>, after: seq<byte>, image: nat, end: nat, i: nat)
    requires Loadable(m, image, end) && i < SegmentCount(m, image) && LoadedUpTo(m, before, image, end, i)
    requires var s := Segments(m, image)[i];
      && s.kind == PT_LOAD && |after| == |m| && Placeable(s, image, end, |m|)
      && forall a :: 0 <= a < |m| ==> after[a] == if Covers(s, a) then SegmentByte(m, image, s, a) else before[a]
    ensures LoadedUpTo(m, after, image, end, i + 1)
  {
  }
}
