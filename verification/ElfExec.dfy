/** elf_exec (kernel/elf_loader.c): the image is read into a heap buffer, loaded to the
    places its segments name, and the buffer freed, all in one memory. */
module ElfExec {
  import opened Bytes
  import opened HeapBlocks
  import K = KernelHeap
  import L = ElfLoader

  // ----- the heap as a list of blocks -----

  /** The heap after elf_exec for a file of `size` bytes, if nothing but kmalloc and kfree
      touches it. */
  function HeapAfterExec(h: Heap, size: int): Heap
    requires size < WORD
  {
    if size <= 0 then h
    else
      var (h', buffer) := Malloc(h, size);
      if buffer == NULL then h' else Free(h', buffer)
  }

  /** The live blocks after an allocation and the freeing of its result. */
  lemma FreshBlockOnly(h: Heap, size: u32)
    requires Inv(h) && Requestable(h, size) && Malloc(h, size).1 != NULL
    ensures Without(Live(Malloc(h, size).0.blocks), {Malloc(h, size).1}) == Live(h.blocks)
  {
    hide Live, Without, Tiled, Canonical, Sized;
    var n, bs := Align4(size), h.blocks;
    var ptr := Malloc(h, size).1;
    var i := FirstFit(bs, n);
    if i < |bs| {
      CarvedLiveWithout(bs, HEAP_START, h.top, i, n);
    } else {
      var b := Block(h.top, n, false);
      LiveConcat(bs, [b]);
      WithoutConcat(Live(bs), Live([b]), {ptr});
      LiveMembers(bs);
      LiveMembers([b]);
      NoBlockAtTop(bs, HEAP_START, h.top);
      WithoutNone(Live(bs), {ptr});
      WithoutAll(Live([b]), {ptr});
    }
  }

  /** The same blocks are live before and after, and the heap itself is unchanged unless
      the frontier had to move. */
  lemma SameBlocksLive(h: Heap, size: int)
    requires Inv(h) && size < WORD && (size > 0 ==> Requestable(h, size))
    ensures Inv(HeapAfterExec(h, size))
    ensures Live(HeapAfterExec(h, size).blocks) == Live(h.blocks)
    ensures HeapAfterExec(h, size) == h <==>
      size <= 0 || Malloc(h, size).1 == NULL || FirstFit(h.blocks, Align4(size)) < |h.blocks|
  {
    hide Inv, Live, Without, Malloc, Free, Requestable;
    if size > 0 {
      if Malloc(h, size).1 == NULL {
        MallocNullIff(h, size);
      } else {
        MallocKeepsInv(h, size);
        FreeKeepsInv(Malloc(h, size).0, Malloc(h, size).1);
        FreshBlockOnly(h, size);
        MallocThenFree(h, size);
      }
    }
  }

  // ----- what loading must leave alone -----

  predicate ClearOf(s: L.Segment, lo: nat, hi: nat) {
    s.kind == L.PT_LOAD ==> L.Extent(s) == 0 || s.vaddr + L.Extent(s) <= lo || hi <= s.vaddr
  }

  /** The segment writes no header field and no live payload of the heap. */
  predicate SparesBlocks(s: L.Segment, bs: seq<Block>) {
    forall b :: b in bs ==>
      && ClearOf(s, b.addr, b.addr + K.FIELDS)
      && (!b.free ==> ClearOf(s, Payload(b), End(b)))
  }

  /** A program of which everything that is read lies in [image, end), and whose segments
      write neither there nor to what the heap needs. Free payloads may be written. */
  ghost predicate SparesHeap(m: seq<byte>, image: nat, end: nat, bs: seq<Block>) {
    && L.Loadable(m, image, end)
    && forall i :: 0 <= i < L.SegmentCount(m, image) ==> SparesBlocks(L.Segments(m, image)[i], bs)
  }

  /** A file that, whatever follows it in memory, is no program for elf_load or one that
      spares the heap. */
  ghost predicate Harmless(file: seq<byte>, image: nat, end: nat, bs: seq<Block>, size: nat) {
    forall m: seq<byte> :: |m| == size && image + L.HEADER_SIZE <= size && Holds(m, image, file) && L.GoodHeader(m, image) ==>
      SparesHeap(m, image, end, bs)
  }

  /** The bytes are in memory from address `at` on. */
  predicate Holds(m: seq<byte>, at: nat, bytes: seq<byte>) {
    at + |bytes| <= |m| && m[at..at + |bytes|] == bytes
  }

  /** The memories agree on the header fields and the live payloads of the blocks. */
  ghost predicate HeapBytesKept(m: seq<byte>, m': seq<byte>, bs: seq<Block>) {
    && |m'| == |m|
    && forall a, b :: 0 <= a < |m| && b in bs && (b.addr <= a < b.addr + K.FIELDS || (!b.free && Payload(b) <= a < End(b))) ==>
         m'[a] == m[a]
  }

  /** Loading a program that spares the heap changes no byte that the heap needs. */
  lemma LoadSparesHeap(m: seq<byte>, m': seq<byte>, image: nat, end: nat, bs: seq<Block>)
    requires SparesHeap(m, image, end, bs)
    requires L.LoadedUpTo(m, m', image, end, L.SegmentCount(m, image))
    ensures HeapBytesKept(m, m', bs)
  {
    hide L.Segments;
    var n := L.SegmentCount(m, image);
    forall a, b | 0 <= a < |m| && b in bs && (b.addr <= a < b.addr + K.FIELDS || (!b.free && Payload(b) <= a < End(b)))
      ensures m'[a] == m[a]
    {
      forall i | 0 <= i < n
        ensures !L.Covers(L.Segments(m, image)[i], a)
      {
        assert SparesBlocks(L.Segments(m, image)[i], bs);
      }
      L.UncoveredByteStays(m, image, end, n, a);
    }
  }

  /** elf_load does not check where a segment goes. One whose zeroed part covers the size
      word of a block, with no later segment over it, destroys that block's header. */
  lemma HeaderOverwritten(m: seq<byte>, m': seq<byte>, image: nat, end: nat, i: nat, b: Block)
    requires L.Loadable(m, image, end) && i < L.SegmentCount(m, image)
    requires L.LoadedUpTo(m, m', image, end, L.SegmentCount(m, image))
    requires K.HeaderAt(m, b) && b.size > 0
    requires var s := L.Segments(m, image)[i];
      s.kind == L.PT_LOAD && s.vaddr + s.filesz <= b.addr && b.addr + 4 <= s.vaddr + s.memsz
    requires forall j :: i < j < L.SegmentCount(m, image) ==> ClearOf(L.Segments(m, image)[j], b.addr, b.addr + 4)
    ensures !K.HeaderAt(m', b)
  {
    hide L.Segments;
    var n := L.SegmentCount(m, image);
    forall a | b.addr <= a < b.addr + 4
      ensures m'[a] == 0
    {
      forall j | i < j < n
        ensures !L.Covers(L.Segments(m, image)[j], a)
      {
        assert ClearOf(L.Segments(m, image)[j], b.addr, b.addr + 4);
      }
      L.LastSegmentDecides(m, image, end, n, a, i);
    }
    assert m'[b.addr..b.addr + 4] == [0, 0, 0, 0];
  }

  lemma HeadersInside(m: seq<byte>, m': seq<byte>, bs: seq<Block>)
    requires K.Headers(m, bs) && HeapBytesKept(m, m', bs)
    ensures K.Headers(m', bs) && K.LivePayloadsKept(m, m', Live(bs))
  {
    hide Live;
    LiveMembers(bs);
    forall b | b in bs
      ensures K.HeaderAt(m', b) && (!b.free ==> K.SamePayload(m, m', b))
    {
      assert forall a :: b.addr <= a < b.addr + 5 ==> m'[a] == m[a];
      assert m'[b.addr..b.addr + 4] == m[b.addr..b.addr + 4];
    }
  }

  /** `ptr` is the payload of a live block of at least `n` bytes. */
  predicate Owned(bs: seq<Block>, ptr: nat, n: nat) {
    exists b :: b in bs && !b.free && Payload(b) == ptr && n <= b.size
  }

  lemma OwnedInside(bs: seq<Block>, top: nat, ptr: nat, n: nat)
    requires Tiled(bs, HEAP_START, top) && Owned(bs, ptr, n)
    ensures HEAP_START <= ptr && ptr + n <= top
  {
    var b :| b in bs && !b.free && Payload(b) == ptr && n <= b.size;
    var i :| 0 <= i < |bs| && bs[i] == b;
    TiledInside(bs, HEAP_START, top, i);
  }

  lemma MallocOwns(h: Heap, size: u32, n: nat)
    requires Inv(h) && Requestable(h, size) && Malloc(h, size).1 != NULL && n <= size
    ensures Owned(Malloc(h, size).0.blocks, Malloc(h, size).1, n) && IsLive(Malloc(h, size).0, Malloc(h, size).1)
    ensures HEAP_START <= Malloc(h, size).1 <= HEAP_END
  {
    hide Malloc, Requestable, Fits;
    MallocGives(h, size);
    MallocKeepsInv(h, size);
    OwnedInside(Malloc(h, size).0.blocks, Malloc(h, size).0.top, Malloc(h, size).1, n);
  }

  /** The heap once the buffer is freed again. */
  lemma BufferFreed(h: Heap, size: u32, h': Heap)
    requires size > 0 && Malloc(h, size).1 != NULL
    requires h' == Step(Malloc(h, size).0, Kfree(Malloc(h, size).1))
    ensures h' == HeapAfterExec(h, size) && h'.top == Malloc(h, size).0.top
  {
    hide Malloc;
  }

  /** What is written into a live block changes no header and no other payload. */
  lemma HeadersAround(m: seq<byte>, m': seq<byte>, bs: seq<Block>, top: nat, ptr: nat, n: nat)
    requires Tiled(bs, HEAP_START, top) && K.Headers(m, bs) && Owned(bs, ptr, n)
    requires K.SameOutside(m, m', ptr, ptr + n)
    ensures K.Headers(m', bs) && K.LivePayloadsKept(m, m', Without(Live(bs), {ptr}))
  {
    hide Tiled, Live, Without, K.HeaderAt, K.SameOutside, K.SamePayload;
    LiveMembers(bs);
    WithoutMembers(Live(bs), {ptr});
    var b0 :| b0 in bs && !b0.free && Payload(b0) == ptr && n <= b0.size;
    var i :| 0 <= i < |bs| && bs[i] == b0;
    forall b | b in bs
      ensures K.HeaderAt(m', b)
      ensures Payload(b) != ptr ==> K.SamePayload(m, m', b)
    {
      var j :| 0 <= j < |bs| && bs[j] == b;
      if i < j { TiledOrder(bs, HEAP_START, top, i, j); } else if j < i { TiledOrder(bs, HEAP_START, top, j, i); }
      K.HeaderKept(m, m', b, ptr, ptr + n);
      if i != j {
        K.OutsidePayload(m, m', b, ptr, ptr + n);
      }
    }
  }

  lemma KeptWithout(m: seq<byte>, m': seq<byte>, live: seq<Block>, gone: set<nat>)
    requires K.LivePayloadsKept(m, m', live)
    ensures K.LivePayloadsKept(m, m', Without(live, gone))
  {
    WithoutMembers(live, gone);
  }

  lemma PatchOutside(m: seq<byte>, at: nat, bytes: seq<byte>)
    requires at + |bytes| <= |m|
    ensures K.SameOutside(m, Patch(m, at, bytes), at, at + |bytes|) && Holds(Patch(m, at, bytes), at, bytes)
  {
  }

  lemma HarmlessImage(file: seq<byte>, m: seq<byte>, image: nat, end: nat, bs: seq<Block>)
    requires Harmless(file, image, end, bs, |m|) && Holds(m, image, file) && image + L.HEADER_SIZE <= |m|
    ensures L.GoodHeader(m, image) ==> SparesHeap(m, image, end, bs)
  {
    hide L.GoodHeader, SparesHeap, Holds;
  }

  /** What reading the file puts into the buffer. */
  method Deliver(mem: array<byte>, at: nat, bytes: seq<byte>)
    requires at + |bytes| <= mem.Length
    modifies mem
    ensures mem[..] == Patch(old(mem[..]), at, bytes)
  {
    for i := 0 to |bytes|
      invariant forall a :: 0 <= a < mem.Length ==>
        mem[a] == if at <= a < at + i then bytes[a - at] else old(mem[a])
    {
      mem[at + i] := bytes[i];
    }
  }

  /** What memory looks like when elf_load gets the image: the file is in the buffer, and
      outside the used heap nothing has changed. */
  ghost predicate ImageRead(was: seq<byte>, m: seq<byte>, buffer: nat, top: nat, file: seq<byte>) {
    K.SameOutside(was, m, HEAP_START, top) && Holds(m, buffer, file)
  }

  /** vfs_read into a buffer of the heap. */
  method ReadFile(heap: K.KernelHeap, buffer: nat, file: seq<byte>)
    requires heap.Valid() && Owned(heap.blocks, buffer, |file|)
    modifies heap.mem
    ensures heap.Valid() && Holds(heap.mem[..], buffer, file)
    ensures K.SameOutside(old(heap.mem[..]), heap.mem[..], HEAP_START, heap.heapPtr)
    ensures K.LivePayloadsKept(old(heap.mem[..]), heap.mem[..], Without(Live(heap.blocks), {buffer}))
  {
    hide Tiled, Canonical, Sized, Owned, Holds, Patch, K.SameOutside, K.LivePayloadsKept, K.Headers, Live, Without;
    ghost var m := heap.mem[..];
    OwnedInside(heap.blocks, heap.heapPtr, buffer, |file|);
    Deliver(heap.mem, buffer, file);
    PatchOutside(m, buffer, file);
    HeadersAround(m, heap.mem[..], heap.blocks, heap.heapPtr, buffer, |file|);
    K.WiderOutside(m, heap.mem[..], buffer, buffer + |file|, HEAP_START, heap.heapPtr);
  }

  /** elf_load on a buffer of the heap. */
  method LoadImage(heap: K.KernelHeap, loader: L.Memory, buffer: nat, ghost end: nat) returns (rc: int)
    requires heap.Valid() && loader.mem == heap.mem && buffer + L.HEADER_SIZE <= heap.mem.Length
    requires L.GoodHeader(heap.mem[..], buffer) ==> SparesHeap(heap.mem[..], buffer, end, heap.blocks)
    modifies heap.mem
    ensures heap.Valid() && K.LivePayloadsKept(old(heap.mem[..]), heap.mem[..], Live(heap.blocks))
    ensures rc == if L.GoodHeader(old(heap.mem[..]), buffer) then 0 else -1
    ensures rc == -1 ==> heap.mem[..] == old(heap.mem[..])
    ensures rc == 0 ==> var m := old(heap.mem[..]);
      && L.Loadable(m, buffer, end)
      && L.LoadedUpTo(m, heap.mem[..], buffer, end, L.SegmentCount(m, buffer))
  {
    hide Tiled, Canonical, Sized, Live, L.GoodHeader, L.LoadedUpTo, K.LivePayloadsKept, K.Headers, HeapBytesKept;
    ghost var m := heap.mem[..];
    rc := loader.Load(buffer, end);
    if rc == 0 {
      LoadSparesHeap(m, heap.mem[..], buffer, end, heap.blocks);
      HeadersInside(m, heap.mem[..], heap.blocks);
    } else {
      K.NothingChanged(m, Live(heap.blocks));
    }
  }

  /** The kfree of the buffer touches header fields only: every other byte is as the
      loaded segments decide. */
  lemma ProgramStays(image: seq<byte>, m: seq<byte>, m': seq<byte>, buffer: nat, end: nat, starts: set<nat>)
    requires L.Loadable(image, buffer, end)
    requires L.LoadedUpTo(image, m, buffer, end, L.SegmentCount(image, buffer))
    requires K.OnlyHeaders(m, m', starts)
    ensures |m'| == |image|
    ensures forall a :: 0 <= a < |m'| && !K.InHeader(starts, a) ==>
      m'[a] == L.ByteAfter(image, buffer, end, L.SegmentCount(image, buffer), a)
  {
    hide L.Loadable, K.InHeader;
  }

  /** elf_exec. vfs_size answers `size`, vfs_read answers `got` and puts `file` at the
      front of the buffer; for all else the file system is not part of this. What the
      program's headers refer to lies below `end`. The second result is memory as elf_load
      finds it.

      If the program spares the heap, the heap is as if only kmalloc and kfree had worked
      on it: the same blocks are live with the same bytes. Every byte that is no header
      field of the heap is as the loaded segments decide, also after the kfree. */
  method Exec(heap: K.KernelHeap, loader: L.Memory, size: int, got: int, file: seq<byte>, ghost end: nat)
    returns (rc: int, ghost image: seq<byte>)
    requires heap.Valid() && loader.mem == heap.mem && HEAP_END + L.HEADER_SIZE <= heap.mem.Length
    requires size < WORD && (size > 0 ==> Requestable(heap.Abs(), size))
    requires |file| <= (if size > 0 then size else 0) && (got == size > 0 ==> |file| == size)
    requires got == size > 0 ==>
      var (h, buffer) := Malloc(heap.Abs(), size);
      buffer == NULL || Harmless(file, buffer, end, h.blocks, heap.mem.Length)
    modifies heap, heap.mem
    ensures heap.Valid() && heap.Abs() == HeapAfterExec(old(heap.Abs()), size)
    ensures Live(heap.blocks) == old(Live(heap.blocks))
    ensures K.LivePayloadsKept(old(heap.mem[..]), heap.mem[..], Live(heap.blocks))
    ensures size <= 0 || Malloc(old(heap.Abs()), size).1 == NULL || got != size ==>
      rc == -1 && K.SameOutside(old(heap.mem[..]), heap.mem[..], HEAP_START, heap.heapPtr)
    ensures size > 0 && Malloc(old(heap.Abs()), size).1 != NULL && got == size ==>
      var (h, buffer) := Malloc(old(heap.Abs()), size);
      && ImageRead(old(heap.mem[..]), image, buffer, h.top, file)
      && buffer + L.HEADER_SIZE <= |image| == heap.mem.Length
      && rc == (if L.GoodHeader(image, buffer) then 0 else -1)
      && (rc == -1 ==> K.SameOutside(old(heap.mem[..]), heap.mem[..], HEAP_START, h.top))
      && (rc == 0 ==>
           && L.Loadable(image, buffer, end)
           && forall a :: 0 <= a < heap.mem.Length && !K.InHeader(K.Starts(h.blocks), a) ==>
                heap.mem[a] == L.ByteAfter(image, buffer, end, L.SegmentCount(image, buffer), a))
  {
    hide Inv, Malloc, Free, Requestable, Live, Without, IsLive, Owned, Holds, Harmless, SparesHeap;
    hide L.GoodHeader, L.Loadable, L.LoadedUpTo, L.ByteAfter, K.SameOutside, K.LivePayloadsKept, K.Headers, K.OnlyHeaders, K.InHeader;
    ghost var m0, h0 := heap.mem[..], heap.Abs();
    image := m0;
    SameBlocksLive(h0, size);
    K.NothingChanged(m0, Live(heap.blocks));
    if size <= 0 {
      return -1, image;
    }
    var buffer := heap.Kmalloc(size);
    if buffer == NULL {
      MallocNullIff(h0, size);
      return -1, image;
    }
    ghost var m1, h1 := heap.mem[..], heap.Abs();
    MallocOwns(h0, size, |file|);
    FreshBlockOnly(h0, size);
    ReadFile(heap, buffer, file);
    ghost var m2 := heap.mem[..];
    K.KeptTwice(m0, m1, m2, Live(h0.blocks));
    K.StillOutside(m0, m1, m2, HEAP_START, h1.top, HEAP_START, h1.top);
    if got != size {
      heap.Kfree(buffer);
      BufferFreed(h0, size, heap.Abs());
      K.KeptTwice(m0, m2, heap.mem[..], Live(h0.blocks));
      K.StillOutside(m0, m2, heap.mem[..], HEAP_START, h1.top, HEAP_START, h1.top);
      return -1, image;
    }
    image := m2;
    HarmlessImage(file, image, buffer, end, h1.blocks);
    rc := LoadImage(heap, loader, buffer, end);
    ghost var m3 := heap.mem[..];
    KeptWithout(m2, m3, Live(h1.blocks), {buffer});
    K.KeptTwice(m0, m2, m3, Live(h0.blocks));
    heap.Kfree(buffer);
    BufferFreed(h0, size, heap.Abs());
    K.KeptTwice(m0, m3, heap.mem[..], Live(h0.blocks));
    if rc == 0 {
      ProgramStays(image, m3, heap.mem[..], buffer, end, K.Starts(h1.blocks));
    } else {
      K.StillOutside(m0, m2, heap.mem[..], HEAP_START, h1.top, HEAP_START, h1.top);
    }
  }
}
