/** kmalloc and kfree over memory: headers are read, split and merged inside the same
    bytes that hold the callers' data. */
module KernelHeap {
  import opened Bytes
  import opened HeapBlocks

  /** Memory holds the header of block `b`: the size word, then the free flag in one
      byte; the three padding bytes are arbitrary. */
  ghost predicate HeaderAt(m: seq<byte>, b: Block) {
    && b.addr + HEADER <= |m|
    && WordAt(m, b.addr) == b.size
    && (m[b.addr + 4] != 0 <==> b.free)
  }

  // the bytes of a header that mean something: the size word and the free flag
  const FIELDS := 5

  ghost predicate Headers(m: seq<byte>, bs: seq<Block>) {
    forall b :: b in bs ==> HeaderAt(m, b)
  }

  /** The memories agree outside the addresses [lo, hi). */
  ghost predicate SameOutside(m: seq<byte>, m': seq<byte>, lo: nat, hi: nat) {
    && |m'| == |m|
    && forall o :: 0 <= o < |m| && !(lo <= o < hi) ==> m'[o] == m[o]
  }

  /** The memories agree on the payload of `b`. */
  ghost predicate SamePayload(m: seq<byte>, m': seq<byte>, b: Block) {
    && |m'| == |m|
    && forall o :: 0 <= o < |m| && Payload(b) <= o < End(b) ==> m'[o] == m[o]
  }

  /** No allocated payload differs. */
  ghost predicate LivePayloadsKept(m: seq<byte>, m': seq<byte>, live: seq<Block>) {
    forall b :: b in live ==> SamePayload(m, m', b)
  }

  ghost function Starts(bs: seq<Block>): set<nat> {
    set b | b in bs :: b.addr
  }

  /** Address `a` holds the size word or the free flag of a header. */
  ghost predicate InHeader(starts: set<nat>, a: int) {
    exists x :: x in starts && x <= a < x + FIELDS
  }

  /** The memories differ in those header fields at most. */
  ghost predicate OnlyHeaders(m: seq<byte>, m': seq<byte>, starts: set<nat>) {
    && |m'| == |m|
    && forall a :: 0 <= a < |m| && m'[a] != m[a] ==> InHeader(starts, a)
  }

  lemma HeaderFieldsOnly(m: seq<byte>, m': seq<byte>, x: nat, lo: nat, hi: nat, starts: set<nat>)
    requires SameOutside(m, m', lo, hi) && x <= lo && hi <= x + FIELDS && x in starts
    ensures OnlyHeaders(m, m', starts)
  {
  }

  lemma OnlyHeadersTwice(m: seq<byte>, m': seq<byte>, m'': seq<byte>, starts: set<nat>, starts': set<nat>)
    requires OnlyHeaders(m, m', starts) && OnlyHeaders(m', m'', starts') && starts' <= starts
    ensures OnlyHeaders(m, m'', starts)
  {
    forall a | 0 <= a < |m| && m''[a] != m[a]
      ensures InHeader(starts, a)
    {
      if m'[a] == m[a] {
        assert InHeader(starts', a);
      }
    }
  }

  lemma StartsAt(bs: seq<Block>, i: nat)
    requires i < |bs|
    ensures bs[i].addr in Starts(bs)
  {
    assert bs[i] in bs;
  }

  lemma HeaderKept(m: seq<byte>, m': seq<byte>, b: Block, lo: nat, hi: nat)
    requires HeaderAt(m, b) && SameOutside(m, m', lo, hi)
    requires hi <= b.addr || b.addr + HEADER <= lo
    ensures HeaderAt(m', b)
  {
    var o := b.addr;
    assert m'[o..o + 4] == m[o..o + 4];
  }

  /** A change confined to one block of a tiling, whose place is taken by `part`. */
  lemma HeadersReplaced(m: seq<byte>, m': seq<byte>, bs: seq<Block>, from: nat, to: nat, i: nat, part: seq<Block>)
    requires Tiled(bs, from, to) && i < |bs| && Headers(m, bs) && Headers(m', part)
    requires SameOutside(m, m', bs[i].addr, End(bs[i]))
    ensures Headers(m', Replace(bs, i, part))
    ensures forall j :: 0 <= j < |bs| && j != i ==> SamePayload(m, m', bs[j])
  {
    hide HeaderAt, SameOutside, Tiled;
    forall j | 0 <= j < |bs| && j != i
      ensures HeaderAt(m', bs[j]) && SamePayload(m, m', bs[j])
    {
      if i < j { TiledOrder(bs, from, to, i, j); } else { TiledOrder(bs, from, to, j, i); }
      HeaderKept(m, m', bs[j], bs[i].addr, End(bs[i]));
      OutsidePayload(m, m', bs[j], bs[i].addr, End(bs[i]));
    }
  }

  lemma OutsidePayload(m: seq<byte>, m': seq<byte>, b: Block, lo: nat, hi: nat)
    requires SameOutside(m, m', lo, hi) && (hi <= b.addr || End(b) <= lo)
    ensures SamePayload(m, m', b)
  {
  }

  class KernelHeap {
    const mem: array<byte>
    var heapPtr: nat
    ghost var blocks: seq<Block>

    ghost function Abs(): Heap
      reads this
    {
      Heap(blocks, heapPtr)
    }

    ghost predicate Valid()
      reads this, mem
    {
      && HEAP_END <= mem.Length
      && Inv(Abs())
      && Headers(mem[..], blocks)
    }

    /** memory_init over memory with arbitrary contents. */
    constructor (mem: array<byte>)
      requires HEAP_END <= mem.Length
      ensures Valid() && this.mem == mem && Abs() == Heap([], HEAP_START)
    {
      this.mem := mem;
      heapPtr := HEAP_START;
      blocks := [];
    }

    method FindFreeBlock(n: nat) returns (found: bool, current: nat, ghost i: nat)
      requires Valid()
      ensures found <==> FirstFit(blocks, n) < |blocks|
      ensures found ==> current == blocks[FirstFit(blocks, n)].addr
      ensures i == FirstFit(blocks, n)
    {
      hide Inv, Canonical, Sized, HeaderAt, Tiled, Headers, WordAt, FirstFit;
      current, i := HEAP_START, 0;
      InvTiled(Abs());
      TiledFront(blocks, HEAP_START, heapPtr);
      assert blocks[0..] == blocks;
      while current < heapPtr
        invariant i <= |blocks| && current == StartOf(blocks, i, heapPtr)
        invariant FirstFit(blocks, n) == i + FirstFit(blocks[i..], n)
        decreases |blocks| - i
      {
        InBounds(blocks, heapPtr, i);
        HeaderOf(mem[..], blocks, i);
        HeaderParts(mem[..], blocks[i]);
        FlagOf(mem[..], blocks[i]);
        FirstFitStep(blocks, n, i);
        NextStart(blocks, HEAP_START, heapPtr, i);
        var size := WordAt(mem[..], current);
        if mem[current + 4] != 0 && size >= n {
          return true, current, i;
        }
        current := current + HEADER + size;
        i := i + 1;
      }
      AtEnd(blocks, HEAP_START, heapPtr, i);
      NoFitInNothing(n);
      return false, current, i;
    }

    /** Stores the size word of the header at address `a`. */
    method StoreSize(a: nat, size: u32)
      requires a + HEADER <= mem.Length
      modifies mem
      ensures SameOutside(old(mem[..]), mem[..], a, a + 4)
      ensures WordAt(mem[..], a) == size
    {
      StoreU32(mem, a, size);
      FromLe32OfLe32(size);
      assert mem[..][a..a + 4] == Le32(size);
    }

    /** Stores the free flag of the header at address `a`. */
    method StoreFree(a: nat, free: byte)
      requires a + HEADER <= mem.Length
      modifies mem
      ensures SameOutside(old(mem[..]), mem[..], a + 4, a + 5)
      ensures mem[a + 4] == free
    {
      mem[a + 4] := free;
    }

    /** Cuts the free block at `header` when enough is left over, and takes it. */
    method TakeBlock(header: nat, n: nat, ghost i: nat)
      requires Valid() && i < |blocks| && Fits(blocks[i], n) && n >= 4 && n % 4 == 0
      requires header == blocks[i].addr
      modifies this, mem
      ensures Valid()
      ensures Abs() == Heap(Replace(old(blocks), i, Carve(old(blocks[i]), n)), old(heapPtr))
      ensures forall j :: 0 <= j < |old(blocks)| && j != i ==>
        SamePayload(old(mem[..]), mem[..], old(blocks[j]))
      ensures SameOutside(old(mem[..]), mem[..], HEAP_START, heapPtr)
    {
      hide Tiled, Canonical, Sized, HeaderAt, SameOutside;
      ghost var m, bs, b := mem[..], blocks, blocks[i];
      TiledInside(bs, HEAP_START, heapPtr, i);
      HeaderOf(m, bs, i);
      SplitBlock(header, n, b);
      ghost var m' := mem[..];
      StoreFree(header, 0);
      HeadOfPart(m', mem[..], b, n);
      StillOutside(m, m', mem[..], header, End(b), header + 4, header + 5);
      WiderOutside(m, mem[..], header, End(b), HEAP_START, heapPtr);
      HeadersReplaced(m, mem[..], bs, HEAP_START, heapPtr, i, Carve(b, n));
      blocks := Replace(bs, i, Carve(b, n));
      CarveKeepsForm(bs, HEAP_START, heapPtr, i, n);
    }

    method SplitBlock(header: nat, n: nat, ghost b: Block)
      requires HEAP_END <= mem.Length && HeaderAt(mem[..], b) && header == b.addr
      requires b.size >= n && End(b) <= HEAP_END
      modifies mem
      ensures Headers(mem[..], Split(b, n))
      ensures SameOutside(old(mem[..]), mem[..], header, End(b))
    {
      hide HeaderAt;
      ghost var m0 := mem[..];
      HeaderParts(m0, b);
      var remaining := WordAt(mem[..], header) - n;
      if remaining <= HEADER + 4 {
        return;
      }
      var newBlock := header + HEADER + n;
      StoreSize(newBlock, remaining - HEADER);
      ghost var m1 := mem[..];
      StoreFree(newBlock, 1);
      ghost var m2 := mem[..];
      StoreSize(header, n);
      SplitHeaders(m0, m1, m2, mem[..], b, n);
    }

    /** One pass over the headers, merging each free block with the free block after it. */
    method CoalesceBlocks()
      requires HEAP_END <= mem.Length && HEAP_START <= heapPtr <= HEAP_END
      requires Tiled(blocks, HEAP_START, heapPtr) && Sized(blocks) && Headers(mem[..], blocks)
      modifies this`blocks, mem
      ensures Valid() && Abs() == Heap(Coalesce(old(blocks)), heapPtr)
      ensures LivePayloadsKept(old(mem[..]), mem[..], Live(blocks))
      ensures SameOutside(old(mem[..]), mem[..], HEAP_START, heapPtr)
      ensures OnlyHeaders(old(mem[..]), mem[..], Starts(old(blocks)))
    {
      hide Tiled, Canonical, Sized, HeaderAt, SameOutside, Live, Merged, Coalesce, Headers, LivePayloadsKept, OnlyHeaders, Starts;
      ghost var m0, bs0 := mem[..], blocks;
      ghost var i := 0;
      var current := HEAP_START;
      TiledSplit(blocks, HEAP_START, heapPtr, 0);
      NothingChanged(m0, Live(blocks));
      NoPrefix(blocks);
      while current < heapPtr
        invariant i <= |blocks| && current == StartOf(blocks, i, heapPtr)
        invariant Tiled(blocks, HEAP_START, heapPtr) && Sized(blocks) && Headers(mem[..], blocks)
        invariant Live(blocks) == Live(bs0)
        invariant i < |blocks| ==> Canonical(blocks[..i + 1])
        invariant i == |blocks| ==> Canonical(blocks)
        invariant LivePayloadsKept(m0, mem[..], Live(blocks))
        invariant SameOutside(m0, mem[..], HEAP_START, heapPtr)
        invariant OnlyHeaders(m0, mem[..], Starts(bs0)) && Starts(blocks) <= Starts(bs0)
        decreases |blocks| - i
      {
        ghost var m := mem[..];
        InBounds(blocks, heapPtr, i);
        HeaderOf(mem[..], blocks, i);
        HeaderParts(mem[..], blocks[i]);
        var size := WordAt(mem[..], current);
        var next := current + HEADER + size;
        NextStart(blocks, HEAP_START, heapPtr, i);
        if next >= heapPtr {
          LastBlock(blocks, HEAP_START, heapPtr, i);
          break;
        }
        InBounds(blocks, heapPtr, i + 1);
        HeaderOf(mem[..], blocks, i + 1);
        HeaderParts(mem[..], blocks[i + 1]);
        FlagOf(mem[..], blocks[i]);
        FlagOf(mem[..], blocks[i + 1]);
        if mem[current + 4] != 0 && mem[next + 4] != 0 {
          ghost var starts := Starts(blocks);
          MergeNext(current, next, i);
          OnlyHeadersTwice(m0, m, mem[..], Starts(bs0), starts);
          KeptTwice(m0, m, mem[..], Live(blocks));
          StillOutside(m0, m, mem[..], HEAP_START, heapPtr, HEAP_START, heapPtr);
        } else {
          CanonicalFurther(blocks, i);
          current := next;
          i := i + 1;
        }
      }
      if current >= heapPtr {
        AtEnd(blocks, HEAP_START, heapPtr, i);
      }
      CoalesceIsTheForm(bs0, blocks, HEAP_START, heapPtr);
      CoalesceCanonical(bs0, HEAP_START, heapPtr);
    }

    /** Adds the following free block to the free block at `current`. */
    method MergeNext(current: nat, next: nat, ghost i: nat)
      requires HEAP_END <= mem.Length && HEAP_START <= heapPtr <= HEAP_END
      requires Tiled(blocks, HEAP_START, heapPtr) && Sized(blocks) && Headers(mem[..], blocks)
      requires i + 1 < |blocks| && current == blocks[i].addr && next == blocks[i + 1].addr
      requires blocks[i].free && blocks[i + 1].free && Canonical(blocks[..i + 1])
      modifies this`blocks, mem
      ensures Tiled(blocks, HEAP_START, heapPtr) && Sized(blocks) && Headers(mem[..], blocks)
      ensures |blocks| == |old(blocks)| - 1 && blocks[i].addr == current
      ensures Live(blocks) == old(Live(blocks)) && Canonical(blocks[..i + 1])
      ensures i + 1 == |blocks| ==> Canonical(blocks)
      ensures LivePayloadsKept(old(mem[..]), mem[..], Live(blocks))
      ensures SameOutside(old(mem[..]), mem[..], HEAP_START, heapPtr)
      ensures OnlyHeaders(old(mem[..]), mem[..], Starts(old(blocks))) && Starts(blocks) <= Starts(old(blocks))
    {
      hide Tiled, Canonical, Sized, HeaderAt, SameOutside, Live, Headers, LivePayloadsKept, OnlyHeaders, Starts;
      ghost var m, bs := mem[..], blocks;
      TiledInside(bs, HEAP_START, heapPtr, i);
      TiledInside(bs, HEAP_START, heapPtr, i + 1);
      NextStart(bs, HEAP_START, heapPtr, i);
      HeaderOf(m, bs, i);
      HeaderOf(m, bs, i + 1);
      HeaderParts(m, bs[i]);
      HeaderParts(m, bs[i + 1]);
      StoreSize(current, WordAt(mem[..], current) + HEADER + WordAt(mem[..], next));
      blocks := MergeAt(bs, i);
      MergeKeeps(bs, HEAP_START, heapPtr, i);
      MergeHeaders(m, mem[..], bs, heapPtr, i);
      WiderOutside(m, mem[..], current, current + 4, HEAP_START, heapPtr);
      StartsAt(bs, i);
      HeaderFieldsOnly(m, mem[..], current, current, current + 4, Starts(bs));
      MergeStarts(bs, i);
    }

    method Kmalloc(request: u32) returns (ptr: nat)
      requires Valid() && Requestable(Abs(), request)
      modifies this, mem
      ensures Valid()
      ensures (Abs(), ptr) == Malloc(old(Abs()), request)
      ensures LivePayloadsKept(old(mem[..]), mem[..], Live(old(blocks)))
      ensures SameOutside(old(mem[..]), mem[..], HEAP_START, heapPtr)
      ensures ptr == NULL ==> mem[..] == old(mem[..])
    {
      hide Inv, Tiled, Canonical, Sized, HeaderAt, Carve, Live, Headers, LivePayloadsKept, SameOutside, FrontierFits, WordAt, Requestable;
      ghost var h, m := Abs(), mem[..];
      NothingChanged(m, Live(blocks));
      if request == 0 {
        return NULL;
      }
      MallocKeepsInv(h, request);
      InvTiled(h);
      RequestFacts(h, request);
      var n := Align4(request);
      var found, header, i := FindFreeBlock(n);
      if found {
        TakeBlock(header, n, i);
        OthersAreLive(m, mem[..], h.blocks, i);
        return header + HEADER;
      }
      if (heapPtr + HEADER + n) % WORD > HEAP_END {
        FrontierRefused(heapPtr, n);
        return NULL;
      }
      FrontierRoom(h, n);
      header := heapPtr;
      StoreSize(header, n);
      ghost var m1 := mem[..];
      StoreFree(header, 0);
      heapPtr := heapPtr + HEADER;
      ptr := heapPtr;
      heapPtr := heapPtr + n;
      blocks := blocks + [Block(header, n, false)];
      NewHeader(m, m1, mem[..], h, n);
    }

    method Kfree(ptr: nat)
      requires Valid() && (ptr == NULL || IsLive(Abs(), ptr))
      modifies this, mem
      ensures Valid()
      ensures Abs() == Step(old(Abs()), HeapBlocks.Kfree(ptr))
      ensures LivePayloadsKept(old(mem[..]), mem[..], Live(blocks))
      ensures SameOutside(old(mem[..]), mem[..], HEAP_START, heapPtr)
      ensures OnlyHeaders(old(mem[..]), mem[..], Starts(old(blocks)))
    {
      hide Tiled, Canonical, Sized, HeaderAt, Live, Headers, LivePayloadsKept, SameOutside, Release, Coalesce, OnlyHeaders, Starts;
      ghost var m, bs := mem[..], blocks;
      if ptr == NULL {
        NothingChanged(m, Live(blocks));
        return;
      }
      ghost var i := LiveIndex(bs, ptr);
      TiledInside(bs, HEAP_START, heapPtr, i);
      var header := ptr - HEADER;
      StoreFree(header, 1);
      ReleaseTiled(bs, HEAP_START, heapPtr, ptr);
      ReleaseSized(bs, ptr);
      blocks := Release(bs, ptr);
      ghost var m1 := mem[..];
      ReleaseHeaders(m, m1, bs, heapPtr, i, ptr);
      CoalesceBlocks();
      CoalesceCanonical(Release(bs, ptr), HEAP_START, heapPtr);
      KeptTwice(m, m1, mem[..], Live(blocks));
      WiderOutside(m, m1, header + 4, header + 5, HEAP_START, heapPtr);
      StartsAt(bs, i);
      HeaderFieldsOnly(m, m1, header, header + 4, header + 5, Starts(bs));
      ReleaseStarts(bs, ptr);
      OnlyHeadersTwice(m, m1, mem[..], Starts(bs), Starts(Release(bs, ptr)));
      StillOutside(m, m1, mem[..], HEAP_START, heapPtr, HEAP_START, heapPtr);
    }
  }

  /** What split_block leaves of a block. */
  function Split(b: Block, n: nat): seq<Block>
    requires b.size >= n
  {
    if b.size - n <= HEADER + 4 then [b]
    else [b.(size := n), Block(b.addr + HEADER + n, b.size - n - HEADER, true)]
  }

  lemma HeaderParts(m: seq<byte>, b: Block)
    requires HeaderAt(m, b)
    ensures b.addr + HEADER <= |m| && WordAt(m, b.addr) == b.size
  {
  }

  lemma WordKept(m: seq<byte>, m': seq<byte>, a: nat, lo: nat, hi: nat)
    requires SameOutside(m, m', lo, hi) && a + 4 <= |m|
    requires hi <= a || a + 4 <= lo
    ensures WordAt(m', a) == WordAt(m, a)
  {
    var o := a;
    assert m'[o..o + 4] == m[o..o + 4];
  }

  lemma SplitHeaders(m0: seq<byte>, m1: seq<byte>, m2: seq<byte>, m3: seq<byte>, b: Block, n: nat)
    requires HeaderAt(m0, b) && b.size >= n + HEADER + 4 && End(b) <= |m0|
    requires b.size - n > HEADER + 4
    requires var a := b.addr + HEADER + n;
      && SameOutside(m0, m1, a, a + 4) && WordAt(m1, a) == b.size - n - HEADER
      && SameOutside(m1, m2, a + 4, a + 5) && m2[a + 4] == 1
      && SameOutside(m2, m3, b.addr, b.addr + 4) && WordAt(m3, b.addr) == n
    ensures Headers(m3, Split(b, n)) && SameOutside(m0, m3, b.addr, End(b))
  {
    hide WordAt;
    var a := b.addr + HEADER + n;
    WordKept(m1, m2, a, a + 4, a + 5);
    WordKept(m2, m3, a, b.addr, b.addr + 4);
    assert m3[a + 4] == m2[a + 4];
    assert m3[b.addr + 4] == m2[b.addr + 4]
        == m1[b.addr + 4] == m0[b.addr + 4];
  }

  lemma HeadOfPart(m: seq<byte>, m': seq<byte>, b: Block, n: nat)
    requires b.size >= n && Headers(m, Split(b, n)) && SameOutside(m, m', b.addr + 4, b.addr + 5)
    requires b.addr + HEADER <= |m|
    requires m'[b.addr + 4] == 0
    ensures Headers(m', Carve(b, n))
  {
    assert Split(b, n)[0] in Split(b, n);
    WordKept(m, m', b.addr, b.addr + 4, b.addr + 5);
    if b.size - n > HEADER + 4 {
      var rest := Split(b, n)[1];
      assert rest in Split(b, n);
      HeaderKept(m, m', rest, b.addr + 4, b.addr + 5);
    }
  }

  lemma StillOutside(m: seq<byte>, m': seq<byte>, m'': seq<byte>, lo: nat, hi: nat, lo': nat, hi': nat)
    requires SameOutside(m, m', lo, hi) && SameOutside(m', m'', lo', hi') && lo <= lo' && hi' <= hi
    ensures SameOutside(m, m'', lo, hi)
  {
  }

  lemma InvTiled(h: Heap)
    requires Inv(h)
    ensures HEAP_START <= h.top <= HEAP_END && Tiled(h.blocks, HEAP_START, h.top)
  {
  }

  lemma TiledFront(bs: seq<Block>, from: nat, to: nat)
    requires Tiled(bs, from, to)
    ensures StartOf(bs, 0, to) == from
  {
  }

  lemma NoFitInNothing(n: nat)
    ensures FirstFit([], n) == 0
  {
  }

  lemma FirstFitStep(bs: seq<Block>, n: nat, i: nat)
    requires i < |bs|
    ensures FirstFit(bs[i..], n) == if Fits(bs[i], n) then 0 else 1 + FirstFit(bs[i + 1..], n)
  {
    assert bs[i..][1..] == bs[i + 1..];
  }

  lemma NothingAfterEnd(bs: seq<Block>, from: nat, to: nat)
    requires Tiled(bs, from, to) && from >= to
    ensures bs == []
  {
    if bs != [] {
      TiledInside(bs, from, to, 0);
    }
  }

  lemma InBounds(bs: seq<Block>, top: nat, i: nat)
    requires Tiled(bs, HEAP_START, top) && i <= |bs| && StartOf(bs, i, top) < top
    ensures i < |bs| && HEAP_START <= bs[i].addr && End(bs[i]) <= top
  {
    if i < |bs| {
      TiledInside(bs, HEAP_START, top, i);
    }
  }

  lemma HeaderOf(m: seq<byte>, bs: seq<Block>, i: nat)
    requires Headers(m, bs) && i < |bs|
    ensures HeaderAt(m, bs[i])
  {
  }

  lemma NothingChanged(m: seq<byte>, live: seq<Block>)
    ensures LivePayloadsKept(m, m, live)
    ensures forall lo, hi :: SameOutside(m, m, lo, hi)
    ensures forall starts :: OnlyHeaders(m, m, starts)
  {
  }

  lemma KeptTwice(m: seq<byte>, m': seq<byte>, m'': seq<byte>, live: seq<Block>)
    requires LivePayloadsKept(m, m', live) && LivePayloadsKept(m', m'', live)
    ensures LivePayloadsKept(m, m'', live)
  {
    forall b | b in live
      ensures SamePayload(m, m'', b)
    {
      assert SamePayload(m, m', b) && SamePayload(m', m'', b);
    }
  }

  lemma NoPrefix(bs: seq<Block>)
    ensures bs != [] ==> Canonical(bs[..1])
    ensures bs == [] ==> Canonical(bs)
  {
  }

  lemma NextStart(bs: seq<Block>, from: nat, to: nat, i: nat)
    requires Tiled(bs, from, to) && i < |bs|
    ensures End(bs[i]) == StartOf(bs, i + 1, to)
  {
    TiledSplit(bs, from, to, i);
    assert bs[i..][1..] == bs[i + 1..];
    if i + 1 < |bs| {
      assert bs[i + 1..][0] == bs[i + 1];
    }
  }

  lemma LastBlock(bs: seq<Block>, from: nat, to: nat, i: nat)
    requires Tiled(bs, from, to) && i < |bs| && StartOf(bs, i + 1, to) >= to
    requires Canonical(bs[..i + 1])
    ensures Canonical(bs)
  {
    TiledSplit(bs, from, to, i + 1);
    NothingAfterEnd(bs[i + 1..], StartOf(bs, i + 1, to), to);
    assert bs[..i + 1] == bs;
  }

  lemma AtEnd(bs: seq<Block>, from: nat, to: nat, i: nat)
    requires Tiled(bs, from, to) && i <= |bs| && StartOf(bs, i, to) >= to
    ensures i == |bs|
  {
    TiledSplit(bs, from, to, i);
    NothingAfterEnd(bs[i..], StartOf(bs, i, to), to);
  }

  lemma FlagOf(m: seq<byte>, b: Block)
    requires HeaderAt(m, b)
    ensures b.addr + HEADER <= |m|
    ensures m[b.addr + 4] != 0 <==> b.free
  {
  }

  /** Blocks `i` and `i + 1` made one. */
  function MergeAt(bs: seq<Block>, i: nat): seq<Block>
    requires i + 1 < |bs|
  {
    bs[..i] + [Merged(bs[i], bs[i + 1])] + bs[i + 2..]
  }

  lemma MergeStarts(bs: seq<Block>, i: nat)
    requires i + 1 < |bs|
    ensures Starts(MergeAt(bs, i)) <= Starts(bs)
  {
    forall b | b in MergeAt(bs, i)
      ensures b.addr in Starts(bs)
    {
      StartsAt(bs, i);
      assert b in bs || b == Merged(bs[i], bs[i + 1]);
    }
  }

  lemma ReleaseStarts(bs: seq<Block>, ptr: nat)
    ensures Starts(Release(bs, ptr)) <= Starts(bs)
  {
    forall b | b in Release(bs, ptr)
      ensures b.addr in Starts(bs)
    {
      var i :| 0 <= i < |bs| && Release(bs, ptr)[i] == b;
      StartsAt(bs, i);
    }
  }

  lemma MergeKeeps(bs: seq<Block>, from: nat, to: nat, i: nat)
    requires Tiled(bs, from, to) && Sized(bs) && i + 1 < |bs|
    requires bs[i].free && bs[i + 1].free && Canonical(bs[..i + 1])
    ensures Tiled(MergeAt(bs, i), from, to) && Sized(MergeAt(bs, i))
    ensures Live(MergeAt(bs, i)) == Live(bs)
    ensures Canonical(MergeAt(bs, i)[..i + 1])
    ensures i + 1 == |MergeAt(bs, i)| ==> Canonical(MergeAt(bs, i))
  {
    hide Tiled, Canonical, Sized, Live;
    var pre, x, y, post := bs[..i], bs[i], bs[i + 1], bs[i + 2..];
    var z := Merged(x, y);
    MergeTiled(bs, from, to, i);
    MergeSized(bs, i);
    assert bs == pre + [x, y] + post;
    LiveAround(pre, [x, y], post);
    LiveAround(pre, [z], post);
    NoLiveInTwoFree(x, y, z);
    assert bs[..i + 1] == pre + [x];
    assert MergeAt(bs, i)[..i + 1] == pre + [z];
    CanonicalConcat(pre, [x]);
    CanonicalConcat(pre, [z]);
    OneIsCanonical(z);
    assert i + 1 == |MergeAt(bs, i)| ==> MergeAt(bs, i)[..i + 1] == MergeAt(bs, i);
  }

  lemma OneIsCanonical(b: Block)
    ensures Canonical([b])
  {
  }

  lemma NoLiveInTwoFree(x: Block, y: Block, z: Block)
    requires x.free && y.free && z.free
    ensures Live([x, y]) == [] && Live([z]) == []
  {
    NoLiveInFree(x);
    NoLiveInFree(y);
    NoLiveInFree(z);
    LiveConcat([x], [y]);
    assert [x] + [y] == [x, y];
  }

  lemma MergeTiled(bs: seq<Block>, from: nat, to: nat, i: nat)
    requires Tiled(bs, from, to) && i + 1 < |bs|
    ensures Tiled(MergeAt(bs, i), from, to)
  {
    NextStart(bs, from, to, i);
    NextStart(bs, from, to, i + 1);
    TiledSplit(bs, from, to, i);
    TiledSplit(bs, from, to, i + 2);
    hide Tiled;
    var z := Merged(bs[i], bs[i + 1]);
    TiledOne(z);
    TiledConcat(bs[..i], [z], from, z.addr, End(z));
    TiledConcat(bs[..i] + [z], bs[i + 2..], from, End(z), to);
  }

  lemma TiledOne(b: Block)
    ensures Tiled([b], b.addr, End(b))
  {
  }

  lemma MergeSized(bs: seq<Block>, i: nat)
    requires Sized(bs) && i + 1 < |bs|
    ensures Sized(MergeAt(bs, i))
  {
    assert bs[i] in bs && bs[i + 1] in bs;
    forall b: Block | b in MergeAt(bs, i)
      ensures b.size >= 4 && b.size % 4 == 0
    {
      assert b in bs || b == Merged(bs[i], bs[i + 1]);
    }
  }

  /** Merging rewrites one size word, inside free space. */
  lemma MergeHeaders(m: seq<byte>, m': seq<byte>, bs: seq<Block>, top: nat, i: nat)
    requires Tiled(bs, HEAP_START, top) && i + 1 < |bs| && Headers(m, bs)
    requires bs[i].free && SameOutside(m, m', bs[i].addr, bs[i].addr + 4)
    requires bs[i].addr + HEADER <= |m|
    requires WordAt(m', bs[i].addr) == bs[i].size + HEADER + bs[i + 1].size
    ensures Headers(m', MergeAt(bs, i))
    ensures LivePayloadsKept(m, m', Live(bs))
  {
    hide Tiled, Live, HeaderAt, SameOutside;
    var z := Merged(bs[i], bs[i + 1]);
    MergedHeader(m, m', bs[i], bs[i + 1]);
    LiveMembers(bs);
    WiderOutside(m, m', bs[i].addr, bs[i].addr + 4, bs[i].addr, End(bs[i]));
    forall j | 0 <= j < |bs| && j != i
      ensures HeaderAt(m', bs[j]) && SamePayload(m, m', bs[j])
    {
      if i < j { TiledOrder(bs, HEAP_START, top, i, j); } else { TiledOrder(bs, HEAP_START, top, j, i); }
      HeaderKept(m, m', bs[j], bs[i].addr, End(bs[i]));
      OutsidePayload(m, m', bs[j], bs[i].addr, End(bs[i]));
    }
    forall b | b in MergeAt(bs, i)
      ensures HeaderAt(m', b)
    {
      if b != z {
        var j :| 0 <= j < |bs| && j != i && bs[j] == b;
      }
    }
  }

  lemma WiderOutside(m: seq<byte>, m': seq<byte>, lo: nat, hi: nat, lo': nat, hi': nat)
    requires SameOutside(m, m', lo, hi) && lo' <= lo && hi <= hi'
    ensures SameOutside(m, m', lo', hi')
  {
  }

  lemma MergedHeader(m: seq<byte>, m': seq<byte>, x: Block, y: Block)
    requires HeaderAt(m, x) && SameOutside(m, m', x.addr, x.addr + 4)
    requires WordAt(m', x.addr) == x.size + HEADER + y.size
    ensures HeaderAt(m', Merged(x, y))
  {
    assert m'[x.addr + 4] == m[x.addr + 4];
  }

  lemma CanonicalFurther(bs: seq<Block>, i: nat)
    requires i + 1 < |bs| && Canonical(bs[..i + 1]) && !(bs[i].free && bs[i + 1].free)
    ensures Canonical(bs[..i + 2])
    ensures i + 2 == |bs| ==> Canonical(bs)
  {
    assert bs[..i + 2] == bs[..i + 1] + [bs[i + 1]];
    CanonicalConcat(bs[..i + 1], [bs[i + 1]]);
    assert i + 2 == |bs| ==> bs[..i + 2] == bs;
  }

  // ----- kmalloc and kfree -----

  /** Every live block is a block other than the free one taken. */
  lemma OthersAreLive(m: seq<byte>, m': seq<byte>, bs: seq<Block>, i: nat)
    requires i < |bs| && bs[i].free
    requires forall j :: 0 <= j < |bs| && j != i ==> SamePayload(m, m', bs[j])
    ensures LivePayloadsKept(m, m', Live(bs))
  {
    LiveMembers(bs);
    forall b | b in Live(bs)
      ensures SamePayload(m, m', b)
    {
      var j :| 0 <= j < |bs| && bs[j] == b;
    }
  }

  lemma FrontierRefused(top: nat, n: nat)
    requires (top + HEADER + n) % WORD > HEAP_END
    ensures !FrontierFits(top, n)
  {
  }

  lemma FrontierRoom(h: Heap, n: u32)
    requires Inv(h) && (h.top + HEADER + n) % WORD <= HEAP_END
    requires FrontierFits(h.top, n) <==> h.top + HEADER + n <= HEAP_END
    ensures FrontierFits(h.top, n) && HEAP_START <= h.top && h.top + HEADER + n <= HEAP_END
  {
  }

  lemma NewHeader(m: seq<byte>, m1: seq<byte>, m2: seq<byte>, h: Heap, n: u32)
    requires Inv(h) && Headers(m, h.blocks) && HEAP_END <= |m| && h.top + HEADER + n <= HEAP_END
    requires SameOutside(m, m1, h.top, h.top + 4) && WordAt(m1, h.top) == n
    requires SameOutside(m1, m2, h.top + 4, h.top + 5) && m2[h.top + 4] == 0
    ensures Headers(m2, h.blocks + [Block(h.top, n, false)])
    ensures LivePayloadsKept(m, m2, Live(h.blocks))
    ensures SameOutside(m, m2, HEAP_START, h.top + HEADER + n)
  {
    hide Tiled, Live, Canonical, Sized;
    LiveMembers(h.blocks);
    WordKept(m1, m2, h.top, h.top + 4, h.top + 5);
    WiderOutside(m, m1, h.top, h.top + 4, h.top, h.top + HEADER);
    StillOutside(m, m1, m2, h.top, h.top + HEADER, h.top + 4, h.top + 5);
    WiderOutside(m, m2, h.top, h.top + HEADER, HEAP_START, h.top + HEADER + n);
    hide SameOutside;
    forall b | b in h.blocks
      ensures HeaderAt(m2, b) && SamePayload(m, m2, b)
    {
      var j :| 0 <= j < |h.blocks| && h.blocks[j] == b;
      TiledInside(h.blocks, HEAP_START, h.top, j);
      HeaderKept(m, m2, b, h.top, h.top + HEADER);
      OutsidePayload(m, m2, b, h.top, h.top + HEADER);
    }
  }

  ghost function LiveIndex(bs: seq<Block>, ptr: nat): (i: nat)
    requires exists b :: b in bs && !b.free && Payload(b) == ptr
    ensures i < |bs| && !bs[i].free && Payload(bs[i]) == ptr
  {
    var i :| 0 <= i < |bs| && !bs[i].free && Payload(bs[i]) == ptr;
    i
  }

  lemma FreedHeader(m: seq<byte>, m': seq<byte>, b: Block)
    requires HeaderAt(m, b) && SameOutside(m, m', b.addr + 4, b.addr + 5)
    requires m'[b.addr + 4] == 1
    ensures HeaderAt(m', b.(free := true))
  {
    WordKept(m, m', b.addr, b.addr + 4, b.addr + 5);
  }

  lemma ReleaseHeaders(m: seq<byte>, m': seq<byte>, bs: seq<Block>, top: nat, i: nat, ptr: nat)
    requires Tiled(bs, HEAP_START, top) && Headers(m, bs) && i < |bs| && Payload(bs[i]) == ptr
    requires SameOutside(m, m', bs[i].addr + 4, bs[i].addr + 5)
    requires bs[i].addr + HEADER <= |m|
    requires m'[bs[i].addr + 4] == 1
    ensures Headers(m', Release(bs, ptr))
    ensures LivePayloadsKept(m, m', Live(Release(bs, ptr)))
  {
    hide Tiled, Live, HeaderAt, SameOutside, WordAt;
    var rs := Release(bs, ptr);
    LiveMembers(rs);
    OnlyBlockAt(bs, HEAP_START, top, i);
    assert bs[i] in bs;
    FreedHeader(m, m', bs[i]);
    forall j | 0 <= j < |bs| && j != i
      ensures rs[j] == bs[j] && HeaderAt(m', rs[j]) && SamePayload(m, m', rs[j])
    {
      assert bs[j] in bs;
      if i < j { TiledOrder(bs, HEAP_START, top, i, j); } else { TiledOrder(bs, HEAP_START, top, j, i); }
      HeaderKept(m, m', bs[j], bs[i].addr + 4, bs[i].addr + 5);
      OutsidePayload(m, m', bs[j], bs[i].addr + 4, bs[i].addr + 5);
    }
  }
}
