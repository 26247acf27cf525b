/** The kernel heap of kernel/libk/memory.c as a list of blocks: what kmalloc, kfree
    and coalescing do to the list, and what holds of it over every run. */
module HeapBlocks {
  import opened Bytes

  const HEAP_START := 0x100000
  const HEAP_END := 0x200000
  const HEADER := 8

  /** A block: the address of its header, the size of its payload, and whether it is free. */
  datatype Block = Block(addr: nat, size: nat, free: bool)

  function Payload(b: Block): nat { b.addr + HEADER }

  function End(b: Block): nat { b.addr + HEADER + b.size }

  /** The blocks follow each other without gap from `from` to `to`. */
  ghost predicate Tiled(bs: seq<Block>, from: nat, to: nat) {
    if bs == [] then from == to
    else bs[0].addr == from && Tiled(bs[1..], End(bs[0]), to)
  }

  ghost predicate Sized(bs: seq<Block>) {
    forall b :: b in bs ==> b.size >= 4 && b.size % 4 == 0
  }

  /** No two neighbours are both free. */
  ghost predicate Canonical(bs: seq<Block>) {
    |bs| > 1 ==> !(bs[0].free && bs[1].free) && Canonical(bs[1..])
  }

  datatype Heap = Heap(blocks: seq<Block>, top: nat)

  ghost predicate Inv(h: Heap) {
    && HEAP_START <= h.top <= HEAP_END
    && Tiled(h.blocks, HEAP_START, h.top)
    && Sized(h.blocks)
    && Canonical(h.blocks)
  }

  /** The allocated blocks, in address order. */
  function Live(bs: seq<Block>): seq<Block> {
    if bs == [] then []
    else if bs[0].free then Live(bs[1..])
    else [bs[0]] + Live(bs[1..])
  }

  lemma {:induction false} LiveMembers(bs: seq<Block>)
    ensures forall b :: b in Live(bs) <==> b in bs && !b.free
    decreases |bs|
  {
    if bs != [] {
      LiveMembers(bs[1..]);
      assert bs == [bs[0]] + bs[1..];
    }
  }

  // ----- geometry -----

  lemma {:induction false} TiledInside(bs: seq<Block>, from: nat, to: nat, i: nat)
    requires Tiled(bs, from, to) && i <= |bs|
    ensures from <= to
    ensures i < |bs| ==> from <= bs[i].addr && End(bs[i]) <= to
    decreases |bs|
  {
    if bs != [] {
      TiledInside(bs[1..], End(bs[0]), to, if i == 0 then 0 else i - 1);
    }
  }

  /** Blocks are disjoint and in address order. */
  lemma {:induction false} TiledOrder(bs: seq<Block>, from: nat, to: nat, i: nat, j: nat)
    requires Tiled(bs, from, to) && i < j < |bs|
    ensures End(bs[i]) <= bs[j].addr
    decreases |bs|
  {
    if i > 0 {
      TiledOrder(bs[1..], End(bs[0]), to, i - 1, j - 1);
    } else {
      TiledInside(bs[1..], End(bs[0]), to, j - 1);
    }
  }

  lemma {:induction false} TiledConcat(a: seq<Block>, b: seq<Block>, from: nat, mid: nat, to: nat)
    requires Tiled(a, from, mid) && Tiled(b, mid, to)
    ensures Tiled(a + b, from, to)
    decreases |a|
  {
    if a == [] {
      assert a + b == b;
    } else {
      TiledConcat(a[1..], b, End(a[0]), mid, to);
      assert (a + b)[1..] == a[1..] + b;
    }
  }

  /** The address at which the i-th block, or the end, begins. */
  function StartOf(bs: seq<Block>, i: nat, to: nat): nat
    requires i <= |bs|
  {
    if i < |bs| then bs[i].addr else to
  }

  lemma {:induction false} TiledSplit(bs: seq<Block>, from: nat, to: nat, i: nat)
    requires Tiled(bs, from, to) && i <= |bs|
    ensures Tiled(bs[..i], from, StartOf(bs, i, to)) && Tiled(bs[i..], StartOf(bs, i, to), to)
    decreases |bs|
  {
    if i > 0 {
      TiledSplit(bs[1..], End(bs[0]), to, i - 1);
      assert bs[..i][1..] == bs[1..][..i - 1];
      assert bs[i..] == bs[1..][i - 1..];
    } else {
      assert bs[0..] == bs;
    }
  }

  lemma {:induction false} CanonicalConcat(a: seq<Block>, b: seq<Block>)
    ensures Canonical(a + b) <==>
      Canonical(a) && Canonical(b) && (a != [] && b != [] ==> !(a[|a| - 1].free && b[0].free))
    decreases |a|
  {
    if a == [] {
      assert a + b == b;
    } else {
      CanonicalConcat(a[1..], b);
      assert (a + b)[1..] == a[1..] + b;
      if |a| > 1 {
        assert (a + b)[1] == a[1];
      } else {
        assert a + b == [a[0]] + b;
      }
    }
  }

  lemma {:induction false} LiveConcat(a: seq<Block>, b: seq<Block>)
    ensures Live(a + b) == Live(a) + Live(b)
    decreases |a|
  {
    if a == [] {
      assert a + b == b;
    } else {
      LiveConcat(a[1..], b);
      assert (a + b)[1..] == a[1..] + b;
    }
  }

  /** Where the live blocks can lie, and where a leading free block ends. */
  lemma {:induction false} LiveBounds(bs: seq<Block>, from: nat, to: nat)
    requires Tiled(bs, from, to)
    ensures from <= to
    ensures Live(bs) != [] ==> from <= Live(bs)[0].addr < to
    ensures bs != [] && bs[0].free ==> from + HEADER <= StartOf(Live(bs), 0, to)
    ensures Canonical(bs) && bs != [] && bs[0].free ==> End(bs[0]) == StartOf(Live(bs), 0, to)
    decreases |bs|
  {
    if bs != [] {
      LiveBounds(bs[1..], End(bs[0]), to);
    }
  }

  /** A canonical tiling is determined by its span and its live blocks. */
  lemma {:induction false} CanonicalUnique(a: seq<Block>, b: seq<Block>, from: nat, to: nat)
    requires Tiled(a, from, to) && Tiled(b, from, to)
    requires Canonical(a) && Canonical(b)
    requires Live(a) == Live(b)
    ensures a == b
    decreases |a|
  {
    LiveBounds(a, from, to);
    LiveBounds(b, from, to);
    if a != [] && b != [] {
      LiveBounds(a[1..], End(a[0]), to);
      LiveBounds(b[1..], End(b[0]), to);
      assert a[0] == b[0];
      assert Live(a[1..]) == Live(b[1..]) by {
        if !a[0].free {
          assert Live(a[1..]) == Live(a)[1..] && Live(b[1..]) == Live(b)[1..];
        }
      }
      CanonicalUnique(a[1..], b[1..], End(a[0]), to);
      assert a == [a[0]] + a[1..] && b == [b[0]] + b[1..];
    }
  }

  // ----- coalescing -----

  /** Two neighbouring blocks made one. */
  function Merged(b: Block, next: Block): Block {
    b.(size := b.size + HEADER + next.size)
  }

  function Coalesce(bs: seq<Block>): seq<Block> {
    if bs == [] then []
    else
      var rest := Coalesce(bs[1..]);
      if bs[0].free && rest != [] && rest[0].free then [Merged(bs[0], rest[0])] + rest[1..]
      else [bs[0]] + rest
  }

  lemma SizedPrepend(b: Block, rest: seq<Block>)
    requires Sized(rest) && b.size >= 4 && b.size % 4 == 0
    ensures Sized([b] + rest)
  {
    forall c: Block | c in [b] + rest
      ensures c.size >= 4 && c.size % 4 == 0
    {
      assert c == b || c in rest;
    }
  }

  lemma SizedParts(bs: seq<Block>)
    requires Sized(bs) && bs != []
    ensures bs[0].size >= 4 && bs[0].size % 4 == 0 && Sized(bs[1..])
  {
    assert bs[0] in bs;
  }

  lemma {:induction false} CoalesceSized(bs: seq<Block>)
    requires Sized(bs)
    ensures Sized(Coalesce(bs))
    decreases |bs|
  {
    hide Sized;
    if bs != [] {
      var rest := Coalesce(bs[1..]);
      SizedParts(bs);
      CoalesceSized(bs[1..]);
      if bs[0].free && rest != [] && rest[0].free {
        SizedParts(rest);
        SizedPrepend(Merged(bs[0], rest[0]), rest[1..]);
      } else {
        SizedPrepend(bs[0], rest);
      }
    }
  }

  /** One coalescing pass reaches the canonical form and keeps the span and every
      allocated block. */
  lemma {:induction false} CoalesceCanonical(bs: seq<Block>, from: nat, to: nat)
    requires Tiled(bs, from, to)
    ensures Tiled(Coalesce(bs), from, to) && Canonical(Coalesce(bs))
    ensures Live(Coalesce(bs)) == Live(bs)
    decreases |bs|
  {
    if bs != [] {
      var b, rest := bs[0], Coalesce(bs[1..]);
      CoalesceCanonical(bs[1..], End(b), to);
      if b.free && rest != [] && rest[0].free {
        assert Coalesce(bs)[1..] == rest[1..];
        assert |rest| > 1 ==> !rest[1].free;
      } else {
        assert Coalesce(bs)[1..] == rest;
      }
    }
  }

  /** Any canonical list with the span and live blocks of `bs` is its coalesced form. */
  lemma CoalesceIsTheForm(bs: seq<Block>, r: seq<Block>, from: nat, to: nat)
    requires Tiled(bs, from, to)
    requires Tiled(r, from, to) && Canonical(r) && Live(r) == Live(bs)
    ensures r == Coalesce(bs)
  {
    CoalesceCanonical(bs, from, to);
    CanonicalUnique(r, Coalesce(bs), from, to);
  }

  // ----- kmalloc -----

  function Align4(size: u32): u32 {
    (size + 3) % WORD / 4 * 4
  }

  /** Alignment rounds up unless the 32-bit sum wraps. */
  lemma Align4RoundsUp(size: u32)
    ensures Align4(size) % 4 == 0
    ensures size <= Align4(size) <= size + 3 <==> size <= WORD - 4
  {
    var sum: int := size + 3;
    if size <= WORD - 4 {
      assert sum % WORD == sum;
    } else {
      assert sum % WORD == sum - WORD;
    }
  }

  /** The kernel's 32-bit test that a block of `n` bytes fits above the frontier. */
  predicate FrontierFits(top: nat, n: nat) {
    (top + HEADER + n) % WORD <= HEAP_END
  }

  /** The sum does not wrap, or wraps to an address still above the heap. */
  predicate FrontierTestRight(top: nat, n: nat) {
    top + HEADER + n < WORD || top + HEADER + n - WORD > HEAP_END
  }

  lemma FrontierTestExact(top: nat, n: u32)
    requires HEAP_START <= top <= HEAP_END
    ensures (FrontierFits(top, n) <==> top + HEADER + n <= HEAP_END) <==> FrontierTestRight(top, n)
  {
    var sum: int := top + HEADER + n;
    if sum < WORD {
      assert sum % WORD == sum;
    } else {
      assert sum % WORD == sum - WORD;
    }
  }

  predicate Fits(b: Block, n: nat) {
    b.free && b.size >= n
  }

  function FirstFit(bs: seq<Block>, n: nat): (i: nat)
    ensures i <= |bs|
    ensures i < |bs| ==> Fits(bs[i], n)
    ensures forall j :: 0 <= j < i ==> !Fits(bs[j], n)
  {
    if bs == [] || Fits(bs[0], n) then 0 else 1 + FirstFit(bs[1..], n)
  }

  /** A free block given to a request of `n` bytes: the remainder becomes a free block
      when more than a header and four bytes are left. */
  function Carve(b: Block, n: nat): seq<Block>
    requires b.size >= n
  {
    if b.size - n <= HEADER + 4 then [b.(free := false)]
    else [Block(b.addr, n, false), Block(b.addr + HEADER + n, b.size - n - HEADER, true)]
  }

  function Replace(bs: seq<Block>, i: nat, part: seq<Block>): seq<Block>
    requires i < |bs|
  {
    bs[..i] + part + bs[i + 1..]
  }

  const NULL: nat := 0

  /** kmalloc: the new heap and the pointer returned. */
  function Malloc(h: Heap, size: u32): (Heap, nat) {
    if size == 0 then (h, NULL)
    else
      var n := Align4(size);
      var i := FirstFit(h.blocks, n);
      if i < |h.blocks| then
        (Heap(Replace(h.blocks, i, Carve(h.blocks[i], n)), h.top), Payload(h.blocks[i]))
      else if !FrontierFits(h.top, n) then (h, NULL)
      else (Heap(h.blocks + [Block(h.top, n, false)], (h.top + HEADER + n) % WORD), h.top + HEADER)
  }

  /** The requests that the 32-bit arithmetic gets right: rounding up does not wrap, and
      the bound check is right if it is reached; or both wrap and the request is refused. */
  predicate Requestable(h: Heap, size: u32) {
    || size == 0
    || (size <= WORD - 4 && (FirstFit(h.blocks, Align4(size)) < |h.blocks| || FrontierTestRight(h.top, Align4(size))))
    || (size > WORD - 4 && FirstFit(h.blocks, 0) == |h.blocks| && h.top + HEADER > HEAP_END)
  }

  /** What the rest needs to know of such a request. */
  lemma RequestFacts(h: Heap, size: u32)
    requires HEAP_START <= h.top <= HEAP_END && Requestable(h, size) && size > 0
    ensures var n, i := Align4(size), FirstFit(h.blocks, Align4(size));
      && (i < |h.blocks| || FrontierFits(h.top, n) ==> n >= 4 && n % 4 == 0 && size <= n <= size + 3)
      && (i == |h.blocks| ==> (FrontierFits(h.top, n) <==> h.top + HEADER + n <= HEAP_END))
  {
    Align4RoundsUp(size);
    FrontierTestExact(h.top, Align4(size));
    if size > WORD - 4 {
      var sum: int := size + 3;
      assert sum % WORD == sum - WORD && Align4(size) == 0;
    }
  }

  // ----- kfree -----

  function Release(bs: seq<Block>, ptr: nat): (r: seq<Block>)
    ensures |r| == |bs|
    ensures forall i :: 0 <= i < |bs| ==> r[i] == if Payload(bs[i]) == ptr then bs[i].(free := true) else bs[i]
  {
    if bs == [] then []
    else [if Payload(bs[0]) == ptr then bs[0].(free := true) else bs[0]] + Release(bs[1..], ptr)
  }

  function Free(h: Heap, ptr: nat): Heap {
    Heap(Coalesce(Release(h.blocks, ptr)), h.top)
  }

  /** `ptr` was returned by kmalloc and not freed since. */
  predicate IsLive(h: Heap, ptr: nat) {
    exists b :: b in h.blocks && !b.free && Payload(b) == ptr
  }

  // ----- kmalloc: safety and exactness -----

  lemma LiveAround(pre: seq<Block>, part: seq<Block>, post: seq<Block>)
    ensures Live(pre + part + post) == Live(pre) + Live(part) + Live(post)
  {
    hide Live;
    LiveConcat(pre + part, post);
    LiveConcat(pre, part);
  }

  lemma CanonicalAround(pre: seq<Block>, part: seq<Block>, post: seq<Block>)
    requires part != []
    ensures Canonical(pre + part + post) <==>
      && Canonical(pre) && Canonical(part) && Canonical(post)
      && (pre != [] ==> !(pre[|pre| - 1].free && part[0].free))
      && (post != [] ==> !(part[|part| - 1].free && post[0].free))
  {
    hide Canonical;
    CanonicalConcat(pre + part, post);
    CanonicalConcat(pre, part);
  }

  lemma LiveOfCarve(b: Block, n: nat)
    requires b.size >= n
    ensures Live(Carve(b, n)) == [Carve(b, n)[0]]
  {
    var part := Carve(b, n);
    if |part| == 2 {
      assert part[1..] == [part[1]] && Live(part[1..]) == [];
    }
  }

  lemma TiledReplace(bs: seq<Block>, from: nat, to: nat, i: nat, part: seq<Block>)
    requires Tiled(bs, from, to) && i < |bs| && Tiled(part, bs[i].addr, End(bs[i]))
    ensures Tiled(Replace(bs, i, part), from, to)
  {
    TiledSplit(bs, from, to, i);
    assert bs[i..][1..] == bs[i + 1..];
    hide Tiled;
    TiledConcat(part, bs[i + 1..], bs[i].addr, End(bs[i]), to);
    TiledConcat(bs[..i], part + bs[i + 1..], from, bs[i].addr, to);
    assert bs[..i] + (part + bs[i + 1..]) == Replace(bs, i, part);
  }

  lemma SizedReplace(bs: seq<Block>, i: nat, part: seq<Block>)
    requires Sized(bs) && i < |bs| && Sized(part)
    ensures Sized(Replace(bs, i, part))
  {
    forall b: Block | b in Replace(bs, i, part)
      ensures b.size >= 4 && b.size % 4 == 0
    {
      assert b in bs || b in part;
    }
  }

  lemma CarveForm(b: Block, n: nat)
    requires b.size >= n >= 4 && n % 4 == 0 && b.size % 4 == 0
    ensures var part := Carve(b, n);
      Tiled(part, b.addr, End(b)) && Sized(part) && Canonical(part) && part != [] && !part[0].free
  {
    var part := Carve(b, n);
    if |part| == 2 {
      assert part[1..] == [part[1]] && part[1..][1..] == [];
    } else {
      assert part[1..] == [];
    }
  }

  /** Carving a free block in a canonical tiling gives a canonical tiling. */
  lemma CarveKeepsForm(bs: seq<Block>, from: nat, to: nat, i: nat, n: nat)
    requires Tiled(bs, from, to) && Sized(bs) && Canonical(bs)
    requires i < |bs| && Fits(bs[i], n) && n >= 4 && n % 4 == 0
    ensures var r := Replace(bs, i, Carve(bs[i], n));
      Tiled(r, from, to) && Sized(r) && Canonical(r)
  {
    hide Tiled, Canonical, Carve;
    var part := Carve(bs[i], n);
    assert bs[i] in bs;
    CarveForm(bs[i], n);
    TiledReplace(bs, from, to, i, part);
    SizedReplace(bs, i, part);
    assert bs == bs[..i] + [bs[i]] + bs[i + 1..];
    CanonicalAround(bs[..i], [bs[i]], bs[i + 1..]);
    CanonicalAround(bs[..i], part, bs[i + 1..]);
  }

  lemma FrontierKeepsForm(h: Heap, n: nat)
    requires Inv(h) && n >= 4 && n % 4 == 0
    ensures var bs := h.blocks + [Block(h.top, n, false)];
      Tiled(bs, HEAP_START, h.top + HEADER + n) && Sized(bs) && Canonical(bs)
  {
    var b := Block(h.top, n, false);
    assert Tiled([b], h.top, End(b));
    TiledConcat(h.blocks, [b], HEAP_START, h.top, End(b));
    CanonicalConcat(h.blocks, [b]);
  }

  /** kmalloc keeps the heap invariant. */
  lemma MallocKeepsInv(h: Heap, size: u32)
    requires Inv(h) && Requestable(h, size)
    ensures Inv(Malloc(h, size).0)
  {
    hide Requestable, FrontierFits;
    if size != 0 {
      RequestFacts(h, size);
      var n, i := Align4(size), FirstFit(h.blocks, Align4(size));
      if i < |h.blocks| {
        CarveKeepsForm(h.blocks, HEAP_START, h.top, i, n);
      } else if FrontierFits(h.top, n) {
        FrontierKeepsForm(h, n);
      }
    }
  }

  /** Neither a free block nor the frontier has room for `size` bytes. */
  predicate NoRoom(h: Heap, size: nat) {
    (forall b :: b in h.blocks && b.free ==> b.size < size) && h.top + HEADER + size > HEAP_END
  }

  /** Sizes and addresses are multiples of 4, so rounding up asks for no more room. */
  lemma NoRoomRounded(h: Heap, size: nat, n: nat)
    requires Inv(h) && size <= n <= size + 3 && n % 4 == 0
    ensures NoRoom(h, size) <==> NoRoom(h, n)
  {
    TopAligned(h.blocks, HEAP_START, h.top);
  }

  /** kmalloc returns NULL, changing nothing, exactly when the request is empty or
      neither a free block nor the frontier has room for it. */
  lemma MallocNullIff(h: Heap, size: u32)
    requires Inv(h) && Requestable(h, size)
    ensures Malloc(h, size).1 == NULL <==> size == 0 || NoRoom(h, size)
    ensures NoRoom(h, size) <==> (forall b :: b in h.blocks && b.free ==> b.size < size) && h.top + 8 + size > 0x20_0000
    ensures Malloc(h, size).1 == NULL ==> Malloc(h, size).0 == h
  {
    hide FrontierFits, Tiled, Canonical;
    if size > 0 {
      var n, i := Align4(size), FirstFit(h.blocks, Align4(size));
      RequestFacts(h, size);
      if i < |h.blocks| {
        assert h.blocks[i] in h.blocks;
        NoRoomRounded(h, size, n);
      } else if FrontierFits(h.top, n) || size <= WORD - 4 {
        Align4RoundsUp(size);
        NoRoomRounded(h, size, n);
      } else {
        HugeHasNoRoom(h, size);
      }
    }
  }

  lemma HugeHasNoRoom(h: Heap, size: nat)
    requires Inv(h) && size > HEAP_END
    ensures NoRoom(h, size)
  {
    forall b | b in h.blocks
      ensures b.size < size
    {
      var i :| 0 <= i < |h.blocks| && h.blocks[i] == b;
      TiledInside(h.blocks, HEAP_START, h.top, i);
    }
  }

  /** kmalloc does its job: the heap stays good, a request is refused exactly when there
      is no room for it, and otherwise the result is a live block of that size. */
  ghost predicate Served(h: Heap, size: u32) {
    var (h', ptr) := Malloc(h, size);
    && Inv(h')
    && (ptr == NULL <==> size == 0 || NoRoom(h, size))
    && (ptr != NULL ==> exists b :: b in h'.blocks && !b.free && Payload(b) == ptr && b.size >= size)
  }

  /** Exactly these requests are served as they should be. For any other one there is no
      room, yet kmalloc answers with a block. */
  lemma ServedIff(h: Heap, size: u32)
    requires Inv(h)
    ensures Served(h, size) <==> Requestable(h, size)
  {
    hide Inv, NoRoom, FrontierFits;
    if Requestable(h, size) {
      MallocKeepsInv(h, size);
      MallocNullIff(h, size);
      if Malloc(h, size).1 != NULL {
        MallocGives(h, size);
      }
    } else {
      WrongAnswer(h, size);
    }
  }

  /** The smallest heap and the largest request: rounding wraps to 0, and kmalloc answers
      with an empty block. */
  lemma LargestRequestServedWrongly()
    ensures var h, size := Heap([], HEAP_START), 0xFFFF_FFFF;
      && Inv(h) && !Requestable(h, size) && NoRoom(h, size)
      && Malloc(h, size) == (Heap([Block(HEAP_START, 0, false)], HEAP_START + HEADER), HEAP_START + HEADER)
  {
    var h := Heap([], HEAP_START);
    assert Align4(0xFFFF_FFFF) == 0;
    assert h.blocks + [Block(HEAP_START, 0, false)] == [Block(HEAP_START, 0, false)];
    assert (HEAP_START + HEADER + 0) % WORD == HEAP_START + HEADER;
  }

  lemma WrongAnswer(h: Heap, size: u32)
    requires Inv(h) && !Requestable(h, size)
    ensures size > 0 && NoRoom(h, size) && Malloc(h, size).1 != NULL
  {
    hide Tiled, Canonical, Sized;
    var n := Align4(size);
    var sum: int := size + 3;
    Align4RoundsUp(size);
    FrontierTestExact(h.top, n);
    if size > WORD - 4 {
      assert sum % WORD == sum - WORD && n == 0;
    } else {
      assert sum % WORD == sum;
    }
    HugeHasNoRoom(h, size);
  }

  /** The block that a successful kmalloc returns: new, live, aligned, at least as
      large as asked and at most 15 bytes larger; it is the lowest free block that
      fits, or the frontier when none does. All other live blocks stay. */
  lemma MallocGives(h: Heap, size: u32)
    requires Inv(h) && Requestable(h, size) && Malloc(h, size).1 != NULL
    ensures var (h', ptr) := Malloc(h, size);
      && !IsLive(h, ptr) && ptr % 4 == 0
      && (exists b :: b in h'.blocks && !b.free && Payload(b) == ptr && size <= b.size <= size + 15
           && forall c :: (c in h'.blocks && !c.free <==> (c in h.blocks && !c.free) || c == b))
      && (forall b :: b in h.blocks && Fits(b, Align4(size)) ==> ptr <= Payload(b))
      && ((exists b :: b in h.blocks && Fits(b, Align4(size)) && Payload(b) == ptr) || ptr == h.top + HEADER)
  {
    hide Live, Tiled, Canonical, Sized, Carve, Requestable, FrontierFits, FirstFit, Align4;
    var n, bs := Align4(size), h.blocks;
    var (h', ptr) := Malloc(h, size);
    RequestFacts(h, size);
    LiveMembers(bs);
    LiveMembers(h'.blocks);
    var i := FirstFit(bs, n);
    if i < |bs| {
      CarvedLive(bs, i, n);
      CarvedSize(bs[i], n);
      OnlyBlockAt(bs, HEAP_START, h.top, i);
      TiledAligned(bs, HEAP_START, h.top, i);
      LowestAddress(bs, HEAP_START, h.top, i, n);
    } else {
      var b := Block(h.top, n, false);
      assert forall c :: c in h'.blocks <==> c in bs || c == b;
      TopAligned(bs, HEAP_START, h.top);
      NoBlockAtTop(bs, HEAP_START, h.top);
    }
  }

  /** What becomes of the free block `b` that serves a request, `r` being the block
      returned: it is handed over whole exactly when at most 12 bytes would be left over;
      otherwise it is cut to the rounded size, and the rest behind a header of its own is
      the only free block that was not there before. */
  lemma HandedOverWholeIff(h: Heap, size: u32, b: Block, r: Block)
    requires Inv(h) && Requestable(h, size) && Malloc(h, size).1 != NULL
    requires b in h.blocks && Fits(b, Align4(size)) && b.addr + 8 == Malloc(h, size).1
    requires r in Malloc(h, size).0.blocks && r.addr + 8 == Malloc(h, size).1
    ensures !r.free && (r.size == b.size <==> b.size <= Align4(size) + 12)
    ensures b.size > Align4(size) + 12 ==>
      && r.size == Align4(size)
      && Block(r.addr + 8 + r.size, b.size - r.size - 8, true) in Malloc(h, size).0.blocks
    ensures forall c :: c in Malloc(h, size).0.blocks && c.free && c !in h.blocks ==>
      c.addr == r.addr + 8 + r.size && c.size == b.size - r.size - 8 && c.size >= 8
  {
    hide Inv, Malloc, Requestable, Replace, Carve;
    var i := ServingBlock(h, size, b, r);
    CarvedSpans(b, Align4(size));
    CarvedMembers(h.blocks, i, Carve(b, Align4(size)));
  }

  lemma ServingBlock(h: Heap, size: u32, b: Block, r: Block) returns (i: nat)
    requires Inv(h) && Requestable(h, size) && Malloc(h, size).1 != NULL
    requires b in h.blocks && Fits(b, Align4(size)) && Payload(b) == Malloc(h, size).1
    requires r in Malloc(h, size).0.blocks && Payload(r) == Malloc(h, size).1
    ensures i < |h.blocks| && h.blocks[i] == b && b.size >= Align4(size) && b.size % 4 == 0 && Align4(size) % 4 == 0
    ensures Malloc(h, size).0.blocks == Replace(h.blocks, i, Carve(b, Align4(size)))
    ensures Carve(b, Align4(size)) != [] && r == Carve(b, Align4(size))[0]
  {
    hide Tiled, Canonical, Sized, Requestable, FrontierFits, FirstFit, Align4, Inv;
    InvParts(h);
    RequestFacts(h, size);
    var bs, bs' := h.blocks, Malloc(h, size).0.blocks;
    MallocKeepsInv(h, size);
    InvParts(Malloc(h, size).0);
    var j :| 0 <= j < |bs| && bs[j] == b;
    i := FirstFit(bs, Align4(size));
    OnlyBlockAt(bs, HEAP_START, h.top, i);
    SizedAt(bs, i);
    var j' :| 0 <= j' < |bs'| && bs'[j'] == r;
    OnlyBlockAt(bs', HEAP_START, Malloc(h, size).0.top, i);
  }

  lemma CarvedSpans(b: Block, n: nat)
    requires b.size >= n && b.size % 4 == 0 && n % 4 == 0
    ensures var part := Carve(b, n);
      && part != [] && !part[0].free && part[0].addr == b.addr
      && (if b.size <= n + 12 then part == [part[0]] && part[0].size == b.size
          else part[0].size == n && part == [part[0], Block(b.addr + 8 + n, b.size - n - 8, true)])
  {
  }

  lemma CarvedMembers(bs: seq<Block>, i: nat, part: seq<Block>)
    requires i < |bs|
    ensures forall c :: c in part ==> c in Replace(bs, i, part)
    ensures forall c :: c in Replace(bs, i, part) ==> c in bs || c in part
  {
  }

  lemma InvParts(h: Heap)
    requires Inv(h)
    ensures HEAP_START <= h.top <= HEAP_END && Tiled(h.blocks, HEAP_START, h.top) && Sized(h.blocks)
  {
  }

  lemma SizedAt(bs: seq<Block>, i: nat)
    requires Sized(bs) && i < |bs|
    ensures bs[i].size >= 4 && bs[i].size % 4 == 0
  {
    assert bs[i] in bs;
  }

  /** The smallest block with 12 bytes to spare: of 16 free bytes a request for 4 takes
      all, and the next one goes to the frontier. */
  lemma TwelveLeftOverGoAlong()
    ensures var h := Heap([Block(0x10_0000, 16, true)], 0x10_0018);
      && Inv(h)
      && Malloc(h, 4) == (Heap([Block(0x10_0000, 16, false)], 0x10_0018), 0x10_0008)
      && Malloc(Malloc(h, 4).0, 4).1 == 0x10_0020
  {
    var b := Block(0x10_0000, 16, true);
    assert [b][1..] == [] && [b.(free := false)][1..] == [];
    assert [b][..0] + Carve(b, 4) + [b][1..] == [b.(free := false)];
  }

  lemma NoLiveInFree(b: Block)
    requires b.free
    ensures Live([b]) == []
  {
  }

  /** The live blocks of a list in which block `i` was carved. */
  lemma CarvedLive(bs: seq<Block>, i: nat, n: nat)
    requires i < |bs| && Fits(bs[i], n)
    ensures var part := Carve(bs[i], n);
      && part != []
      && Live(Replace(bs, i, part)) == Live(bs[..i]) + [part[0]] + Live(bs[i + 1..])
      && Live(bs) == Live(bs[..i]) + Live(bs[i + 1..])
  {
    hide Live, Carve;
    var part := Carve(bs[i], n);
    CarvedSize(bs[i], n);
    LiveAround(bs[..i], part, bs[i + 1..]);
    LiveOfCarve(bs[i], n);
    LiveAround(bs[..i], [bs[i]], bs[i + 1..]);
    assert bs == bs[..i] + [bs[i]] + bs[i + 1..];
    NoLiveInFree(bs[i]);
  }

  lemma CarvedSize(b: Block, n: nat)
    requires Fits(b, n)
    ensures var part := Carve(b, n);
      part != [] && !part[0].free && part[0].addr == b.addr && n <= part[0].size <= n + 12
  {
  }

  lemma LowestAddress(bs: seq<Block>, from: nat, to: nat, i: nat, n: nat)
    requires Tiled(bs, from, to) && i == FirstFit(bs, n) && i < |bs|
    ensures forall b :: b in bs && Fits(b, n) ==> Payload(bs[i]) <= Payload(b)
  {
    forall b | b in bs && Fits(b, n)
      ensures Payload(bs[i]) <= Payload(b)
    {
      var j :| 0 <= j < |bs| && bs[j] == b;
      if j > i {
        TiledOrder(bs, from, to, i, j);
      }
    }
  }

  lemma NoBlockAtTop(bs: seq<Block>, from: nat, to: nat)
    requires Tiled(bs, from, to)
    ensures forall c :: c in bs ==> Payload(c) <= to
  {
    forall c | c in bs
      ensures Payload(c) <= to
    {
      var j :| 0 <= j < |bs| && bs[j] == c;
      TiledInside(bs, from, to, j);
    }
  }

  /** No other block of a tiling has the same payload address. */
  lemma OnlyBlockAt(bs: seq<Block>, from: nat, to: nat, i: nat)
    requires Tiled(bs, from, to) && i < |bs|
    ensures forall j :: 0 <= j < |bs| && Payload(bs[j]) == Payload(bs[i]) ==> j == i
  {
    forall j | 0 <= j < |bs| && j != i
      ensures Payload(bs[j]) != Payload(bs[i])
    {
      if i < j { TiledOrder(bs, from, to, i, j); } else { TiledOrder(bs, from, to, j, i); }
    }
  }

  lemma {:induction false} TopAligned(bs: seq<Block>, from: nat, to: nat)
    requires Tiled(bs, from, to) && Sized(bs) && from % 4 == 0
    ensures to % 4 == 0
    decreases |bs|
  {
    if bs != [] {
      assert bs[0] in bs;
      TopAligned(bs[1..], End(bs[0]), to);
    }
  }

  lemma TiledAligned(bs: seq<Block>, from: nat, to: nat, i: nat)
    requires Tiled(bs, from, to) && Sized(bs) && from % 4 == 0 && i < |bs|
    ensures bs[i].addr % 4 == 0
  {
    TiledSplit(bs, from, to, i);
    TopAligned(bs[..i], from, bs[i].addr);
  }

  /** Heap safety in one state: every block lies in the used heap with a 4-aligned
      payload, and any two blocks are disjoint, headers included. */
  lemma BlocksApart(h: Heap, b: Block, c: Block)
    requires Inv(h) && b in h.blocks && c in h.blocks
    ensures HEAP_START <= b.addr && End(b) <= h.top && Payload(b) % 4 == 0 && End(b) % 4 == 0
    ensures b == c || End(b) <= c.addr || End(c) <= b.addr
    ensures 0x10_0000 <= b.addr && b.addr + 8 + b.size <= 0x20_0000
  {
    var i :| 0 <= i < |h.blocks| && h.blocks[i] == b;
    var j :| 0 <= j < |h.blocks| && h.blocks[j] == c;
    TiledInside(h.blocks, HEAP_START, h.top, i);
    TiledAligned(h.blocks, HEAP_START, h.top, i);
    if i < j {
      TiledOrder(h.blocks, HEAP_START, h.top, i, j);
    } else if j < i {
      TiledOrder(h.blocks, HEAP_START, h.top, j, i);
    }
  }

  // ----- kfree: order does not matter -----

  /** The blocks whose payload addresses are not in `gone`. */
  function Without(live: seq<Block>, gone: set<nat>): seq<Block> {
    if live == [] then []
    else if Payload(live[0]) in gone then Without(live[1..], gone)
    else [live[0]] + Without(live[1..], gone)
  }

  lemma {:induction false} WithoutConcat(a: seq<Block>, b: seq<Block>, gone: set<nat>)
    ensures Without(a + b, gone) == Without(a, gone) + Without(b, gone)
    decreases |a|
  {
    if a == [] {
      assert a + b == b;
    } else {
      WithoutConcat(a[1..], b, gone);
      assert (a + b)[1..] == a[1..] + b;
    }
  }

  lemma {:induction false} WithoutTwice(live: seq<Block>, s: set<nat>, t: set<nat>)
    ensures Without(Without(live, s), t) == Without(live, s + t)
    decreases |live|
  {
    if live != [] {
      WithoutTwice(live[1..], s, t);
      if Payload(live[0]) !in s {
        assert Without(live, s)[1..] == Without(live[1..], s);
      }
    }
  }

  lemma {:induction false} WithoutNone(live: seq<Block>, gone: set<nat>)
    requires forall b :: b in live ==> Payload(b) !in gone
    ensures Without(live, gone) == live
    decreases |live|
  {
    if live != [] {
      assert live[0] in live;
      WithoutNone(live[1..], gone);
      assert live == [live[0]] + live[1..];
    }
  }

  lemma {:induction false} WithoutAll(live: seq<Block>, gone: set<nat>)
    requires forall b :: b in live ==> Payload(b) in gone
    ensures Without(live, gone) == []
    decreases |live|
  {
    if live != [] {
      assert live[0] in live;
      WithoutAll(live[1..], gone);
    }
  }

  lemma {:induction false} LiveOfRelease(bs: seq<Block>, ptr: nat)
    ensures Live(Release(bs, ptr)) == Without(Live(bs), {ptr})
    decreases |bs|
  {
    if bs != [] {
      LiveOfRelease(bs[1..], ptr);
      assert Release(bs, ptr)[1..] == Release(bs[1..], ptr);
      if !bs[0].free {
        assert Live(bs)[1..] == Live(bs[1..]);
      }
    }
  }

  lemma {:induction false} ReleaseTiled(bs: seq<Block>, from: nat, to: nat, ptr: nat)
    requires Tiled(bs, from, to)
    ensures Tiled(Release(bs, ptr), from, to)
    decreases |bs|
  {
    if bs != [] {
      ReleaseTiled(bs[1..], End(bs[0]), to, ptr);
      assert Release(bs, ptr)[1..] == Release(bs[1..], ptr);
    }
  }

  lemma ReleaseSized(bs: seq<Block>, ptr: nat)
    requires Sized(bs)
    ensures Sized(Release(bs, ptr))
  {
    forall b: Block | b in Release(bs, ptr)
      ensures b.size >= 4 && b.size % 4 == 0
    {
      var i :| 0 <= i < |bs| && Release(bs, ptr)[i] == b;
      assert bs[i] in bs;
    }
  }

  /** kfree keeps the invariant and takes away just the freed block. */
  lemma FreeKeepsInv(h: Heap, ptr: nat)
    requires Inv(h)
    ensures Inv(Free(h, ptr)) && Free(h, ptr).top == h.top
    ensures Live(Free(h, ptr).blocks) == Without(Live(h.blocks), {ptr})
  {
    ReleaseTiled(h.blocks, HEAP_START, h.top, ptr);
    ReleaseSized(h.blocks, ptr);
    CoalesceSized(Release(h.blocks, ptr));
    CoalesceCanonical(Release(h.blocks, ptr), HEAP_START, h.top);
    LiveOfRelease(h.blocks, ptr);
  }

  function FreeAll(h: Heap, ptrs: seq<nat>): Heap
    decreases |ptrs|
  {
    if ptrs == [] then h else FreeAll(Free(h, ptrs[0]), ptrs[1..])
  }

  function PtrSet(ptrs: seq<nat>): set<nat> {
    set p | p in ptrs
  }

  lemma {:induction false} FreeAllLeaves(h: Heap, ptrs: seq<nat>)
    requires Inv(h)
    ensures Inv(FreeAll(h, ptrs)) && FreeAll(h, ptrs).top == h.top
    ensures Live(FreeAll(h, ptrs).blocks) == Without(Live(h.blocks), PtrSet(ptrs))
    decreases |ptrs|
  {
    hide Inv, Live, Without, Free;
    if ptrs == [] {
      WithoutNone(Live(h.blocks), PtrSet(ptrs));
    } else {
      FreeKeepsInv(h, ptrs[0]);
      FreeAllLeaves(Free(h, ptrs[0]), ptrs[1..]);
      WithoutTwice(Live(h.blocks), {ptrs[0]}, PtrSet(ptrs[1..]));
      assert {ptrs[0]} + PtrSet(ptrs[1..]) == PtrSet(ptrs);
    }
  }

  /** Live pointers, each to be freed once. */
  ghost predicate Freeable(h: Heap, ptrs: seq<nat>) {
    && (forall p :: p in ptrs ==> IsLive(h, p))
    && (forall i, j :: 0 <= i < j < |ptrs| ==> ptrs[i] != ptrs[j])
  }

  /** Freeing the same pointers in any order gives the very same heap. */
  lemma FreeOrderIrrelevant(h: Heap, ps: seq<nat>, qs: seq<nat>)
    requires Inv(h) && Freeable(h, ps) && Freeable(h, qs)
    requires forall p :: p in ps <==> p in qs
    ensures FreeAll(h, ps) == FreeAll(h, qs)
  {
    hide FreeAll, Live, Without, Tiled, Canonical, Sized, IsLive;
    FreeAllLeaves(h, ps);
    FreeAllLeaves(h, qs);
    assert PtrSet(ps) == PtrSet(qs);
    CanonicalUnique(FreeAll(h, ps).blocks, FreeAll(h, qs).blocks, HEAP_START, h.top);
  }

  /** Freeing everything leaves one free block over the whole heap used so far. */
  lemma FreeEverything(h: Heap, ptrs: seq<nat>)
    requires Inv(h) && Freeable(h, ptrs)
    requires forall b :: b in h.blocks && !b.free ==> Payload(b) in ptrs
    ensures h.top == HEAP_START ==> FreeAll(h, ptrs).blocks == []
    ensures h.top > HEAP_START ==>
      && h.top >= HEAP_START + HEADER
      && FreeAll(h, ptrs).blocks == [Block(HEAP_START, h.top - HEAP_START - HEADER, true)]
  {
    FreeAllLeaves(h, ptrs);
    LiveMembers(h.blocks);
    WithoutAll(Live(h.blocks), PtrSet(ptrs));
    NothingLive(FreeAll(h, ptrs).blocks, HEAP_START, h.top);
  }

  lemma NothingLive(bs: seq<Block>, from: nat, to: nat)
    requires Tiled(bs, from, to) && Canonical(bs) && Live(bs) == []
    ensures from == to ==> bs == []
    ensures from < to ==> to >= from + HEADER && bs == [Block(from, to - from - HEADER, true)]
  {
    LiveBounds(bs, from, to);
    if bs != [] {
      LiveBounds(bs[1..], End(bs[0]), to);
    }
  }

  /** kfree of what kmalloc has just returned restores the exact heap exactly when the
      request was served from a free block. */
  lemma MallocThenFree(h: Heap, size: u32)
    requires Inv(h) && Requestable(h, size) && Malloc(h, size).1 != NULL
    ensures Free(Malloc(h, size).0, Malloc(h, size).1) == h
      <==> FirstFit(h.blocks, Align4(size)) < |h.blocks|
  {
    hide Live, Tiled, Canonical, Sized, Carve, Without;
    var (h', ptr) := Malloc(h, size);
    var bs, i := h.blocks, FirstFit(h.blocks, Align4(size));
    if i < |bs| {
      MallocKeepsInv(h, size);
      FreeKeepsInv(h', ptr);
      CarvedLiveWithout(bs, HEAP_START, h.top, i, Align4(size));
      CanonicalUnique(Free(h', ptr).blocks, bs, HEAP_START, h.top);
    }
  }

  /** The smallest failure: on the empty heap, kmalloc of at most 4 bytes followed by
      kfree leaves a free block of 4 bytes behind a frontier that has moved. */
  lemma FrontierStaysRaised(size: u32)
    requires 0 < size <= 4
    ensures var h := Heap([], HEAP_START);
      && Inv(h) && Requestable(h, size) && Malloc(h, size).1 == HEAP_START + HEADER
      && Free(Malloc(h, size).0, HEAP_START + HEADER) == Heap([Block(HEAP_START, 4, true)], HEAP_START + HEADER + 4)
  {
    var b := Block(HEAP_START, 4, false);
    assert Release([b], Payload(b)) == [b.(free := true)];
    assert Coalesce([b.(free := true)]) == [b.(free := true)];
  }

  lemma CarvedLiveWithout(bs: seq<Block>, from: nat, to: nat, i: nat, n: nat)
    requires Tiled(bs, from, to) && i < |bs| && Fits(bs[i], n)
    ensures Without(Live(Replace(bs, i, Carve(bs[i], n))), {Payload(bs[i])}) == Live(bs)
  {
    hide Live, Tiled, Carve;
    var part, gone := Carve(bs[i], n), {Payload(bs[i])};
    CarvedLive(bs, i, n);
    CarvedSize(bs[i], n);
    WithoutConcat(Live(bs[..i]) + [part[0]], Live(bs[i + 1..]), gone);
    WithoutConcat(Live(bs[..i]), [part[0]], gone);
    OnlyBlockAt(bs, from, to, i);
    LiveMembers(bs[..i]);
    LiveMembers(bs[i + 1..]);
    WithoutNone(Live(bs[..i]), gone);
    WithoutNone(Live(bs[i + 1..]), gone);
    assert Without([part[0]], gone) == [];
  }

  // ----- runs -----

  datatype Call = Kmalloc(size: u32) | Kfree(ptr: nat)

  function Step(h: Heap, call: Call): Heap {
    match call
    case Kmalloc(size) => Malloc(h, size).0
    case Kfree(ptr) => if ptr == NULL then h else Free(h, ptr)
  }

  /** The callers' side: requests below the 32-bit limit, and kfree of live pointers
      or NULL only. */
  predicate Proper(h: Heap, call: Call) {
    match call
    case Kmalloc(size) => Requestable(h, size)
    case Kfree(ptr) => ptr == NULL || IsLive(h, ptr)
  }

  predicate ProperRun(h: Heap, calls: seq<Call>)
    decreases |calls|
  {
    calls != [] ==> Proper(h, calls[0]) && ProperRun(Step(h, calls[0]), calls[1..])
  }

  function Run(h: Heap, calls: seq<Call>): Heap
    decreases |calls|
  {
    if calls == [] then h else Run(Step(h, calls[0]), calls[1..])
  }

  lemma StepKeepsInv(h: Heap, call: Call)
    requires Inv(h) && Proper(h, call)
    ensures Inv(Step(h, call)) && h.top <= Step(h, call).top
  {
    hide Inv, Malloc, Free, IsLive;
    match call
    case Kmalloc(size) =>
      MallocKeepsInv(h, size);
      InvBounds(h);
      TopNeverFalls(h, size);
    case Kfree(ptr) =>
      FreeKeepsInv(h, ptr);
  }

  lemma InvBounds(h: Heap)
    requires Inv(h)
    ensures HEAP_START <= h.top <= HEAP_END
  {
  }

  lemma TopNeverFalls(h: Heap, size: u32)
    requires HEAP_START <= h.top <= HEAP_END && Requestable(h, size)
    ensures h.top <= Malloc(h, size).0.top
  {
    hide Requestable;
    if size > 0 {
      RequestFacts(h, size);
    }
  }

  /** A live block keeps its address and size through every call but its own kfree. */
  lemma StepKeepsLiveBlock(h: Heap, call: Call, b: Block)
    requires Inv(h) && Proper(h, call) && b in h.blocks && !b.free
    requires call != Kfree(Payload(b))
    ensures b in Step(h, call).blocks
  {
    hide Inv, Malloc, Free, Live, Without, IsLive, Fits;
    match call
    case Kmalloc(size) =>
      if Malloc(h, size).1 == NULL {
        MallocNullIff(h, size);
      } else {
        MallocGives(h, size);
      }
    case Kfree(ptr) =>
      FreeKeepsInv(h, ptr);
      LiveMembers(h.blocks);
      LiveMembers(Free(h, ptr).blocks);
      WithoutMembers(Live(h.blocks), {ptr});
  }

  lemma {:induction false} WithoutMembers(live: seq<Block>, gone: set<nat>)
    ensures forall b :: b in Without(live, gone) <==> b in live && Payload(b) !in gone
    decreases |live|
  {
    if live != [] {
      WithoutMembers(live[1..], gone);
      assert live == [live[0]] + live[1..];
    }
  }

  /** Heap safety over every run: the blocks tile the used heap in canonical form, the
      frontier never falls, and a live block stays until its own kfree. */
  lemma {:induction false} RunSafe(h: Heap, calls: seq<Call>, b: Block)
    requires Inv(h) && ProperRun(h, calls)
    ensures Inv(Run(h, calls)) && h.top <= Run(h, calls).top
    ensures b in h.blocks && !b.free && Kfree(Payload(b)) !in calls ==> b in Run(h, calls).blocks
    decreases |calls|
  {
    hide Inv, Step, Proper;
    if calls != [] {
      StepKeepsInv(h, calls[0]);
      if b in h.blocks && !b.free && Kfree(Payload(b)) !in calls {
        StepKeepsLiveBlock(h, calls[0], b);
      }
      RunSafe(Step(h, calls[0]), calls[1..], b);
    }
  }
}
