/**
  The memheap allocator on its block list: blocks with 24-byte headers that tile
  the pool up to a used tail block, a free list in the order in which blocks
  became free, and two size counters.
 */
module MemheapSpec {
  import opened Wrappers
  import opened BlockList
  import L = NodeList

  const HEADER: nat := 24             // RT_MEMHEAP_SIZE on a 32-bit target
  const MIN_DATA: nat := 12           // RT_MEMHEAP_MINIALLOC
  const MIN_BLOCK: nat := 36

  datatype Heap = Heap(pool: nat, blocks: seq<Block>, free: seq<nat>, available: int, max: int) {
    /** Offset of the tail block. */
    function Tail(): int { pool - HEADER }
  }

  /** MEMITEM_SIZE */
  function Size(b: Block): int {
    b.next - b.start - HEADER
  }

  ghost function FreeStarts(s: set<Block>): set<nat> {
    set b | b in s && !b.used :: b.start
  }

  ghost predicate PoolOk(h: Heap) {
    h.pool % 4 == 0 && 2 * HEADER + MIN_DATA <= h.pool < SIZE_LIMIT
  }

  ghost predicate BlocksOk(h: Heap) {
    && h.blocks != [] && HEADER <= h.pool && Tiled(h.blocks, 0, h.Tail(), MIN_BLOCK)
    && Aligned(Members(h.blocks)) && NoAdjacentFree(h.blocks)
  }

  /** The free list holds exactly the free blocks, once each. */
  ghost predicate FreeOk(h: Heap) {
    L.NoDup(h.free) && L.Members(h.free) == FreeStarts(Members(h.blocks))
  }

  ghost predicate SizesOk(h: Heap) {
    h.available == FreeBytes(h.blocks, HEADER) && h.pool - h.available <= h.max
  }

  ghost predicate Inv(h: Heap) {
    PoolOk(h) && BlocksOk(h) && FreeOk(h) && SizesOk(h)
  }

  function Init(pool: nat): Heap
    requires pool >= HEADER
  {
    Heap(pool, [Block(0, pool - HEADER, false)], [0], pool - 2 * HEADER, 2 * HEADER)
  }

  lemma InitInv(pool: nat)
    requires pool % 4 == 0 && 2 * HEADER + MIN_DATA <= pool < SIZE_LIMIT
    ensures Inv(Init(pool))
  {
    var h := Init(pool);
    var b := h.blocks[0];
    assert h.blocks[1..] == [];
    assert Members(h.blocks) == {b} && FreeStarts({b}) == {0};
    assert L.Members(h.free) == {0};
  }

  // ------------------------------------------------------------------- replacement

  /** Blocks `i` to `k` give way to `mid`. */
  ghost function Replace(h: Heap, i: nat, k: nat, mid: seq<Block>, free: seq<nat>, available: int): Heap
    requires i <= k <= |h.blocks|
  {
    Heap(h.pool, h.blocks[..i] + mid + h.blocks[k..], free, available, Max(h.max, h.pool - available))
  }

  /** What `mid` must be like. */
  ghost predicate Fits(h: Heap, i: nat, k: nat, mid: seq<Block>) {
    && i < k <= |h.blocks| && mid != []
    && Tiled(mid, h.blocks[i].start, h.blocks[k - 1].next, MIN_BLOCK)
    && Aligned(Members(mid)) && NoAdjacentFree(mid)
    && (i > 0 ==> h.blocks[i - 1].used || mid[0].used)
    && (k < |h.blocks| ==> mid[|mid| - 1].used || h.blocks[k].used)
  }

  lemma Parts(h: Heap, i: nat, k: nat)
    requires i <= k <= |h.blocks|
    ensures h.blocks == h.blocks[..i] + h.blocks[i..k] + h.blocks[k..]
  {
  }

  lemma ReplaceBlocks(h: Heap, i: nat, k: nat, mid: seq<Block>, free: seq<nat>, available: int)
    requires BlocksOk(h) && Fits(h, i, k, mid)
    ensures BlocksOk(Replace(h, i, k, mid, free, available))
  {
    var pre, cut, post := h.blocks[..i], h.blocks[i..k], h.blocks[k..];
    Parts(h, i, k);
    assert Tiled(pre + mid + post, 0, h.Tail(), MIN_BLOCK) by {
      ReplaceTiled(pre, cut, mid, post, 0, h.Tail(), MIN_BLOCK);
    }
    assert Aligned(Members(pre + mid + post)) by {
      ReplaceMembers(pre, cut, mid, post, 0, h.Tail(), MIN_BLOCK);
    }
    assert NoAdjacentFree(pre + mid + post) by {
      NoAdjacentFreeConcat(pre, cut);
      NoAdjacentFreeConcat(pre + cut, post);
      Replace3NoAdjacentFree(pre, mid, post);
    }
  }

  /** Starts are distinct, so the free starts change by exactly the blocks replaced. */
  lemma ReplaceStarts(h: Heap, i: nat, k: nat, mid: seq<Block>)
    requires BlocksOk(h) && Fits(h, i, k, mid)
    ensures FreeStarts(Members(h.blocks[..i] + mid + h.blocks[k..]))
      == FreeStarts(Members(h.blocks)) - FreeStarts(Members(h.blocks[i..k])) + FreeStarts(Members(mid))
  {
    var pre, cut, post := h.blocks[..i], h.blocks[i..k], h.blocks[k..];
    var s, o, m := Members(h.blocks), Members(cut), Members(mid);
    Parts(h, i, k);
    ReplaceMembers(pre, cut, mid, post, 0, h.Tail(), MIN_BLOCK);
    DistinctStarts(h);
    FreeStartsChange(s, o, m);
  }

  lemma DistinctStarts(h: Heap)
    requires BlocksOk(h)
    ensures forall b, c :: b in Members(h.blocks) && c in Members(h.blocks) && b.start == c.start ==> b == c
  {
    TiledOrdered(h.blocks, 0, h.Tail(), MIN_BLOCK);
    forall b, c | b in Members(h.blocks) && c in Members(h.blocks) && b.start == c.start ensures b == c {
      var x :| 0 <= x < |h.blocks| && h.blocks[x] == b;
      var y :| 0 <= y < |h.blocks| && h.blocks[y] == c;
    }
  }

  lemma FreeStartsChange(s: set<Block>, o: set<Block>, m: set<Block>)
    requires o <= s && forall b, c :: b in s && c in o && b.start == c.start ==> b == c
    ensures FreeStarts(s - o + m) == FreeStarts(s) - FreeStarts(o) + FreeStarts(m)
  {
    forall x ensures x in FreeStarts(s - o + m) <==> x in FreeStarts(s) - FreeStarts(o) + FreeStarts(m) {
      if x in FreeStarts(s) && x !in FreeStarts(o) {
        var b :| b in s && !b.used && b.start == x;
        assert b !in o;
        assert b in s - o + m;
      }
    }
  }

  /** One lemma for every operation: the parts of the invariant after a replacement. */
  lemma ReplaceKeeps(h: Heap, i: nat, k: nat, mid: seq<Block>, free: seq<nat>, available: int)
    requires Inv(h) && Fits(h, i, k, mid) && L.NoDup(free)
    requires L.Members(free) == L.Members(h.free) - FreeStarts(Members(h.blocks[i..k])) + FreeStarts(Members(mid))
    requires available == h.available - FreeBytes(h.blocks[i..k], HEADER) + FreeBytes(mid, HEADER)
    ensures Inv(Replace(h, i, k, mid, free, available))
  {
    ReplaceBlocks(h, i, k, mid, free, available);
    ReplaceStarts(h, i, k, mid);
    Parts(h, i, k);
    FreeBytes3(h.blocks[..i], h.blocks[i..k], h.blocks[k..], HEADER);
    FreeBytes3(h.blocks[..i], mid, h.blocks[k..], HEADER);
  }

  // --------------------------------------------------------------------- one or two

  lemma One(b: Block)
    ensures FreeBytes([b], HEADER) == if b.used then 0 else Size(b)
    ensures Members([b]) == {b}
    ensures FreeStarts({b}) == if b.used then {} else {b.start}
    ensures NoAdjacentFree([b])
    ensures Tiled([b], b.start, b.next, MIN_BLOCK) <==> b.start + MIN_BLOCK <= b.next
  {
    assert [b][1..] == [];
  }

  lemma Two(b: Block, c: Block)
    ensures FreeBytes([b, c], HEADER) == (if b.used then 0 else Size(b)) + (if c.used then 0 else Size(c))
    ensures Members([b, c]) == {b, c}
    ensures FreeStarts({b, c}) == FreeStarts({b}) + FreeStarts({c})
    ensures NoAdjacentFree([b, c]) <==> b.used || c.used
    ensures Tiled([b, c], b.start, c.next, MIN_BLOCK) <==>
      b.start + MIN_BLOCK <= b.next && c.start == b.next && b.next + MIN_BLOCK <= c.next
  {
    assert [b, c][1..] == [c] && [c][1..] == [];
    One(c);
  }

  /** What the invariant says about one block and its neighbours. */
  lemma BlockAt(h: Heap, i: nat)
    requires BlocksOk(h) && i < |h.blocks|
    ensures var b := h.blocks[i];
      && b in Members(h.blocks) && b.start % 4 == 0 && b.next % 4 == 0
      && b.start + MIN_BLOCK <= b.next <= h.Tail()
      && (i > 0 ==> h.blocks[i - 1].next == b.start && (b.used || h.blocks[i - 1].used))
      && (i + 1 < |h.blocks| ==> h.blocks[i + 1].start == b.next && (b.used || h.blocks[i + 1].used))
      && (i + 1 == |h.blocks| ==> b.next == h.Tail())
  {
    TiledAt(h.blocks, i, 0, h.Tail(), MIN_BLOCK);
    TiledOrdered(h.blocks, 0, h.Tail(), MIN_BLOCK);
    AdjacentAt(h.blocks, i);
    if i > 0 {
      AdjacentAt(h.blocks, i - 1);
    }
  }

  lemma {:induction false} AdjacentAt(bs: seq<Block>, i: nat)
    requires NoAdjacentFree(bs) && i < |bs|
    ensures i + 1 < |bs| ==> bs[i].used || bs[i + 1].used
    decreases i
  {
    if i > 0 {
      AdjacentAt(bs[1..], i - 1);
    }
  }

  lemma FreeListed(h: Heap, i: nat)
    requires FreeOk(h) && i < |h.blocks|
    ensures !h.blocks[i].used ==> h.blocks[i].start in h.free
  {
    var b := h.blocks[i];
    assert b in Members(h.blocks);
    assert !b.used ==> b.start in FreeStarts(Members(h.blocks));
  }

  /** Every offset in the free list is the header of a free block. */
  lemma ListedBlock(h: Heap, x: nat) returns (j: nat)
    requires FreeOk(h) && x in h.free
    ensures j < |h.blocks| && !h.blocks[j].used && h.blocks[j].start == x
  {
    assert x in L.Members(h.free);
    var c :| c in Members(h.blocks) && !c.used && c.start == x;
    j :| 0 <= j < |h.blocks| && h.blocks[j] == c;
  }

  /** A used block is not in the free list. */
  lemma UsedUnlisted(h: Heap, i: nat)
    requires BlocksOk(h) && FreeOk(h) && i < |h.blocks| && h.blocks[i].used
    ensures h.blocks[i].start !in h.free
  {
    TiledOrdered(h.blocks, 0, h.Tail(), MIN_BLOCK);
    if h.blocks[i].start in h.free {
      var j := ListedBlock(h, h.blocks[i].start);
    }
  }

  // --------------------------------------------------------------------- allocating

  /** The aligned request, at least the minimum; aligning may wrap to 0. */
  ghost function Need(request: nat): nat {
    if RtAlign(request) < MIN_DATA then MIN_DATA else RtAlign(request)
  }

  /** First block in free-list order with `n` data bytes. */
  ghost function Choose(bs: seq<Block>, free: seq<nat>, n: nat): (k: nat)
    ensures k <= |bs|
  {
    if free == [] then |bs|
    else
      var k := IndexAt(bs, free[0]);
      if k < |bs| && Size(bs[k]) >= n then k else Choose(bs, free[1..], n)
  }

  ghost predicate Splits(b: Block, n: nat) {
    Size(b) >= n + HEADER + MIN_DATA
  }

  /** The first `n` data bytes are taken and the rest is a new free block. */
  ghost function SplitAt(h: Heap, i: nat, n: nat): Heap
    requires i < |h.blocks|
  {
    var b := h.blocks[i];
    var cut := b.start + HEADER + n;
    Replace(h, i, i + 1, [Block(b.start, cut, true), Block(cut, b.next, false)],
            [cut] + L.Without(h.free, b.start), h.available - n - HEADER)
  }

  ghost function WholeAt(h: Heap, i: nat): Heap
    requires i < |h.blocks|
  {
    var b := h.blocks[i];
    Replace(h, i, i + 1, [b.(used := true)], L.Without(h.free, b.start), h.available - Size(b))
  }

  ghost function AllocAt(h: Heap, i: nat, n: nat): Heap
    requires i < |h.blocks|
  {
    if Splits(h.blocks[i], n) then SplitAt(h, i, n) else WholeAt(h, i)
  }

  ghost predicate CanTake(h: Heap, i: nat, n: nat) {
    i < |h.blocks| && !h.blocks[i].used && Size(h.blocks[i]) >= n && n % 4 == 0 && n >= MIN_DATA
  }

  /** An offset strictly inside a block is no header, so it is not in the free list. */
  lemma InsideUnlisted(h: Heap, i: nat, x: nat)
    requires BlocksOk(h) && FreeOk(h) && i < |h.blocks| && h.blocks[i].start < x < h.blocks[i].next
    ensures x !in h.free
  {
    TiledOrdered(h.blocks, 0, h.Tail(), MIN_BLOCK);
    if x in h.free {
      var j := ListedBlock(h, x);
    }
  }

  /** The free list with `y` put in front of what is left without `x`. */
  lemma Relist(free: seq<nat>, x: nat, y: nat)
    requires L.NoDup(free) && y !in free
    ensures L.NoDup([y] + L.Without(free, x)) && L.NoDup(L.Without(free, x)) && L.NoDup([y] + free)
    ensures L.Members([y] + L.Without(free, x)) == L.Members(free) - {x} + {y}
    ensures L.Members(L.Without(free, x)) == L.Members(free) - {x}
    ensures L.Members([y] + free) == L.Members(free) + {y}
  {
    L.WithoutNoDup(free, x);
    assert ([y] + L.Without(free, x))[1..] == L.Without(free, x);
    assert ([y] + free)[1..] == free;
  }

  /** One block, or two, in place of blocks `i` to `k`. */
  lemma FitsOne(h: Heap, i: nat, k: nat, c: Block)
    requires BlocksOk(h) && i < k <= |h.blocks|
    requires c.start == h.blocks[i].start && c.next == h.blocks[k - 1].next
    requires i > 0 ==> h.blocks[i - 1].used || c.used
    requires k < |h.blocks| ==> c.used || h.blocks[k].used
    ensures Fits(h, i, k, [c])
  {
    BlockAt(h, i);
    BlockAt(h, k - 1);
    TiledOrdered(h.blocks, 0, h.Tail(), MIN_BLOCK);
    One(c);
  }

  lemma FitsTwo(h: Heap, i: nat, k: nat, c: Block, d: Block)
    requires BlocksOk(h) && i < k <= |h.blocks| && c.used && c.next == d.start && c.next % 4 == 0
    requires c.start == h.blocks[i].start && d.next == h.blocks[k - 1].next
    requires c.start + MIN_BLOCK <= c.next && d.start + MIN_BLOCK <= d.next
    requires k < |h.blocks| ==> d.used || h.blocks[k].used
    ensures Fits(h, i, k, [c, d])
  {
    BlockAt(h, i);
    BlockAt(h, k - 1);
    Two(c, d);
  }

  /** A used block and a free one in place of blocks `i` to `k`. */
  lemma RecutKeeps(h: Heap, i: nat, k: nat, c: Block, d: Block, free: seq<nat>, available: int)
    requires Inv(h) && Fits(h, i, k, [c, d]) && c.used && !d.used && L.NoDup(free)
    requires L.Members(free) == L.Members(h.free) - FreeStarts(Members(h.blocks[i..k])) + {d.start}
    requires available == h.available - FreeBytes(h.blocks[i..k], HEADER) + Size(d)
    ensures Inv(Replace(h, i, k, [c, d], free, available))
  {
    Two(c, d);
    One(c);
    One(d);
    ReplaceKeeps(h, i, k, [c, d], free, available);
  }

  lemma AllocSplit(h: Heap, i: nat, n: nat)
    requires Inv(h) && CanTake(h, i, n) && Splits(h.blocks[i], n)
    ensures Inv(SplitAt(h, i, n))
  {
    var b := h.blocks[i];
    var cut := b.start + HEADER + n;
    var c, d := Block(b.start, cut, true), Block(cut, b.next, false);
    assert h.blocks[i..i + 1] == [b];
    SplitFits(h, i, n);
    var fl := [cut] + L.Without(h.free, b.start);
    assert L.NoDup(fl) && L.Members(fl) == L.Members(h.free) - {b.start} + {cut} by {
      InsideUnlisted(h, i, cut);
      Relist(h.free, b.start, cut);
    }
    One(b);
    RecutKeeps(h, i, i + 1, c, d, fl, h.available - n - HEADER);
  }

  lemma SplitFits(h: Heap, i: nat, n: nat)
    requires BlocksOk(h) && CanTake(h, i, n) && Splits(h.blocks[i], n)
    ensures var b := h.blocks[i];
      var cut := b.start + HEADER + n;
      b.start < cut < b.next && Fits(h, i, i + 1, [Block(b.start, cut, true), Block(cut, b.next, false)])
  {
    var b := h.blocks[i];
    var cut := b.start + HEADER + n;
    BlockAt(h, i);
    FitsTwo(h, i, i + 1, Block(b.start, cut, true), Block(cut, b.next, false));
  }

  lemma AllocWhole(h: Heap, i: nat, n: nat)
    requires Inv(h) && CanTake(h, i, n)
    ensures Inv(WholeAt(h, i))
  {
    var b := h.blocks[i];
    var c := b.(used := true);
    assert h.blocks[i..i + 1] == [b];
    assert Fits(h, i, i + 1, [c]) by {
      BlockAt(h, i);
      FitsOne(h, i, i + 1, c);
    }
    var fl := L.Without(h.free, b.start);
    assert L.NoDup(fl) && L.Members(fl) == L.Members(h.free) - {b.start} by {
      L.WithoutNoDup(h.free, b.start);
    }
    One(b);
    One(c);
    ReplaceKeeps(h, i, i + 1, [c], fl, h.available - Size(b));
  }

  lemma AllocKeeps(h: Heap, i: nat, n: nat)
    requires Inv(h) && CanTake(h, i, n)
    ensures Inv(AllocAt(h, i, n))
  {
    if Splits(h.blocks[i], n) {
      AllocSplit(h, i, n);
    } else {
      AllocWhole(h, i, n);
    }
  }

  /** Block index rt_memheap_alloc takes, or the number of blocks when it returns NULL. */
  ghost function Choice(h: Heap, request: nat): (k: nat)
    ensures k <= |h.blocks|
  {
    if Need(request) < h.available then Choose(h.blocks, h.free, Need(request)) else |h.blocks|
  }

  lemma {:induction false} ChooseFits(bs: seq<Block>, free: seq<nat>, n: nat)
    requires forall x :: x in free ==> x in FreeStarts(Members(bs))
    requires Ordered(bs)
    ensures var k := Choose(bs, free, n); k < |bs| ==> !bs[k].used && Size(bs[k]) >= n
    ensures Choose(bs, free, n) == |bs| ==>
      forall j :: 0 <= j < |bs| && bs[j].start in free ==> Size(bs[j]) < n
    decreases |free|
  {
    if free != [] {
      var x := free[0];
      var k := IndexAt(bs, x);
      assert x in free;
      var c :| c in Members(bs) && !c.used && c.start == x;
      var j :| 0 <= j < |bs| && bs[j] == c;
      assert k == j;
      ChooseFits(bs, free[1..], n);
      assert forall j :: 0 <= j < |bs| && bs[j].start == x ==> j == k;
    }
  }

  lemma NeedOk(request: nat)
    requires request < SIZE_LIMIT
    ensures Need(request) % 4 == 0 && MIN_DATA <= Need(request) < SIZE_LIMIT
  {
    RtAlignRoundsUp(request);
  }

  lemma ChoiceTakes(h: Heap, request: nat)
    requires Inv(h) && request < SIZE_LIMIT && Choice(h, request) < |h.blocks|
    ensures CanTake(h, Choice(h, request), Need(request))
  {
    NeedOk(request);
    TiledOrdered(h.blocks, 0, h.Tail(), MIN_BLOCK);
    forall x | x in h.free ensures x in FreeStarts(Members(h.blocks)) {
      assert x in L.Members(h.free);
    }
    ChooseFits(h.blocks, h.free, Need(request));
  }

  /**
    When NULL is returned: no free block is large enough, or the strict test of
    the available size turned the request away.
   */
  lemma NullIff(h: Heap, request: nat)
    requires Inv(h) && request < SIZE_LIMIT
    ensures Choice(h, request) == |h.blocks| <==>
      || h.available <= Need(request)
      || forall j :: 0 <= j < |h.blocks| && !h.blocks[j].used ==> Size(h.blocks[j]) < Need(request)
  {
    TiledOrdered(h.blocks, 0, h.Tail(), MIN_BLOCK);
    forall x | x in h.free ensures x in FreeStarts(Members(h.blocks)) {
      assert x in L.Members(h.free);
    }
    ChooseFits(h.blocks, h.free, Need(request));
    forall j | 0 <= j < |h.blocks| && !h.blocks[j].used ensures h.blocks[j].start in h.free {
      FreeListed(h, j);
    }
  }

  lemma {:induction false} FreeBytesAt(bs: seq<Block>, j: nat, lo: nat, hi: nat)
    requires Tiled(bs, lo, hi, MIN_BLOCK) && j < |bs| && !bs[j].used
    ensures FreeBytes(bs, HEADER) >= Size(bs[j])
    ensures FreeBytes(bs, HEADER) == Size(bs[j]) ==> forall k :: 0 <= k < |bs| && k != j ==> bs[k].used
    decreases |bs|
  {
    NonNegative(bs[1..], bs[0].next, hi);
    if j > 0 {
      FreeBytesAt(bs[1..], j - 1, bs[0].next, hi);
      assert forall k :: 0 < k < |bs| ==> bs[k] == bs[1..][k - 1];
    } else {
      AllUsed(bs[1..], bs[0].next, hi);
      assert forall k :: 0 < k < |bs| ==> bs[k] == bs[1..][k - 1];
    }
  }

  lemma {:induction false} NonNegative(bs: seq<Block>, lo: nat, hi: nat)
    requires Tiled(bs, lo, hi, MIN_BLOCK)
    ensures FreeBytes(bs, HEADER) >= 0
    decreases |bs|
  {
    if bs != [] {
      NonNegative(bs[1..], bs[0].next, hi);
    }
  }

  lemma {:induction false} AllUsed(bs: seq<Block>, lo: nat, hi: nat)
    requires Tiled(bs, lo, hi, MIN_BLOCK)
    ensures FreeBytes(bs, HEADER) == 0 ==> forall k :: 0 <= k < |bs| ==> bs[k].used
    decreases |bs|
  {
    if bs != [] {
      NonNegative(bs[1..], bs[0].next, hi);
      AllUsed(bs[1..], bs[0].next, hi);
      assert forall k :: 0 < k < |bs| ==> bs[k] == bs[1..][k - 1];
    }
  }

  /**
    A request that would fit is refused exactly when there is a single free block
    and it has exactly the size asked for.
   */
  lemma RefusedThoughFitsIff(h: Heap, request: nat, j: nat)
    requires Inv(h) && request < SIZE_LIMIT && j < |h.blocks| && !h.blocks[j].used && Size(h.blocks[j]) >= Need(request)
    ensures Choice(h, request) == |h.blocks| <==>
      Size(h.blocks[j]) == Need(request) && forall k :: 0 <= k < |h.blocks| && k != j ==> h.blocks[k].used
  {
    NullIff(h, request);
    FreeBytesAt(h.blocks, j, 0, h.Tail());
    if forall k :: 0 <= k < |h.blocks| && k != j ==> h.blocks[k].used {
      OnlyFree(h.blocks, j);
    }
  }

  lemma {:induction false} OnlyFree(bs: seq<Block>, j: nat)
    requires j < |bs| && !bs[j].used && forall k :: 0 <= k < |bs| && k != j ==> bs[k].used
    ensures FreeBytes(bs, HEADER) == Size(bs[j])
    decreases |bs|
  {
    if j > 0 {
      OnlyFree(bs[1..], j - 1);
    } else {
      NoneFree(bs[1..]);
    }
  }

  lemma {:induction false} NoneFree(bs: seq<Block>)
    requires forall k :: 0 <= k < |bs| ==> bs[k].used
    ensures FreeBytes(bs, HEADER) == 0
    decreases |bs|
  {
    if bs != [] {
      NoneFree(bs[1..]);
    }
  }

  // ------------------------------------------------------------------------ freeing

  ghost predicate LeftFree(h: Heap, i: nat) {
    0 < i <= |h.blocks| && !h.blocks[i - 1].used
  }

  ghost predicate RightFree(h: Heap, i: nat) {
    i + 1 < |h.blocks| && !h.blocks[i + 1].used
  }

  /** The free list after freeing block `i`: a free left neighbour keeps its place. */
  ghost function FreedList(h: Heap, i: nat): seq<nat>
    requires i < |h.blocks|
  {
    var fl := if RightFree(h, i) then L.Without(h.free, h.blocks[i + 1].start) else h.free;
    if LeftFree(h, i) then fl else [h.blocks[i].start] + fl
  }

  ghost function FreedSize(h: Heap, i: nat): int
    requires i < |h.blocks|
  {
    h.available + Size(h.blocks[i]) + (if LeftFree(h, i) then HEADER else 0) + (if RightFree(h, i) then HEADER else 0)
  }

  /** rt_memheap_free: the block and its free neighbours become one free block. */
  ghost function FreeAt(h: Heap, i: nat): Heap
    requires i < |h.blocks|
  {
    var lo := if LeftFree(h, i) then i - 1 else i;
    var hi := if RightFree(h, i) then i + 2 else i + 1;
    Replace(h, lo, hi, [Block(h.blocks[lo].start, h.blocks[hi - 1].next, false)], FreedList(h, i), FreedSize(h, i))
  }

  lemma FreedFits(h: Heap, i: nat, lo: nat, hi: nat)
    requires BlocksOk(h) && i < |h.blocks| && h.blocks[i].used
    requires lo == (if LeftFree(h, i) then i - 1 else i) && hi == if RightFree(h, i) then i + 2 else i + 1
    ensures Fits(h, lo, hi, [Block(h.blocks[lo].start, h.blocks[hi - 1].next, false)])
    ensures Size(Block(h.blocks[lo].start, h.blocks[hi - 1].next, false)) - FreeBytes(h.blocks[lo..hi], HEADER)
      == Size(h.blocks[i]) + (if LeftFree(h, i) then HEADER else 0) + if RightFree(h, i) then HEADER else 0
  {
    BlockAt(h, i);
    BlockAt(h, lo);
    BlockAt(h, hi - 1);
    FitsOne(h, lo, hi, Block(h.blocks[lo].start, h.blocks[hi - 1].next, false));
    NeighbourBytes(h, i);
  }

  /** Free data bytes and free headers in the neighbourhood of a used block. */
  lemma NeighbourBytes(h: Heap, i: nat)
    requires i < |h.blocks| && h.blocks[i].used
    ensures var lo, hi := if LeftFree(h, i) then i - 1 else i, if RightFree(h, i) then i + 2 else i + 1;
      FreeBytes(h.blocks[lo..hi], HEADER)
        == (if LeftFree(h, i) then Size(h.blocks[i - 1]) else 0)
          + (if RightFree(h, i) then Size(h.blocks[i + 1]) else 0)
  {
    var lo, hi := if LeftFree(h, i) then i - 1 else i, if RightFree(h, i) then i + 2 else i + 1;
    var l, b, r := h.blocks[lo..i], h.blocks[i..i + 1], h.blocks[i + 1..hi];
    Slices(h.blocks, lo, i, hi);
    FreeBytes3(l, b, r, HEADER);
    One(h.blocks[i]);
    AtMostOne(l);
    AtMostOne(r);
  }

  lemma NeighbourStarts(h: Heap, i: nat)
    requires i < |h.blocks| && h.blocks[i].used
    ensures var lo, hi := if LeftFree(h, i) then i - 1 else i, if RightFree(h, i) then i + 2 else i + 1;
      FreeStarts(Members(h.blocks[lo..hi]))
        == (if LeftFree(h, i) then {h.blocks[i - 1].start} else {})
          + if RightFree(h, i) then {h.blocks[i + 1].start} else {}
  {
    var lo, hi := if LeftFree(h, i) then i - 1 else i, if RightFree(h, i) then i + 2 else i + 1;
    var l, b, r := h.blocks[lo..i], h.blocks[i..i + 1], h.blocks[i + 1..hi];
    Slices(h.blocks, lo, i, hi);
    One(h.blocks[i]);
    AtMostOne(l);
    AtMostOne(r);
    Members3(l, b, r);
    FreeStartsUnion(Members(l), Members(b), Members(r));
  }

  lemma Slices(bs: seq<Block>, lo: nat, i: nat, hi: nat)
    requires lo <= i < hi <= |bs|
    ensures bs[lo..hi] == bs[lo..i] + bs[i..i + 1] + bs[i + 1..hi]
    ensures bs[i..i + 1] == [bs[i]]
  {
  }

  lemma AtMostOne(l: seq<Block>)
    requires |l| <= 1 && (l != [] ==> !l[0].used)
    ensures FreeBytes(l, HEADER) == if l == [] then 0 else Size(l[0])
    ensures FreeStarts(Members(l)) == if l == [] then {} else {l[0].start}
  {
    if l != [] {
      assert l == [l[0]];
      One(l[0]);
    }
  }

  lemma Members3(l: seq<Block>, b: seq<Block>, r: seq<Block>)
    ensures Members(l + b + r) == Members(l) + Members(b) + Members(r)
  {
  }

  lemma FreeStartsUnion(a: set<Block>, b: set<Block>, c: set<Block>)
    ensures FreeStarts(a + b + c) == FreeStarts(a) + FreeStarts(b) + FreeStarts(c)
  {
  }

  lemma FreedListOk(h: Heap, i: nat)
    requires BlocksOk(h) && FreeOk(h) && i < |h.blocks| && h.blocks[i].used
    ensures L.NoDup(FreedList(h, i))
    ensures L.Members(FreedList(h, i)) == L.Members(h.free)
      - (if RightFree(h, i) then {h.blocks[i + 1].start} else {}) + if LeftFree(h, i) then {} else {h.blocks[i].start}
  {
    UsedUnlisted(h, i);
    Relist(h.free, if RightFree(h, i) then h.blocks[i + 1].start else 0, h.blocks[i].start);
  }

  lemma FreedListMeets(h: Heap, i: nat, lo: nat, hi: nat)
    requires BlocksOk(h) && FreeOk(h) && i < |h.blocks| && h.blocks[i].used
    requires lo == (if LeftFree(h, i) then i - 1 else i) && hi == if RightFree(h, i) then i + 2 else i + 1
    ensures L.NoDup(FreedList(h, i))
    ensures L.Members(FreedList(h, i))
      == L.Members(h.free) - FreeStarts(Members(h.blocks[lo..hi])) + {h.blocks[lo].start}
  {
    FreedListOk(h, i);
    NeighbourStarts(h, i);
    var right := if RightFree(h, i) then {h.blocks[i + 1].start} else {};
    var listed := L.Members(h.free);
    if LeftFree(h, i) {
      var x := h.blocks[i - 1].start;
      FreeListed(h, i - 1);
      BlockAt(h, i - 1);
      BlockAt(h, i);
      assert x !in right;
      PutBack(listed, x, right);
    } else {
      assert L.Members(FreedList(h, i)) == listed - right + {h.blocks[i].start};
    }
  }

  lemma PutBack(f: set<nat>, x: nat, r: set<nat>)
    requires x in f && x !in r
    ensures f - r + {} == f - ({x} + r) + {x}
  {
  }

  lemma FreeKeeps(h: Heap, i: nat)
    requires Inv(h) && i < |h.blocks| && h.blocks[i].used
    ensures Inv(FreeAt(h, i))
  {
    var lo, hi := if LeftFree(h, i) then i - 1 else i, if RightFree(h, i) then i + 2 else i + 1;
    var c := Block(h.blocks[lo].start, h.blocks[hi - 1].next, false);
    var r := Replace(h, lo, hi, [c], FreedList(h, i), FreedSize(h, i));
    assert FreeAt(h, i) == r;
    assert Inv(r) by {
      FreedFits(h, i, lo, hi);
      FreedListMeets(h, i, lo, hi);
      One(c);
      ReplaceKeeps(h, lo, hi, [c], FreedList(h, i), FreedSize(h, i));
    }
  }

  // ----------------------------------------------------------------------- resizing

  /** 32-bit unsigned arithmetic. */
  function Wrap(x: int): (r: nat)
    ensures r < SIZE_LIMIT
  {
    x % SIZE_LIMIT
  }

  /** The test that the free right neighbour is large enough, as computed in 32 bits. */
  ghost predicate GrowTest(own: int, right: int, n: int) {
    Wrap(right + own) > Wrap(n + MIN_DATA)
  }

  /** Block `i` grows into its free right neighbour, all in 32-bit arithmetic. */
  ghost function GrowAt(h: Heap, i: nat, n: nat): Heap
    requires i + 1 < |h.blocks|
  {
    var b, r := h.blocks[i], h.blocks[i + 1];
    var cut := Wrap(b.start + HEADER + n);
    Replace(h, i, i + 2, [Block(b.start, cut, true), Block(cut, r.next, false)],
            [cut] + L.Without(h.free, r.start), Wrap(h.available - (n - Size(b))))
  }

  /** A used block `i` followed by a free one, to be resized to `n` bytes. */
  ghost predicate Resizable(h: Heap, i: nat, n: nat) {
    i < |h.blocks| && h.blocks[i].used && n % 4 == 0 && MIN_DATA <= n < SIZE_LIMIT
  }

  lemma WrapIs(x: int)
    ensures 0 <= x < SIZE_LIMIT ==> Wrap(x) == x
    ensures SIZE_LIMIT <= x < 2 * SIZE_LIMIT ==> Wrap(x) == x - SIZE_LIMIT
  {
  }

  /** The wrapped test says what it means exactly for sizes below 2^32 - 12. */
  lemma GrowTestIff(h: Heap, i: nat, n: nat)
    requires Inv(h) && Resizable(h, i, n) && RightFree(h, i) && n > Size(h.blocks[i])
    ensures var b, r := h.blocks[i], h.blocks[i + 1];
      (GrowTest(Size(b), Size(r), n) <==> Size(b) + Size(r) > n + MIN_DATA) <==> n < SIZE_LIMIT - MIN_DATA
  {
    var b, r := h.blocks[i], h.blocks[i + 1];
    BlockAt(h, i);
    BlockAt(h, i + 1);
    WrapIs(Size(b) + Size(r));
    WrapIs(n + MIN_DATA);
  }

  lemma PairBytes(h: Heap, i: nat)
    requires i + 1 < |h.blocks| && h.blocks[i].used && !h.blocks[i + 1].used
    ensures FreeBytes(h.blocks[i..i + 2], HEADER) == Size(h.blocks[i + 1])
    ensures FreeStarts(Members(h.blocks[i..i + 2])) == {h.blocks[i + 1].start}
  {
    assert h.blocks[i..i + 2] == [h.blocks[i], h.blocks[i + 1]];
    Two(h.blocks[i], h.blocks[i + 1]);
    One(h.blocks[i]);
    One(h.blocks[i + 1]);
  }

  /** Used block `i` and its free neighbour, divided anew at `cut`. */
  ghost function RecutAt(h: Heap, i: nat, cut: nat): Heap
    requires i + 1 < |h.blocks|
  {
    var b, r := h.blocks[i], h.blocks[i + 1];
    Replace(h, i, i + 2, [Block(b.start, cut, true), Block(cut, r.next, false)],
            [cut] + L.Without(h.free, r.start), h.available - (cut - b.next))
  }

  /** The new boundary is in no other block, so its offset is not in what is left of the free list. */
  lemma CutUnlisted(h: Heap, i: nat, cut: nat)
    requires BlocksOk(h) && FreeOk(h) && i + 1 < |h.blocks| && h.blocks[i].start < cut < h.blocks[i + 1].next
    ensures cut !in L.Without(h.free, h.blocks[i + 1].start)
  {
    TiledOrdered(h.blocks, 0, h.Tail(), MIN_BLOCK);
    BlockAt(h, i);
    if cut in h.free {
      var j := ListedBlock(h, cut);
    }
  }

  lemma RecutListOk(h: Heap, i: nat, cut: nat)
    requires BlocksOk(h) && FreeOk(h) && i + 1 < |h.blocks| && h.blocks[i].start < cut < h.blocks[i + 1].next
    ensures var fl := [cut] + L.Without(h.free, h.blocks[i + 1].start);
      L.NoDup(fl) && L.Members(fl) == L.Members(h.free) - {h.blocks[i + 1].start} + {cut}
  {
    CutUnlisted(h, i, cut);
    var w := L.Without(h.free, h.blocks[i + 1].start);
    L.WithoutNoDup(h.free, h.blocks[i + 1].start);
    assert ([cut] + w)[1..] == w;
  }

  lemma RecutInv(h: Heap, i: nat, cut: nat)
    requires Inv(h) && i < |h.blocks| && h.blocks[i].used && RightFree(h, i) && cut % 4 == 0
    requires h.blocks[i].start + MIN_BLOCK <= cut && cut + MIN_BLOCK <= h.blocks[i + 1].next
    ensures Inv(RecutAt(h, i, cut))
  {
    var b, r := h.blocks[i], h.blocks[i + 1];
    var c, d := Block(b.start, cut, true), Block(cut, r.next, false);
    assert Fits(h, i, i + 2, [c, d]) by {
      BlockAt(h, i + 1);
      FitsTwo(h, i, i + 2, c, d);
    }
    RecutListOk(h, i, cut);
    assert h.available - (cut - b.next) == h.available - Size(r) + Size(d) by {
      BlockAt(h, i);
    }
    PairBytes(h, i);
    RecutKeeps(h, i, i + 2, c, d, [cut] + L.Without(h.free, r.start), h.available - (cut - b.next));
  }

  /** Growing in place is right exactly if the aligned size is below 2^32 - 12. */
  lemma GrowIff(h: Heap, i: nat, n: nat)
    requires Inv(h) && Resizable(h, i, n) && RightFree(h, i) && n > Size(h.blocks[i])
    requires GrowTest(Size(h.blocks[i]), Size(h.blocks[i + 1]), n)
    ensures Inv(GrowAt(h, i, n)) <==> n < SIZE_LIMIT - MIN_DATA
  {
    var b := h.blocks[i];
    if n < SIZE_LIMIT - MIN_DATA {
      GrowIsRecut(h, i, n);
      RecutInv(h, i, b.start + HEADER + n);
    } else {
      GrowCorrupts(h, i, n);
    }
  }

  lemma GrowIsRecut(h: Heap, i: nat, n: nat)
    requires Inv(h) && Resizable(h, i, n) && RightFree(h, i) && Size(h.blocks[i]) < n < SIZE_LIMIT - MIN_DATA
    requires GrowTest(Size(h.blocks[i]), Size(h.blocks[i + 1]), n)
    ensures var cut := h.blocks[i].start + HEADER + n;
      && cut % 4 == 0 && h.blocks[i].start + MIN_BLOCK <= cut && cut + MIN_BLOCK <= h.blocks[i + 1].next
      && GrowAt(h, i, n) == RecutAt(h, i, cut)
  {
    var b, r := h.blocks[i], h.blocks[i + 1];
    BlockAt(h, i);
    BlockAt(h, i + 1);
    GrowTestIff(h, i, n);
    var cut := b.start + HEADER + n;
    CutAligned(b.start, b.next, r.next, n);
    WrapIs(cut);
    AvailableBounds(h, i + 1);
    WrapIs(h.available - (n - Size(b)));
  }

  lemma AvailableBounds(h: Heap, j: nat)
    requires Inv(h) && j < |h.blocks| && !h.blocks[j].used
    ensures Size(h.blocks[j]) <= h.available <= h.Tail()
  {
    FreeBytesAt(h.blocks, j, 0, h.Tail());
    FreeBytesBound(h.blocks, 0, h.Tail());
  }

  /** More than 12 bytes left over, all aligned, means at least 12. */
  lemma CutAligned(start: nat, mid: nat, end: nat, n: nat)
    requires start % 4 == 0 && n % 4 == 0 && end % 4 == 0
    requires (mid - start - HEADER) + (end - mid - HEADER) > n + MIN_DATA
    ensures (start + HEADER + n) % 4 == 0 && start + HEADER + n + MIN_BLOCK <= end
  {
  }

  lemma {:induction false} FreeBytesBound(bs: seq<Block>, lo: nat, hi: nat)
    requires Tiled(bs, lo, hi, MIN_BLOCK)
    ensures FreeBytes(bs, HEADER) <= hi - lo
    decreases |bs|
  {
    if bs != [] {
      FreeBytesBound(bs[1..], bs[0].next, hi);
    }
  }

  /** For the three largest aligned sizes the boundary wraps into the block's own header. */
  lemma GrowCorrupts(h: Heap, i: nat, n: nat)
    requires Inv(h) && Resizable(h, i, n) && RightFree(h, i) && n >= SIZE_LIMIT - MIN_DATA
    ensures h.blocks[i].start < GrowAt(h, i, n).blocks[i].next < h.blocks[i].start + HEADER
    ensures !Inv(GrowAt(h, i, n))
  {
    var b := h.blocks[i];
    BlockAt(h, i);
    var g := GrowAt(h, i, n);
    WrapIs(b.start + HEADER + n);
    assert g.blocks[i] == Block(b.start, b.start + HEADER + n - SIZE_LIMIT, true);
    if Inv(g) {
      BlockAt(g, i);
    }
  }

  /** Used block `i`, cut off at `cut`; the rest is a new free block. */
  ghost function CutAt(h: Heap, i: nat, cut: nat): Heap
    requires i < |h.blocks|
  {
    var b := h.blocks[i];
    Replace(h, i, i + 1, [Block(b.start, cut, true), Block(cut, b.next, false)],
            [cut] + h.free, h.available + (b.next - cut - HEADER))
  }

  /** Used block `i` gives up its tail, which joins a free right neighbour. */
  ghost function ShrinkAt(h: Heap, i: nat, n: nat): Heap
    requires i < |h.blocks|
  {
    var cut := h.blocks[i].start + HEADER + n;
    if RightFree(h, i) then RecutAt(h, i, cut) else CutAt(h, i, cut)
  }

  lemma ShrinkKeeps(h: Heap, i: nat, n: nat)
    requires Inv(h) && Resizable(h, i, n) && n + HEADER + MIN_DATA < Size(h.blocks[i])
    ensures Inv(ShrinkAt(h, i, n))
  {
    var cut := h.blocks[i].start + HEADER + n;
    ShrinkBounds(h, i, cut, n);
    if RightFree(h, i) {
      RecutInv(h, i, cut);
    } else {
      ShrinkAlone(h, i, cut);
    }
  }

  lemma ShrinkBounds(h: Heap, i: nat, cut: nat, n: nat)
    requires BlocksOk(h) && Resizable(h, i, n) && n + HEADER + MIN_DATA < Size(h.blocks[i])
    requires cut == h.blocks[i].start + HEADER + n
    ensures cut % 4 == 0 && h.blocks[i].start + MIN_BLOCK <= cut && cut + MIN_BLOCK <= h.blocks[i].next
    ensures RightFree(h, i) ==> cut + MIN_BLOCK <= h.blocks[i + 1].next
  {
    BlockAt(h, i);
    if RightFree(h, i) {
      BlockAt(h, i + 1);
    }
  }

  lemma ShrinkAlone(h: Heap, i: nat, cut: nat)
    requires Inv(h) && i < |h.blocks| && h.blocks[i].used && !RightFree(h, i) && cut % 4 == 0
    requires h.blocks[i].start + MIN_BLOCK <= cut && cut + MIN_BLOCK <= h.blocks[i].next
    ensures Inv(CutAt(h, i, cut))
  {
    var b := h.blocks[i];
    var c, d := Block(b.start, cut, true), Block(cut, b.next, false);
    assert h.blocks[i..i + 1] == [b];
    FitsTwo(h, i, i + 1, c, d);
    InsideUnlisted(h, i, cut);
    Relist(h.free, 0, cut);
    One(b);
    RecutKeeps(h, i, i + 1, c, d, [cut] + h.free, h.available + (b.next - cut - HEADER));
  }
}
