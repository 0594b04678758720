/**
  Specification of the small-memory heap of mem.c on its block list: what
  rt_malloc, rt_free and the in-place shrink of rt_realloc do to the blocks, the
  `lfree` hint and the two counters, and the properties of every run of them.
 */
module SmallMemSpec {
  import opened BlockList

  const HEADER: nat := 12             // SIZEOF_STRUCT_MEM on a 32-bit target
  const MIN_DATA: nat := 12           // MIN_SIZE_ALIGNED
  const MIN_BLOCK: nat := 16          // a header and one aligned word

  datatype Heap = Heap(size: nat, blocks: seq<Block>, lfree: nat, used: int, max: int) {
    /** Offset of `heap_end`. */
    function End(): nat { size + HEADER }
  }

  datatype Ptr = Null | At(offset: int)

  /** `lfree` is the header of a free block, or `heap_end`. */
  ghost predicate HintOk(s: set<Block>, end: nat, lfree: nat) {
    lfree == end || exists b :: b in s && b.start == lfree && !b.used
  }

  /** No free block lies below the hint. */
  ghost predicate NoneBelow(s: set<Block>, lfree: nat) {
    forall b :: b in s && !b.used ==> lfree <= b.start
  }

  ghost predicate Inv(h: Heap) {
    && h.size % 4 == 0 && MIN_DATA <= h.size && h.End() + HEADER < SIZE_LIMIT
    && h.blocks != [] && Tiled(h.blocks, 0, h.End(), MIN_BLOCK)
    && Aligned(Members(h.blocks))
    && NoAdjacentFree(h.blocks)
    && HintOk(Members(h.blocks), h.End(), h.lfree)
    && h.used == UsedBytes(h.blocks) <= h.max
  }

  ghost predicate HintLowest(h: Heap) {
    NoneBelow(Members(h.blocks), h.lfree)
  }

  ghost predicate Live(h: Heap, i: int) {
    0 <= i < |h.blocks| && h.blocks[i].used
  }

  function InitHeap(size: nat): Heap {
    Heap(size, [Block(0, size + HEADER, false)], 0, 0, 0)
  }

  // ---------------------------------------------------------------- searching

  ghost predicate Fits(b: Block, n: nat) {
    !b.used && b.start + HEADER + n <= b.next
  }

  /** First block from index `i` on that starts below `limit` and can hold `n` bytes, or `|bs|`. */
  ghost function FirstFit(bs: seq<Block>, i: nat, limit: nat, n: nat): (k: nat)
    requires i <= |bs|
    ensures i <= k <= |bs|
    ensures k < |bs| ==> bs[k].start < limit && Fits(bs[k], n)
    ensures forall j :: i <= j < k && (Ordered(bs) || k < |bs|) && bs[j].start < limit ==> !Fits(bs[j], n)
    decreases |bs| - i
  {
    if i == |bs| || bs[i].start >= limit then |bs|
    else if Fits(bs[i], n) then i
    else FirstFit(bs, i + 1, limit, n)
  }

  /** Offset of the first free block from index `i` on, or `end`. */
  ghost function NextFree(bs: seq<Block>, end: nat, i: nat): nat
    requires i <= |bs|
    decreases |bs| - i
  {
    if i == |bs| then end
    else if !bs[i].used then bs[i].start
    else NextFree(bs, end, i + 1)
  }

  lemma {:induction false} NextFreeIsLowest(bs: seq<Block>, end: nat, i: nat, lo: nat)
    requires i <= |bs| && Tiled(bs, lo, end, MIN_BLOCK)
    ensures HintOk(Members(bs), end, NextFree(bs, end, i))
    ensures forall j :: i <= j < |bs| && !bs[j].used ==> NextFree(bs, end, i) <= bs[j].start
    ensures i < |bs| ==> bs[i].start <= NextFree(bs, end, i)
    decreases |bs| - i
  {
    TiledOrdered(bs, lo, end, MIN_BLOCK);
    if i < |bs| {
      assert bs[i] in Members(bs);
      if bs[i].used {
        NextFreeIsLowest(bs, end, i + 1, lo);
      }
    }
  }

  // --------------------------------------------------------------- operations

  /** The blocks that replace free block `b` when `n` bytes are taken from it. */
  ghost function Carve(b: Block, n: nat): seq<Block>
  {
    if b.start + HEADER + n + HEADER + MIN_DATA <= b.next
    then Split(b, n)
    else [b.(used := true)]
  }

  ghost function Split(b: Block, n: nat): seq<Block> {
    [Block(b.start, b.start + HEADER + n, true), Block(b.start + HEADER + n, b.next, false)]
  }

  ghost function Allocate(h: Heap, i: nat, n: nat): Heap
    requires i < |h.blocks|
  {
    var mid := Carve(h.blocks[i], n);
    var bs := h.blocks[..i] + mid + h.blocks[i + 1..];
    var used := h.used + mid[0].next - mid[0].start;
    Heap(h.size, bs, if h.blocks[i].start == h.lfree then NextFree(bs, h.End(), i) else h.lfree,
         used, Max(h.max, used))
  }

  /** The size rt_malloc searches for. */
  ghost function Need(request: nat): nat {
    if RtAlign(request) < MIN_DATA then MIN_DATA else RtAlign(request)
  }

  ghost function SearchFrom(h: Heap, i: nat, n: nat): nat
    requires i <= |h.blocks|
  {
    FirstFit(h.blocks, i, if h.size < n then 0 else h.size - n, n)
  }

  /** Block index rt_malloc takes for `request` bytes, or the number of blocks when it returns NULL. */
  ghost function Choice(h: Heap, request: nat): (k: nat)
    ensures k <= |h.blocks|
  {
    if request == 0 || RtAlign(request) > h.size then |h.blocks|
    else SearchFrom(h, IndexAt(h.blocks, h.lfree), Need(request))
  }

  ghost function Malloc(h: Heap, request: nat): (Heap, Ptr) {
    var k := Choice(h, request);
    if k == |h.blocks| then (h, Null)
    else (Allocate(h, k, Need(request)), At(h.blocks[k].start + HEADER))
  }

  /** First and one-past-last index of the free blocks around free block `i`. */
  ghost function MergeLo(bs: seq<Block>, i: nat): nat requires i < |bs| {
    if i > 0 && !bs[i - 1].used then i - 1 else i
  }

  ghost function MergeHi(bs: seq<Block>, i: nat): nat requires i < |bs| {
    if i + 1 < |bs| && !bs[i + 1].used then i + 2 else i + 1
  }

  /** plug_holes: one free block in place of block `i` and its free neighbours. */
  ghost function Plug(bs: seq<Block>, i: nat): seq<Block>
    requires i < |bs|
  {
    var lo, hi := MergeLo(bs, i), MergeHi(bs, i);
    bs[..lo] + [Block(bs[lo].start, bs[hi - 1].next, false)] + bs[hi..]
  }

  /** plug_holes moves the hint down if it points at a block that is merged away. */
  ghost function PlugHint(bs: seq<Block>, i: nat, lfree: nat): nat
    requires i < |bs|
  {
    var lo, hi := MergeLo(bs, i), MergeHi(bs, i);
    if bs[lo].start <= lfree < bs[hi - 1].next then bs[lo].start else lfree
  }

  /** The block list in the middle of rt_free, before plug_holes. */
  ghost function MarkFree(h: Heap, i: nat): seq<Block>
    requires i < |h.blocks|
  {
    h.blocks[..i] + [h.blocks[i].(used := false)] + h.blocks[i + 1..]
  }

  ghost function Release(h: Heap, i: nat): Heap
    requires i < |h.blocks|
  {
    var b := h.blocks[i];
    var bs := MarkFree(h, i);
    var hint := if b.start < h.lfree then b.start else h.lfree;
    Heap(h.size, Plug(bs, i), PlugHint(bs, i, hint), h.used - (b.next - b.start), h.max)
  }

  /** In-place shrink of used block `i` to `n` data bytes. */
  ghost function Shrink(h: Heap, i: nat, n: nat): Heap
    requires i < |h.blocks|
  {
    var b := h.blocks[i];
    var bs := CutBlocks(h, i, n);
    Heap(h.size, Plug(bs, i + 1), PlugHint(bs, i + 1, h.lfree), h.used - (b.next - b.start - HEADER - n), h.max)
  }

  ghost predicate CanShrink(b: Block, n: nat) {
    b.used && 0 < n && n % 4 == 0 && b.start + HEADER + n + HEADER + MIN_DATA < b.next
  }

  // --------------------------------------------------- every operation keeps Inv

  lemma AllocateKeepsInv(h: Heap, i: nat, n: nat)
    requires Inv(h) && i < |h.blocks| && Fits(h.blocks[i], n) && n % 4 == 0 && MIN_DATA <= n
    ensures Inv(Allocate(h, i, n))
    ensures UsedSet(Members(Allocate(h, i, n).blocks)) == UsedSet(Members(h.blocks)) + {Carve(h.blocks[i], n)[0]}
  {
    var pre, b, post := h.blocks[..i], h.blocks[i], h.blocks[i + 1..];
    var mid, h' := Carve(b, n), Allocate(h, i, n);
    assert h.blocks == pre + [b] + post;
    CarveIsCanonical(b, n);
    assert Tiled(h'.blocks, 0, h.End(), MIN_BLOCK) by {
      ReplaceTiled(pre, [b], mid, post, 0, h.End(), MIN_BLOCK);
    }
    assert NoAdjacentFree(h'.blocks) by {
      NoAdjacentFreeConcat(pre + [b], post);
      NoAdjacentFreeConcat(pre, [b]);
      Replace3NoAdjacentFree(pre, mid, post);
    }
    assert h'.used == UsedBytes(h'.blocks) by {
      UsedBytes3(pre, [b], post);
      UsedBytes3(pre, mid, post);
    }
    AllocateSets(h, i, n);
  }

  lemma AllocateSets(h: Heap, i: nat, n: nat)
    requires Inv(h) && i < |h.blocks| && Fits(h.blocks[i], n) && n % 4 == 0
    requires Tiled(Allocate(h, i, n).blocks, 0, h.End(), MIN_BLOCK)
    ensures var h' := Allocate(h, i, n);
      && Aligned(Members(h'.blocks)) && HintOk(Members(h'.blocks), h.End(), h'.lfree)
      && UsedSet(Members(h'.blocks)) == UsedSet(Members(h.blocks)) + {Carve(h.blocks[i], n)[0]}
  {
    var h', b, s := Allocate(h, i, n), h.blocks[i], Members(h.blocks);
    assert b in s;
    AllocateMembers(h, i, n);
    CarveSets(b, n);
    AfterCarve(s, b, Members(Carve(b, n)), Carve(b, n)[0], h.End(), h.lfree);
    if b.start == h.lfree {
      NextFreeIsLowest(h'.blocks, h.End(), i, 0);
    }
  }

  lemma CarveSets(b: Block, n: nat)
    requires b.start % 4 == 0 && b.next % 4 == 0 && n % 4 == 0
    ensures Aligned(Members(Carve(b, n)))
    ensures UsedSet(Members(Carve(b, n))) == {Carve(b, n)[0]}
  {
    var mid := Carve(b, n);
    assert HEADER % 4 == 0;
    assert Members(mid) == if |mid| == 1 then {mid[0]} else {mid[0], mid[1]};
  }

  lemma AfterCarve(s: set<Block>, b: Block, m: set<Block>, c: Block, end: nat, lfree: nat)
    requires Aligned(s) && Aligned(m) && b in s && !b.used && UsedSet(m) == {c} && HintOk(s, end, lfree)
    ensures Aligned(s - {b} + m)
    ensures UsedSet(s - {b} + m) == UsedSet(s) + {c}
    ensures lfree != b.start ==> HintOk(s - {b} + m, end, lfree)
  {
    if lfree != b.start && lfree != end {
      var d :| d in s && d.start == lfree && !d.used;
      assert d in s - {b} + m;
    }
  }

  /** The block taken is at the place of the block it is taken from. */
  lemma AllocatedAt(h: Heap, i: nat, n: nat)
    requires i < |h.blocks|
    ensures var bs, c := Allocate(h, i, n).blocks, Carve(h.blocks[i], n)[0];
      && i < |bs| && bs[i] == c && c.used && c.start == h.blocks[i].start
      && (Fits(h.blocks[i], n) ==> c.start + HEADER + n <= c.next < c.start + HEADER + n + HEADER + MIN_DATA)
  {
  }

  lemma CarveIsCanonical(b: Block, n: nat)
    requires Fits(b, n) && MIN_DATA <= n
    ensures var mid := Carve(b, n);
      && Tiled(mid, b.start, b.next, MIN_BLOCK) && NoAdjacentFree(mid)
      && mid[0].used && mid[0].start == b.start && UsedBytes(mid) == mid[0].next - mid[0].start
  {
    var mid := Carve(b, n);
    assert mid[1..] == [] || mid[1..] == [mid[1]];
    assert UsedBytes(mid[1..]) == 0;
  }

  lemma AllocateMembers(h: Heap, i: nat, n: nat)
    requires i < |h.blocks| && Tiled(h.blocks, 0, h.End(), MIN_BLOCK)
    ensures Members(Allocate(h, i, n).blocks)
         == Members(h.blocks) - {h.blocks[i]} + Members(Carve(h.blocks[i], n))
  {
    var pre, b, post := h.blocks[..i], h.blocks[i], h.blocks[i + 1..];
    assert h.blocks == pre + [b] + post;
    ReplaceMembers(pre, [b], Carve(b, n), post, 0, h.End(), MIN_BLOCK);
  }

  /** Allocation keeps the hint at or below every free block. */
  lemma AllocateKeepsHintLowest(h: Heap, i: nat, n: nat)
    requires Inv(h) && i < |h.blocks| && Fits(h.blocks[i], n) && n % 4 == 0 && MIN_DATA <= n
    requires HintLowest(h)
    ensures HintLowest(Allocate(h, i, n))
  {
    var h' := Allocate(h, i, n);
    if h.blocks[i].start == h.lfree {
      AllocateKeepsInv(h, i, n);
      NextFreeIsLowest(h'.blocks, h.End(), i, 0);
      NoFreeBefore(h, i);
      assert forall k :: 0 <= k < i ==> h'.blocks[k] == h.blocks[k];
    } else {
      AllocateMembers(h, i, n);
    }
  }

  lemma NoFreeBefore(h: Heap, i: nat)
    requires Inv(h) && i < |h.blocks| && HintLowest(h) && h.blocks[i].start <= h.lfree
    ensures forall k :: 0 <= k < i ==> h.blocks[k].used
  {
    TiledOrdered(h.blocks, 0, h.End(), MIN_BLOCK);
    forall k | 0 <= k < i
      ensures h.blocks[k].used
    {
      assert h.blocks[k] in Members(h.blocks);
    }
  }

  ghost function Merged(bs: seq<Block>, i: nat): Block
    requires i < |bs|
  {
    Block(bs[MergeLo(bs, i)].start, bs[MergeHi(bs, i) - 1].next, false)
  }

  /** `Plug` restores canonical form when block `i` is the only one with free neighbours. */
  lemma PlugRestores(bs: seq<Block>, i: nat, end: nat)
    requires i < |bs| && !bs[i].used
    requires Tiled(bs, 0, end, MIN_BLOCK)
    requires NoAdjacentFree(bs[..i]) && NoAdjacentFree(bs[i + 1..])
    ensures var r := Plug(bs, i);
      r != [] && Tiled(r, 0, end, MIN_BLOCK) && NoAdjacentFree(r) && UsedBytes(r) == UsedBytes(bs)
  {
    PlugTiled(bs, i, end);
    PlugBytes(bs, i);
    PlugNoAdjacentFree(bs, i);
  }

  lemma PlugTiled(bs: seq<Block>, i: nat, end: nat)
    requires i < |bs| && Tiled(bs, 0, end, MIN_BLOCK)
    ensures Plug(bs, i) != [] && Tiled(Plug(bs, i), 0, end, MIN_BLOCK)
  {
    var lo, hi, mid := MergeLo(bs, i), MergeHi(bs, i), [Merged(bs, i)];
    ThreeParts(bs, lo, hi);
    MergedIsTiled(bs, i, end);
    ReplaceTiled(bs[..lo], bs[lo..hi], mid, bs[hi..], 0, end, MIN_BLOCK);
  }

  lemma PlugBytes(bs: seq<Block>, i: nat)
    requires i < |bs| && !bs[i].used
    ensures UsedBytes(Plug(bs, i)) == UsedBytes(bs)
  {
    var lo, hi := MergeLo(bs, i), MergeHi(bs, i);
    ThreeParts(bs, lo, hi);
    RunFree(bs, i, lo, hi);
    NothingUsed([Merged(bs, i)]);
    UsedSwap(bs[..lo], bs[lo..hi], [Merged(bs, i)], bs[hi..]);
  }

  lemma ThreeParts(bs: seq<Block>, lo: nat, hi: nat)
    requires lo <= hi <= |bs|
    ensures bs == bs[..lo] + bs[lo..hi] + bs[hi..]
  {
  }

  lemma RunFree(bs: seq<Block>, i: nat, lo: nat, hi: nat)
    requires i < |bs| && !bs[i].used && lo == MergeLo(bs, i) && hi == MergeHi(bs, i)
    ensures UsedBytes(bs[lo..hi]) == 0
  {
    forall k | 0 <= k < hi - lo ensures !bs[lo..hi][k].used {
      assert bs[lo..hi][k] == bs[lo + k];
    }
    NothingUsed(bs[lo..hi]);
  }

  lemma UsedSwap(pre: seq<Block>, a: seq<Block>, b: seq<Block>, post: seq<Block>)
    requires UsedBytes(a) == UsedBytes(b)
    ensures UsedBytes(pre + a + post) == UsedBytes(pre + b + post)
  {
    UsedBytes3(pre, a, post);
    UsedBytes3(pre, b, post);
  }

  lemma PlugNoAdjacentFree(bs: seq<Block>, i: nat)
    requires i < |bs| && !bs[i].used
    requires NoAdjacentFree(bs[..i]) && NoAdjacentFree(bs[i + 1..])
    ensures NoAdjacentFree(Plug(bs, i))
  {
    var lo, hi, mid := MergeLo(bs, i), MergeHi(bs, i), [Merged(bs, i)];
    assert NoAdjacentFree(bs[..lo]) && (lo > 0 ==> bs[lo - 1].used) by {
      assert bs[..i] == bs[..lo] + bs[lo..i];
      NoAdjacentFreeConcat(bs[..lo], bs[lo..i]);
    }
    assert NoAdjacentFree(bs[hi..]) && (hi < |bs| ==> bs[hi].used) by {
      assert bs[i + 1..] == bs[i + 1..hi] + bs[hi..];
      NoAdjacentFreeConcat(bs[i + 1..hi], bs[hi..]);
    }
    Replace3NoAdjacentFree(bs[..lo], mid, bs[hi..]);
  }

  /** The merged block spans the run it replaces. */
  lemma MergedIsTiled(bs: seq<Block>, i: nat, end: nat)
    requires i < |bs| && Tiled(bs, 0, end, MIN_BLOCK)
    ensures var lo, hi := MergeLo(bs, i), MergeHi(bs, i);
      Tiled([Merged(bs, i)], bs[lo].start, bs[hi - 1].next, MIN_BLOCK)
  {
    var lo, hi := MergeLo(bs, i), MergeHi(bs, i);
    TiledAt(bs, lo, 0, end, MIN_BLOCK);
    TiledOrdered(bs, 0, end, MIN_BLOCK);
    assert [Merged(bs, i)][1..] == [];
  }

  lemma NothingUsed(bs: seq<Block>)
    requires forall k :: 0 <= k < |bs| ==> !bs[k].used
    ensures UsedBytes(bs) == 0
  {}

  /** Which blocks go and which one comes when holes are plugged. */
  lemma PlugMembers(bs: seq<Block>, i: nat, end: nat)
    requires i < |bs| && !bs[i].used && Tiled(bs, 0, end, MIN_BLOCK)
    ensures var run := Members(bs[MergeLo(bs, i)..MergeHi(bs, i)]);
      && Members(Plug(bs, i)) == Members(bs) - run + {Merged(bs, i)}
      && (forall b :: b in run ==> !b.used && Merged(bs, i).start <= b.start < b.next <= Merged(bs, i).next)
  {
    var lo, hi := MergeLo(bs, i), MergeHi(bs, i);
    assert Members(Plug(bs, i)) == Members(bs) - Members(bs[lo..hi]) + {Merged(bs, i)} by {
      ThreeParts(bs, lo, hi);
      ReplaceMembers(bs[..lo], bs[lo..hi], [Merged(bs, i)], bs[hi..], 0, end, MIN_BLOCK);
    }
    MergedRun(bs, i, end);
  }

  lemma MergedRun(bs: seq<Block>, i: nat, end: nat)
    requires i < |bs| && !bs[i].used && Tiled(bs, 0, end, MIN_BLOCK)
    ensures forall b :: b in Members(bs[MergeLo(bs, i)..MergeHi(bs, i)])
              ==> !b.used && Merged(bs, i).start <= b.start < b.next <= Merged(bs, i).next
  {
    var lo, hi := MergeLo(bs, i), MergeHi(bs, i);
    TiledOrdered(bs, 0, end, MIN_BLOCK);
    forall k | lo <= k < hi
      ensures !bs[k].used && bs[lo].start <= bs[k].start < bs[k].next <= bs[hi - 1].next
    {}
  }

  lemma MergedEnds(bs: seq<Block>, i: nat, end: nat)
    requires i < |bs| && Tiled(bs, 0, end, MIN_BLOCK)
    ensures bs[MergeLo(bs, i)] in Members(bs) && bs[MergeHi(bs, i) - 1] in Members(bs)
    ensures Merged(bs, i).next <= end
  {
    TiledOrdered(bs, 0, end, MIN_BLOCK);
  }

  /** The hint follows the merge. */
  lemma PlugHintFollows(bs: seq<Block>, i: nat, end: nat, lfree: nat)
    requires i < |bs| && !bs[i].used && Tiled(bs, 0, end, MIN_BLOCK)
    requires Aligned(Members(bs)) && HintOk(Members(bs), end, lfree)
    ensures Aligned(Members(Plug(bs, i)))
    ensures HintOk(Members(Plug(bs, i)), end, PlugHint(bs, i, lfree))
    ensures UsedSet(Members(Plug(bs, i))) == UsedSet(Members(bs))
    ensures NoneBelow(Members(bs), lfree) ==> NoneBelow(Members(Plug(bs, i)), PlugHint(bs, i, lfree))
  {
    PlugMembers(bs, i, end);
    MergedEnds(bs, i, end);
    assert Merged(bs, i) in Members(Plug(bs, i));
  }

  lemma MarkedFree(h: Heap, i: nat)
    requires Inv(h) && Live(h, i)
    ensures var b, bs := h.blocks[i], MarkFree(h, i);
      && b.start < b.next <= h.End()
      && Tiled(bs, 0, h.End(), MIN_BLOCK)
      && UsedBytes(bs) == h.used - (b.next - b.start)
      && NoAdjacentFree(bs[..i]) && NoAdjacentFree(bs[i + 1..])
  {
    var pre, b, post := h.blocks[..i], h.blocks[i], h.blocks[i + 1..];
    var f := b.(used := false);
    var bs := MarkFree(h, i);
    assert h.blocks == pre + [b] + post;
    assert b.start + MIN_BLOCK <= b.next <= h.End() by {
      TiledOrdered(h.blocks, 0, h.End(), MIN_BLOCK);
      TiledAt(h.blocks, i, 0, h.End(), MIN_BLOCK);
    }
    assert Tiled(bs, 0, h.End(), MIN_BLOCK) by {
      ReplaceTiled(pre, [b], [f], post, 0, h.End(), MIN_BLOCK);
    }
    assert UsedBytes(bs) == h.used - (b.next - b.start) by {
      UsedBytes3(pre, [b], post);
      UsedBytes3(pre, [f], post);
    }
    assert bs[..i] == pre && bs[i + 1..] == post;
    NoAdjacentFreeConcat(pre + [b], post);
    NoAdjacentFreeConcat(pre, [b]);
  }

  lemma MarkedFreeMembers(h: Heap, i: nat)
    requires Inv(h) && Live(h, i)
    ensures Members(MarkFree(h, i)) == Members(h.blocks) - {h.blocks[i]} + {h.blocks[i].(used := false)}
    ensures h.blocks[i] in Members(h.blocks)
  {
    var pre, b, post := h.blocks[..i], h.blocks[i], h.blocks[i + 1..];
    assert h.blocks == pre + [b] + post;
    ReplaceMembers(pre, [b], [b.(used := false)], post, 0, h.End(), MIN_BLOCK);
  }

  lemma MarkedFreeSets(s: set<Block>, b: Block, end: nat, lfree: nat)
    requires Aligned(s) && HintOk(s, end, lfree) && b in s && b.used && b.start < end
    ensures var s', hint := s - {b} + {b.(used := false)}, if b.start < lfree then b.start else lfree;
      && Aligned(s') && HintOk(s', end, hint) && UsedSet(s') == UsedSet(s) - {b}
      && (NoneBelow(s, lfree) ==> NoneBelow(s', hint))
  {
    assert b.(used := false) in s - {b} + {b.(used := false)};
  }

  lemma ReleaseSets(h: Heap, i: nat)
    requires Inv(h) && Live(h, i)
    ensures var r := Release(h, i);
      && Aligned(Members(r.blocks)) && HintOk(Members(r.blocks), h.End(), r.lfree)
      && (HintLowest(h) ==> HintLowest(r))
      && UsedSet(Members(r.blocks)) == UsedSet(Members(h.blocks)) - {h.blocks[i]}
  {
    var b, bs := h.blocks[i], MarkFree(h, i);
    var hint := if b.start < h.lfree then b.start else h.lfree;
    MarkedFree(h, i);
    MarkedFreeMembers(h, i);
    MarkedFreeSets(Members(h.blocks), b, h.End(), h.lfree);
    PlugHintFollows(bs, i, h.End(), hint);
  }

  lemma ReleaseShape(h: Heap, i: nat)
    requires Inv(h) && Live(h, i)
    ensures var r := Release(h, i);
      && r.blocks != [] && Tiled(r.blocks, 0, h.End(), MIN_BLOCK) && NoAdjacentFree(r.blocks)
      && r.used == UsedBytes(r.blocks) <= r.max
  {
    MarkedFree(h, i);
    PlugRestores(MarkFree(h, i), i, h.End());
  }

  lemma ReleaseKeepsInv(h: Heap, i: nat)
    requires Inv(h) && Live(h, i)
    ensures Inv(Release(h, i))
    ensures HintLowest(h) ==> HintLowest(Release(h, i))
    ensures UsedSet(Members(Release(h, i).blocks)) == UsedSet(Members(h.blocks)) - {h.blocks[i]}
  {
    ReleaseShape(h, i);
    ReleaseSets(h, i);
  }

  /** The block list in the middle of an in-place shrink, before plug_holes. */
  ghost function CutBlocks(h: Heap, i: nat, n: nat): seq<Block>
    requires i < |h.blocks|
  {
    h.blocks[..i] + Split(h.blocks[i], n) + h.blocks[i + 1..]
  }

  lemma CutIsTiled(h: Heap, i: nat, n: nat)
    requires Inv(h) && i < |h.blocks| && CanShrink(h.blocks[i], n)
    ensures var bs, b := CutBlocks(h, i, n), h.blocks[i];
      && Tiled(bs, 0, h.End(), MIN_BLOCK)
      && UsedBytes(bs) == h.used - (b.next - b.start - HEADER - n)
      && bs[i + 1] == Split(b, n)[1]
      && NoAdjacentFree(bs[..i + 1]) && NoAdjacentFree(bs[i + 2..])
  {
    var pre, b, post := h.blocks[..i], h.blocks[i], h.blocks[i + 1..];
    var bs, mid := CutBlocks(h, i, n), Split(b, n);
    assert h.blocks == pre + [b] + post;
    assert mid[1..] == [mid[1]];
    ReplaceTiled(pre, [b], mid, post, 0, h.End(), MIN_BLOCK);
    UsedBytes3(pre, [b], post);
    UsedBytes3(pre, mid, post);
    assert bs[..i + 1] == pre + [mid[0]] && bs[i + 2..] == post;
    NoAdjacentFreeConcat(pre + [b], post);
    NoAdjacentFreeConcat(pre, [b]);
    NoAdjacentFreeConcat(pre, [mid[0]]);
  }

  lemma CutSets(s: set<Block>, b: Block, x: Block, y: Block, end: nat, lfree: nat)
    requires Aligned(s) && HintOk(s, end, lfree) && b in s && b.used
    requires x.used && !y.used && Aligned({x, y})
    ensures Aligned(s - {b} + {x, y}) && HintOk(s - {b} + {x, y}, end, lfree)
    ensures UsedSet(s - {b} + {x, y}) == UsedSet(s) - {b} + {x}
  {
    if lfree != end {
      var d :| d in s && d.start == lfree && !d.used;
      assert d in s - {b} + {x, y};
    }
  }

  lemma CutMembers(h: Heap, i: nat, n: nat)
    requires Inv(h) && i < |h.blocks| && CanShrink(h.blocks[i], n)
    ensures var bs, x, y := CutBlocks(h, i, n), Split(h.blocks[i], n)[0], Split(h.blocks[i], n)[1];
      && Aligned(Members(bs)) && HintOk(Members(bs), h.End(), h.lfree)
      && UsedSet(Members(bs)) == UsedSet(Members(h.blocks)) - {h.blocks[i]} + {x}
      && Members(bs) == Members(h.blocks) - {h.blocks[i]} + {x, y}
  {
    var b := h.blocks[i];
    assert b in Members(h.blocks);
    SplitReplaces(h, i, n);
    SplitAligned(b, n);
    CutSets(Members(h.blocks), b, Split(b, n)[0], Split(b, n)[1], h.End(), h.lfree);
  }

  lemma SplitReplaces(h: Heap, i: nat, n: nat)
    requires Tiled(h.blocks, 0, h.End(), MIN_BLOCK) && i < |h.blocks|
    ensures var b := h.blocks[i];
      Members(CutBlocks(h, i, n)) == Members(h.blocks) - {b} + {Split(b, n)[0], Split(b, n)[1]}
  {
    var pre, b, post := h.blocks[..i], h.blocks[i], h.blocks[i + 1..];
    assert h.blocks == pre + [b] + post;
    assert Members(Split(b, n)) == {Split(b, n)[0], Split(b, n)[1]} && Members([b]) == {b};
    ReplaceMembers(pre, [b], Split(b, n), post, 0, h.End(), MIN_BLOCK);
  }

  lemma SplitAligned(b: Block, n: nat)
    requires b.start % 4 == 0 && b.next % 4 == 0 && n % 4 == 0
    ensures Aligned({Split(b, n)[0], Split(b, n)[1]})
  {
    WordMultiples(b.start, b.next, n);
  }

  lemma WordMultiples(a: nat, b: nat, n: nat)
    requires a % 4 == 0 && b % 4 == 0 && n % 4 == 0
    ensures (b - a - HEADER) % 4 == 0 && (a + HEADER + n) % 4 == 0
  {
    assert b - a - HEADER == 4 * (b / 4 - a / 4 - 3);
    assert a + HEADER + n == 4 * (a / 4 + 3 + n / 4);
  }

  lemma ShrinkSets(h: Heap, i: nat, n: nat)
    requires Inv(h) && i < |h.blocks| && CanShrink(h.blocks[i], n)
    ensures var r := Shrink(h, i, n);
      && Aligned(Members(r.blocks)) && HintOk(Members(r.blocks), h.End(), r.lfree)
      && UsedSet(Members(r.blocks)) == UsedSet(Members(h.blocks)) - {h.blocks[i]} + {Split(h.blocks[i], n)[0]}
  {
    CutIsTiled(h, i, n);
    CutMembers(h, i, n);
    PlugHintFollows(CutBlocks(h, i, n), i + 1, h.End(), h.lfree);
  }

  lemma ShrinkKeepsInv(h: Heap, i: nat, n: nat)
    requires Inv(h) && i < |h.blocks| && CanShrink(h.blocks[i], n)
    ensures Inv(Shrink(h, i, n))
    ensures UsedSet(Members(Shrink(h, i, n).blocks))
         == UsedSet(Members(h.blocks)) - {h.blocks[i]} + {Split(h.blocks[i], n)[0]}
  {
    ShrinkSets(h, i, n);
    CutIsTiled(h, i, n);
    PlugRestores(CutBlocks(h, i, n), i + 1, h.End());
  }
}
