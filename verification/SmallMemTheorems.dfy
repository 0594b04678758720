/**
  What holds over every run of the small-memory heap: the invariant and the
  running maximum, first fit through the `lfree` hint, the malloc/free round
  trip, and where in-place shrinking and size rounding break a promise.
 */
module SmallMemTheorems {
  import opened BlockList
  import opened SmallMemSpec

  // --------------------------------------------------------------------- runs

  datatype Step = MallocStep(request: nat) | FreeStep(i: nat) | ShrinkStep(i: nat, n: nat)

  ghost predicate Enabled(h: Heap, s: Step) {
    match s
    case MallocStep(request) => request < SIZE_LIMIT
    case FreeStep(i) => Live(h, i)
    case ShrinkStep(i, n) => i < |h.blocks| && CanShrink(h.blocks[i], n)
  }

  /** One step; a call the source's assertions exclude changes nothing. */
  ghost function Next(h: Heap, s: Step): Heap {
    if !Enabled(h, s) then h else
    match s
    case MallocStep(request) => Malloc(h, request).0
    case FreeStep(i) => Release(h, i)
    case ShrinkStep(i, n) => Shrink(h, i, n)
  }

  /** The heap after `steps` from a fresh heap of `size` bytes. */
  ghost function Exec(size: nat, steps: seq<Step>): Heap {
    if steps == [] then InitHeap(size)
    else Next(Exec(size, steps[..|steps| - 1]), steps[|steps| - 1])
  }

  /** The largest `used_mem` seen on the way. */
  ghost function Peak(size: nat, steps: seq<Step>): int {
    if steps == [] then 0
    else Max(Peak(size, steps[..|steps| - 1]), Exec(size, steps).used)
  }

  ghost predicate ValidSize(size: nat) {
    size % 4 == 0 && MIN_DATA <= size && size + 2 * HEADER < SIZE_LIMIT
  }

  lemma InitInv(size: nat)
    requires ValidSize(size)
    ensures Inv(InitHeap(size)) && HintLowest(InitHeap(size))
  {
    var bs := InitHeap(size).blocks;
    assert bs[1..] == [];
    assert Members(bs) == {bs[0]};
  }

  /** rt_malloc returns NULL and changes nothing, or takes a block that fits. */
  lemma ChoiceFits(h: Heap, request: nat)
    requires Inv(h) && request < SIZE_LIMIT
    ensures var k, n := Choice(h, request), Need(request);
      n % 4 == 0 && MIN_DATA <= n && (k < |h.blocks| ==> Fits(h.blocks[k], n) && h.blocks[k].start < h.size - n)
  {
    RtAlignRoundsUp(request);
  }

  lemma StepKeepsInv(h: Heap, s: Step)
    requires Inv(h)
    ensures Inv(Next(h, s)) && Next(h, s).size == h.size
    ensures Next(h, s).max == Max(h.max, Next(h, s).used)
    ensures HintLowest(h) && !s.ShrinkStep? ==> HintLowest(Next(h, s))
  {
    if Enabled(h, s) {
      match s
      case MallocStep(request) =>
        ChoiceFits(h, request);
        var k := Choice(h, request);
        if k < |h.blocks| {
          AllocateKeepsInv(h, k, Need(request));
          if HintLowest(h) {
            AllocateKeepsHintLowest(h, k, Need(request));
          }
        }
      case FreeStep(i) =>
        ReleaseKeepsInv(h, i);
      case ShrinkStep(i, n) =>
        ShrinkKeepsInv(h, i, n);
    }
  }

  /**
    Every heap of every run satisfies the invariant, `max_mem` is the running
    maximum of `used_mem`, and without in-place shrinks no free block is below
    the hint.
   */
  lemma {:induction false} RunKeepsInv(size: nat, steps: seq<Step>)
    requires ValidSize(size)
    ensures var h := Exec(size, steps); Inv(h) && h.size == size && h.max == Peak(size, steps)
    ensures (forall s :: s in steps ==> !s.ShrinkStep?) ==> HintLowest(Exec(size, steps))
    decreases |steps|
  {
    if steps == [] {
      InitInv(size);
    } else {
      var prefix := steps[..|steps| - 1];
      RunKeepsInv(size, prefix);
      StepKeepsInv(Exec(size, prefix), steps[|steps| - 1]);
    }
  }

  /** Live user regions are aligned, inside the heap and pairwise disjoint. */
  lemma LiveRegionsDisjoint(h: Heap, i: nat, j: nat)
    requires Inv(h) && Live(h, i) && Live(h, j) && i < j
    ensures (h.blocks[i].start + HEADER) % 4 == 0
    ensures h.blocks[i].start + HEADER < h.blocks[i].next <= h.blocks[j].start < h.blocks[j].next <= h.End()
  {
    assert h.blocks[i].start + MIN_BLOCK <= h.blocks[i].next by {
      TiledAt(h.blocks, i, 0, h.End(), MIN_BLOCK);
    }
    assert (h.blocks[i].start + HEADER) % 4 == 0 by {
      assert h.blocks[i] in Members(h.blocks);
    }
    assert h.blocks[i].next <= h.blocks[j].start < h.blocks[j].next <= h.End() by {
      TiledOrdered(h.blocks, 0, h.End(), MIN_BLOCK);
    }
  }

  // ---------------------------------------------------- first fit through lfree

  lemma {:induction false} FirstFitSkips(bs: seq<Block>, i: nat, j: nat, limit: nat, n: nat)
    requires i <= j <= |bs| && Ordered(bs)
    requires forall k :: i <= k < j ==> bs[k].used
    ensures FirstFit(bs, i, limit, n) == FirstFit(bs, j, limit, n)
    decreases j - i
  {
    if i < j {
      FirstFitSkips(bs, i + 1, j, limit, n);
    }
  }

  /** With no free block below the hint, the search from the hint is the search from the first block. */
  lemma HintIsHarmless(h: Heap, request: nat)
    requires Inv(h) && HintLowest(h)
    requires 0 < request < SIZE_LIMIT && RtAlign(request) <= h.size
    ensures Choice(h, request) == SearchFrom(h, 0, Need(request))
  {
    var start := IndexAt(h.blocks, h.lfree);
    TiledOrdered(h.blocks, 0, h.End(), MIN_BLOCK);
    forall k | 0 <= k < start
      ensures h.blocks[k].used
    {
      assert h.blocks[k] in Members(h.blocks);
      assert start == |h.blocks| ==> h.lfree == h.End();
    }
    FirstFitSkips(h.blocks, 0, start, if h.size < Need(request) then 0 else h.size - Need(request), Need(request));
  }

  /**
    rt_malloc is first fit: it takes the lowest block that fits, and returns
    NULL only when the one block that fits, if any, fits exactly and ends at
    `heap_end`; that one the strict loop bound skips.
   */
  lemma MallocIsFirstFit(h: Heap, request: nat)
    requires Inv(h) && HintLowest(h)
    requires 0 < request < SIZE_LIMIT && RtAlign(request) <= h.size
    ensures var k, n := Choice(h, request), Need(request);
      && (forall j :: 0 <= j < k && Fits(h.blocks[j], n) ==> ExactAtEnd(h, h.blocks[j], n))
      && (k < |h.blocks| ==> Fits(h.blocks[k], n) && !ExactAtEnd(h, h.blocks[k], n))
  {
    var n := Need(request);
    HintIsHarmless(h, request);
    ChoiceFits(h, request);
    TiledOrdered(h.blocks, 0, h.End(), MIN_BLOCK);
    forall j | 0 <= j < |h.blocks| && Fits(h.blocks[j], n)
      ensures ExactAtEnd(h, h.blocks[j], n) <==> h.blocks[j].start >= h.size - n
    {
      TiledAt(h.blocks, j, 0, h.End(), MIN_BLOCK);
    }
  }

  ghost predicate ExactAtEnd(h: Heap, b: Block, n: nat) {
    b.next == h.End() && b.start + HEADER + n == b.next
  }

  /**
    In-place shrinking leaves `lfree` alone, so it can leave a free block below
    the hint: the hint stays lowest exactly when it was not above the block's
    successor and did not stand at `heap_end`.
   */
  lemma ShrinkHintLowestIff(h: Heap, i: nat, n: nat)
    requires Inv(h) && HintLowest(h) && i < |h.blocks| && CanShrink(h.blocks[i], n)
    ensures HintLowest(Shrink(h, i, n)) <==> h.lfree <= h.blocks[i].next && h.lfree != h.End()
  {
    var b, r, m := h.blocks[i], Shrink(h, i, n), Merged(CutBlocks(h, i, n), i + 1);
    ShrunkMembers(h, i, n);
    ShrinkMergesNext(h, i, n);
    assert r.lfree == if m.start <= h.lfree < m.next then m.start else h.lfree;
    if h.lfree < b.start {
      assert b.next <= h.End() by {
        TiledOrdered(h.blocks, 0, h.End(), MIN_BLOCK);
      }
      assert HintLowest(r);
    } else if h.lfree == b.next != h.End() {
      assert HintLowest(r);
    } else {
      assert m in Members(r.blocks) && m.start < r.lfree;
    }
  }

  /** The free blocks after a shrink: the merged remainder and free blocks of before. */
  lemma ShrunkMembers(h: Heap, i: nat, n: nat)
    requires Inv(h) && i < |h.blocks| && CanShrink(h.blocks[i], n)
    ensures var b, r, m := h.blocks[i], Shrink(h, i, n), Merged(CutBlocks(h, i, n), i + 1);
      && m.start == b.start + HEADER + n && !m.used && m in Members(r.blocks)
      && (forall c :: c in Members(r.blocks) && !c.used ==> c == m || c in Members(h.blocks))
  {
    var bs, b := CutBlocks(h, i, n), h.blocks[i];
    var x, y := Split(b, n)[0], Split(b, n)[1];
    var run := Members(bs[MergeLo(bs, i + 1)..MergeHi(bs, i + 1)]);
    CutRun(h, i, n);
    assert Members(Shrink(h, i, n).blocks) == Members(bs) - run + {Merged(bs, i + 1)} by {
      CutIsTiled(h, i, n);
      PlugMembers(bs, i + 1, h.End());
    }
    assert Members(bs) == Members(h.blocks) - {b} + {x, y} by {
      CutMembers(h, i, n);
    }
  }

  /** The run that is merged begins with the part cut off. */
  lemma CutRun(h: Heap, i: nat, n: nat)
    requires i < |h.blocks| && CanShrink(h.blocks[i], n)
    ensures var bs, y := CutBlocks(h, i, n), Split(h.blocks[i], n)[1];
      && i + 1 < |bs| && bs[i + 1] == y && !y.used && MergeLo(bs, i + 1) == i + 1
      && y in Members(bs[MergeLo(bs, i + 1)..MergeHi(bs, i + 1)])
  {
    var bs := CutBlocks(h, i, n);
    assert bs[i] == Split(h.blocks[i], n)[0] && bs[i + 1] == Split(h.blocks[i], n)[1];
    assert bs[MergeLo(bs, i + 1)..MergeHi(bs, i + 1)][0] == bs[i + 1];
  }

  /** Where the merged remainder of a shrink ends. */
  lemma ShrinkMergesNext(h: Heap, i: nat, n: nat)
    requires Inv(h) && HintLowest(h) && i < |h.blocks| && CanShrink(h.blocks[i], n)
    ensures var bs, b := CutBlocks(h, i, n), h.blocks[i];
      && (h.lfree < b.next ==> h.lfree < b.start)
      && (h.lfree == b.next != h.End() ==> b.next < Merged(bs, i + 1).next)
      && (h.lfree > b.next ==> Merged(bs, i + 1).next == b.next)
      && (h.lfree == h.End() ==> Merged(bs, i + 1).next == b.next)
  {
    var bs, b := CutBlocks(h, i, n), h.blocks[i];
    TiledAt(h.blocks, i, 0, h.End(), MIN_BLOCK);
    assert bs[i + 1] == Split(b, n)[1];
    if i + 1 < |h.blocks| {
      assert bs[i + 2] == h.blocks[i + 1];
      HintAtNext(h, i);
    }
    HintNotInside(h, i);
  }

  /** The hint at the next block says that it is free. */
  lemma HintAtNext(h: Heap, i: nat)
    requires Inv(h) && HintLowest(h) && i + 1 < |h.blocks|
    ensures var c := h.blocks[i + 1];
      && c.start < c.next <= h.End()
      && (h.lfree == c.start ==> !c.used) && (h.lfree > c.start ==> c.used)
  {
    var c := h.blocks[i + 1];
    TiledOrdered(h.blocks, 0, h.End(), MIN_BLOCK);
    assert c in Members(h.blocks);
    if h.lfree == c.start {
      var d :| d in Members(h.blocks) && d.start == h.lfree && !d.used;
      var k :| 0 <= k < |h.blocks| && h.blocks[k] == d;
      assert k == i + 1;
    }
  }

  /** The hint is no offset inside a used block, nor its start. */
  lemma HintNotInside(h: Heap, i: nat)
    requires Inv(h) && i < |h.blocks| && h.blocks[i].used
    ensures h.lfree < h.blocks[i].next ==> h.lfree < h.blocks[i].start
  {
    TiledOrdered(h.blocks, 0, h.End(), MIN_BLOCK);
    if h.lfree < h.blocks[i].next {
      var d :| d in Members(h.blocks) && d.start == h.lfree && !d.used;
      var k :| 0 <= k < |h.blocks| && h.blocks[k] == d;
    }
  }

  /** A fresh heap of 64 bytes, given away whole. */
  lemma WholeHeapTaken()
    ensures Next(InitHeap(64), MallocStep(52)) == Heap(64, [Block(0, 76, true)], 76, 76, 76)
  {
    var h := InitHeap(64);
    RtAlignRoundsUp(52);
    assert h.blocks[0].start == h.lfree && Fits(h.blocks[0], 52);
    assert Choice(h, 52) == 0;
    var bs := Allocate(h, 0, 52).blocks;
    assert bs == [Block(0, 76, true)];
    assert NextFree(bs, 76, 0) == NextFree(bs, 76, 1) == 76;
  }

  /**
    A run in which a free block stays below the hint: the heap is given away
    whole and its block shrunk in place. The next request is then refused
    although a block fits.
   */
  lemma ShrinkLosesHint()
    ensures var h := Exec(64, [MallocStep(52), ShrinkStep(0, 12)]);
      && h.blocks == [Block(0, 24, true), Block(24, 76, false)] && h.lfree == 76
      && Fits(h.blocks[1], Need(12)) && !ExactAtEnd(h, h.blocks[1], Need(12)) && Malloc(h, 12).1.Null?
  {
    var steps := [MallocStep(52), ShrinkStep(0, 12)];
    var h := Heap(64, [Block(0, 76, true)], 76, 76, 76);
    assert Exec(64, steps[..1]) == h by {
      WholeHeapTaken();
      assert steps[..1][..0] == [];
    }
    var bs := CutBlocks(h, 0, 12);
    assert bs == [Block(0, 24, true), Block(24, 76, false)];
    assert Plug(bs, 1) == bs;
    RtAlignRoundsUp(12);
  }

  // --------------------------------------------------------------- round trips

  /**
    Freeing the block rt_malloc just returned restores the heap exactly: block
    sequence and used flags, `lfree` and `used_mem`; only `max_mem` remembers.
   */
  lemma MallocThenFree(h: Heap, request: nat)
    requires Inv(h) && request < SIZE_LIMIT && Choice(h, request) < |h.blocks|
    ensures var k := Choice(h, request);
      var h' := Malloc(h, request).0;
      Live(h', k) && Release(h', k) == h.(max := h'.max)
  {
    var k, n := Choice(h, request), Need(request);
    var h' := Allocate(h, k, n);
    ChoiceFits(h, request);
    ChoiceAboveHint(h, request);
    RoundTrip(h, k, n);
  }

  /** The round trip for any block at or above the hint. */
  lemma RoundTrip(h: Heap, k: nat, n: nat)
    requires Inv(h) && k < |h.blocks| && Fits(h.blocks[k], n) && n % 4 == 0 && MIN_DATA <= n
    requires h.lfree <= h.blocks[k].start
    ensures var h' := Allocate(h, k, n);
      Live(h', k) && Release(h', k) == h.(max := h'.max)
  {
    var h' := Allocate(h, k, n);
    AllocateKeepsInv(h, k, n);
    AllocatedAt(h, k, n);
    var r := Release(h', k);
    assert r.blocks == h.blocks by {
      ReleaseKeepsInv(h', k);
      FreshBlock(h, k, n);
      CanonicalIsUnique(r.blocks, h.blocks, 0, h.End(), MIN_BLOCK);
    }
    RoundTripHint(h, k, n);
  }

  lemma FreshBlock(h: Heap, k: nat, n: nat)
    requires Inv(h) && k < |h.blocks| && Fits(h.blocks[k], n)
    ensures Carve(h.blocks[k], n)[0] !in UsedSet(Members(h.blocks))
  {
    TiledOrdered(h.blocks, 0, h.End(), MIN_BLOCK);
  }

  lemma RoundTripHint(h: Heap, k: nat, n: nat)
    requires Inv(h) && k < |h.blocks| && Fits(h.blocks[k], n) && n % 4 == 0 && MIN_DATA <= n
    requires h.lfree <= h.blocks[k].start
    requires Inv(Allocate(h, k, n))
    ensures Release(Allocate(h, k, n), k).lfree == h.lfree
  {
    var h' := Allocate(h, k, n);
    var b := h.blocks[k];
    var bs := MarkFree(h', k);
    NextFreeIsLowest(h'.blocks, h.End(), k, 0);
    assert h'.blocks[k] == Carve(b, n)[0] && h'.blocks[k].start == b.start;
    assert MergeLo(bs, k) == k by {
      if k > 0 {
        assert h.blocks[k - 1].used by { NeighboursUsed(h, k); }
        assert bs[k - 1] == h'.blocks[k - 1] == h.blocks[k - 1];
      }
    }
    MergeReaches(h', k);
  }

  /** The merged block of a release reaches at least as far as the released one. */
  lemma MergeReaches(h: Heap, k: nat)
    requires Inv(h) && Live(h, k)
    ensures var bs := MarkFree(h, k);
      h.blocks[k].start < h.blocks[k].next <= bs[MergeHi(bs, k) - 1].next
  {
    var bs := MarkFree(h, k);
    assert bs[k] == h.blocks[k].(used := false);
    MarkedFree(h, k);
    TiledOrdered(bs, 0, h.End(), MIN_BLOCK);
  }

  lemma NeighboursUsed(h: Heap, k: nat)
    requires Inv(h) && k < |h.blocks| && !h.blocks[k].used
    ensures k > 0 ==> h.blocks[k - 1].used
  {
    assert h.blocks == h.blocks[..k] + h.blocks[k..];
    NoAdjacentFreeConcat(h.blocks[..k], h.blocks[k..]);
  }

  /** The search starts at the hint, so it never returns a block below it. */
  lemma ChoiceAboveHint(h: Heap, request: nat)
    requires Inv(h) && Choice(h, request) < |h.blocks|
    ensures h.lfree <= h.blocks[Choice(h, request)].start
  {
    TiledOrdered(h.blocks, 0, h.End(), MIN_BLOCK);
  }

  /**
    A non-NULL rt_malloc gives at least `request` bytes exactly when rounding
    the request up does not wrap; the requests above 0xFFFFFFFC round to 0 and
    are served with a minimal block.
   */
  lemma MallocSizeIff(h: Heap, request: nat)
    requires Inv(h) && request < SIZE_LIMIT && Choice(h, request) < |h.blocks|
    ensures var b := Malloc(h, request).0.blocks[Choice(h, request)];
      b.used && (b.start + HEADER + request <= b.next <==> request <= 0xFFFF_FFFC)
  {
    RtAlignRoundsUp(request);
    ChoiceFits(h, request);
    AllocatedAt(h, Choice(h, request), Need(request));
  }

  /** A wrapped request does succeed: asking a fresh heap for 0xFFFFFFFD bytes returns a block of 12. */
  lemma WrappedRequestSucceeds()
    ensures Choice(InitHeap(64), 0xFFFF_FFFD) == 0
    ensures Malloc(InitHeap(64), 0xFFFF_FFFD).0.blocks[0] == Block(0, 24, true)
  {
    var h := InitHeap(64);
    RtAlignRoundsUp(0xFFFF_FFFD);
    assert h.blocks[0].start == h.lfree;
    assert Fits(h.blocks[0], 12);
  }
}
