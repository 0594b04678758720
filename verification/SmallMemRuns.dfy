/**
  Every run of rt_malloc, rt_free and rt_realloc on the small-memory heap. The
  calls are sequences of the locked sections of `SmallMemTheorems`: reallocation
  that moves a block is an allocation and a release with the lock free between
  them, so runs of sections are the runs of any number of threads.
 */
module SmallMemRuns {
  import opened BlockList
  import opened SmallMemSpec
  import opened SmallMemTheorems
  import opened SmallMem

  datatype Call = MallocCall(request: nat) | FreeCall(p: Ptr) | ReallocCall(p: Ptr, newsize: nat)

  ghost predicate Allowed(h: Heap, c: Call) {
    match c
    case MallocCall(request) => request < SIZE_LIMIT
    case FreeCall(p) => FreeOk(h, p)
    case ReallocCall(p, newsize) => newsize < SIZE_LIMIT && FreeOk(h, p)
  }

  /** One call; a call the source's assertions exclude changes nothing. */
  ghost function Do(h: Heap, c: Call): Heap {
    if !Allowed(h, c) then h else
    match c
    case MallocCall(request) => Malloc(h, request).0
    case FreeCall(p) => FreeSpec(h, p)
    case ReallocCall(p, newsize) => ReallocSpec(h, p, newsize).0
  }

  ghost function DoAll(size: nat, calls: seq<Call>): Heap {
    if calls == [] then InitHeap(size)
    else Do(DoAll(size, calls[..|calls| - 1]), calls[|calls| - 1])
  }

  // ----------------------------------------------------------- calls as sections

  ghost function After(h: Heap, steps: seq<Step>): Heap
    decreases |steps|
  {
    if steps == [] then h else After(Next(h, steps[0]), steps[1..])
  }

  /** The reallocation goes through rt_malloc and rt_free. */
  ghost predicate Moves(h: Heap, c: Call) {
    c.ReallocCall? && Allowed(h, c) && InHeap(h, c.p) && 0 < RtAlign(c.newsize) <= h.size
    && var b, n := h.blocks[IndexOf(h, c.p)], RtAlign(c.newsize);
    b.next - b.start - HEADER != n && b.next - b.start - HEADER <= n + HEADER + MIN_DATA
  }

  /** The sections of a call. */
  ghost function Sections(h: Heap, c: Call): seq<Step> {
    if !Allowed(h, c) then [] else
    match c
    case MallocCall(request) => [MallocStep(request)]
    case FreeCall(p) => if InHeap(h, p) then [FreeStep(IndexOf(h, p))] else []
    case ReallocCall(p, newsize) => ReallocSections(h, p, RtAlign(newsize))
  }

  ghost function ReallocSections(h: Heap, p: Ptr, n: nat): seq<Step>
    requires FreeOk(h, p)
  {
    if n > h.size then []
    else if n == 0 then (if InHeap(h, p) then [FreeStep(IndexOf(h, p))] else [])
    else if p.Null? then [MallocStep(n)]
    else if !InHeap(h, p) then []
    else
      var i := IndexOf(h, p);
      var data := h.blocks[i].next - h.blocks[i].start - HEADER;
      if data == n then []
      else if n + HEADER + MIN_DATA < data then [ShrinkStep(i, n)]
      else
        var h1 := Malloc(h, n).0;
        if Malloc(h, n).1.Null? || !InHeap(h1, p) then [] else [MallocStep(n), FreeStep(IndexOf(h1, p))]
  }

  lemma AfterOne(h: Heap, s: Step)
    ensures After(h, [s]) == Next(h, s)
  {
    assert [s][1..] == [];
  }

  lemma AfterTwo(h: Heap, s: Step, t: Step)
    ensures After(h, [s, t]) == Next(Next(h, s), t)
  {
    assert [s, t][1..] == [t];
    AfterOne(Next(h, s), t);
  }

  lemma PointsAt(h: Heap, p: Ptr)
    requires Inv(h) && InHeap(h, p) && FreeOk(h, p)
    ensures p == At(h.blocks[IndexOf(h, p)].start + HEADER)
  {
  }

  lemma MoveSections(h: Heap, p: Ptr, n: nat)
    requires Inv(h) && InHeap(h, p) && FreeOk(h, p) && 0 < n <= h.size && Malloc(h, n).1.At?
    ensures var h1 := Malloc(h, n).0;
      InHeap(h1, p) && After(h, [MallocStep(n), FreeStep(IndexOf(h1, p))]) == FreeSpec(h1, p)
  {
    PointsAt(h, p);
    MoveOldIndex(h, n, IndexOf(h, p));
    AfterTwo(h, MallocStep(n), FreeStep(IndexOf(Malloc(h, n).0, p)));
  }

  lemma ShrinkSection(h: Heap, i: nat, n: nat)
    requires Inv(h) && Live(h, i) && 0 < n && n % 4 == 0
    requires n + HEADER + MIN_DATA < h.blocks[i].next - h.blocks[i].start - HEADER
    ensures After(h, [ShrinkStep(i, n)]) == Shrink(h, i, n)
  {
    AfterOne(h, ShrinkStep(i, n));
  }

  /** A reallocation is at most two sections. */
  lemma ReallocIsSections(h: Heap, p: Ptr, newsize: nat)
    requires Inv(h) && newsize < SIZE_LIMIT && FreeOk(h, p)
    ensures |ReallocSections(h, p, RtAlign(newsize))| <= 2
    ensures After(h, ReallocSections(h, p, RtAlign(newsize))) == ReallocSpec(h, p, newsize).0
  {
    var n := RtAlign(newsize);
    RtAlignRoundsUp(newsize);
    if n > h.size {
    } else if n == 0 {
      if InHeap(h, p) {
        AfterOne(h, FreeStep(IndexOf(h, p)));
      }
    } else if p.Null? {
      AfterOne(h, MallocStep(n));
    } else if InHeap(h, p) {
      var i := IndexOf(h, p);
      var data := h.blocks[i].next - h.blocks[i].start - HEADER;
      if n + HEADER + MIN_DATA < data {
        ShrinkSection(h, i, n);
      } else if data != n && Malloc(h, n).1.At? {
        MoveSections(h, p, n);
      }
    }
  }

  lemma CallIsSections(h: Heap, c: Call)
    requires Inv(h)
    ensures |Sections(h, c)| <= 2 && After(h, Sections(h, c)) == Do(h, c)
  {
    if Allowed(h, c) {
      match c
      case MallocCall(request) => AfterOne(h, MallocStep(request));
      case FreeCall(p) =>
        if InHeap(h, p) {
          AfterOne(h, FreeStep(IndexOf(h, p)));
        }
      case ReallocCall(p, newsize) => ReallocIsSections(h, p, newsize);
    }
  }

  lemma {:induction false} AfterKeepsInv(h: Heap, steps: seq<Step>)
    requires Inv(h)
    ensures Inv(After(h, steps)) && After(h, steps).size == h.size
    ensures HintLowest(h) && (forall s :: s in steps ==> !s.ShrinkStep?) ==> HintLowest(After(h, steps))
    decreases |steps|
  {
    if steps != [] {
      StepKeepsInv(h, steps[0]);
      AfterKeepsInv(Next(h, steps[0]), steps[1..]);
    }
  }

  // ------------------------------------------------------------------ every run

  /** The largest `used_mem` while the call runs: a move holds both blocks for a while. */
  ghost function Highest(h: Heap, c: Call): int {
    if Moves(h, c) then Malloc(h, RtAlign(c.newsize)).0.used else Do(h, c).used
  }

  /** The largest `used_mem` of the run. */
  ghost function PeakOf(size: nat, calls: seq<Call>): int {
    if calls == [] then 0
    else
      var before, last := calls[..|calls| - 1], calls[|calls| - 1];
      Max(PeakOf(size, before), Highest(DoAll(size, before), last))
  }

  lemma CallPeak(h: Heap, c: Call)
    requires Inv(h)
    ensures Do(h, c).max == Max(h.max, Highest(h, c))
  {
    if Moves(h, c) {
      StepKeepsInv(h, MallocStep(RtAlign(c.newsize)));
      RtAlignRoundsUp(c.newsize);
    } else {
      CallIsSections(h, c);
      var s := Sections(h, c);
      assert |s| <= 1;
      if s != [] {
        AfterOne(h, s[0]);
        assert s == [s[0]];
        StepKeepsInv(h, s[0]);
      }
    }
  }

  /** The call shrinks a block in place. */
  ghost predicate Shrinks(h: Heap, c: Call) {
    exists s :: s in Sections(h, c) && s.ShrinkStep?
  }

  ghost predicate NeverShrinks(size: nat, calls: seq<Call>) {
    calls == [] ||
    var before, last := calls[..|calls| - 1], calls[|calls| - 1];
    NeverShrinks(size, before) && !Shrinks(DoAll(size, before), last)
  }

  lemma CallKeeps(h: Heap, c: Call)
    requires Inv(h)
    ensures Inv(Do(h, c)) && Do(h, c).size == h.size && Do(h, c).max == Max(h.max, Highest(h, c))
    ensures HintLowest(h) && !Shrinks(h, c) ==> HintLowest(Do(h, c))
  {
    CallIsSections(h, c);
    AfterKeepsInv(h, Sections(h, c));
    CallPeak(h, c);
  }

  /**
    In every run of init, malloc, free and realloc the invariant holds, `max_mem`
    is the largest `used_mem` there was, and unless a block was shrunk in place
    no free block is below the hint.
   */
  lemma {:induction false} EveryRun(size: nat, calls: seq<Call>)
    requires ValidSize(size)
    ensures var h := DoAll(size, calls); Inv(h) && h.size == size && h.max == PeakOf(size, calls)
    ensures NeverShrinks(size, calls) ==> HintLowest(DoAll(size, calls))
    decreases |calls|
  {
    if calls == [] {
      InitInv(size);
    } else {
      var before, last := calls[..|calls| - 1], calls[|calls| - 1];
      EveryRun(size, before);
      CallKeeps(DoAll(size, before), last);
    }
  }

  // -------------------------------------------------------------------- answers

  /** Block `c` is free, not below the hint, below the bound of the search, and holds `n` bytes. */
  ghost predicate Found(h: Heap, c: Block, n: nat) {
    !c.used && h.lfree <= c.start < h.size - n && c.start + HEADER + n <= c.next
  }

  ghost predicate NoneFound(h: Heap, n: nat) {
    forall j :: 0 <= j < |h.blocks| ==> !Found(h, h.blocks[j], n)
  }

  /** The size searched for. */
  ghost function AtLeastMin(n: nat): nat {
    if n < 12 then 12 else n
  }

  /** The blocks from the hint on are those not below it. */
  lemma FromHint(h: Heap, j: nat)
    requires Inv(h) && j < |h.blocks|
    ensures IndexAt(h.blocks, h.lfree) <= j <==> h.lfree <= h.blocks[j].start
  {
    TiledOrdered(h.blocks, 0, h.End(), MIN_BLOCK);
  }

  lemma SearchNone(h: Heap, i: nat, n: nat)
    requires Inv(h) && i <= |h.blocks| && n <= h.size
    ensures SearchFrom(h, i, n) == |h.blocks|
      <==> forall j :: i <= j < |h.blocks| && h.blocks[j].start < h.size - n ==> !Fits(h.blocks[j], n)
  {
    assert Ordered(h.blocks) by {
      TiledOrdered(h.blocks, 0, h.End(), MIN_BLOCK);
    }
  }

  lemma NoneFoundIff(h: Heap, n: nat)
    requires Inv(h) && SizeOk(n, h.size)
    ensures Choice(h, n) == |h.blocks| <==> NoneFound(h, AtLeastMin(n))
  {
    var i, need := IndexAt(h.blocks, h.lfree), AtLeastMin(n);
    AlignedSize(n);
    assert Choice(h, n) == SearchFrom(h, i, need);
    SearchNone(h, i, need);
    forall j | 0 <= j < |h.blocks|
      ensures Found(h, h.blocks[j], need) <==> i <= j && h.blocks[j].start < h.size - need && Fits(h.blocks[j], need)
    {
      FromHint(h, j);
    }
  }

  /**
    A successful rt_malloc answers the data address of a used block that was not
    there before, of at least the size asked for; the other used blocks stay.
   */
  lemma MallocAnswers(h: Heap, n: nat)
    requires Inv(h) && SizeOk(n, h.size)
    ensures var (g, q) := Malloc(h, n);
      && (q.Null? <==> NoneFound(h, AtLeastMin(n))) && (q.Null? ==> g == h)
      && (!q.Null? ==> Inv(g) && exists c :: Placed(h, g, {}, c, q, n) && c !in UsedSet(Members(h.blocks)))
  {
    NoneFoundIff(h, n);
    var k, need := Choice(h, n), Need(n);
    if k < |h.blocks| {
      RtAlignRoundsUp(n);
      ChoiceFits(h, n);
      AllocateKeepsInv(h, k, need);
      AllocatedAt(h, k, need);
      FreshBlock(h, k, need);
      assert Placed(h, Malloc(h, n).0, {}, Carve(h.blocks[k], need)[0], Malloc(h, n).1, n);
    }
  }

  /**
    Pointer `q` is to used block `c` of at least `n` bytes; the other used blocks are
    those of before but `gone`.
   */
  ghost predicate Placed(h: Heap, g: Heap, gone: set<Block>, c: Block, q: Ptr, n: nat) {
    && c.used && q == At(c.start + HEADER) && c.start + HEADER + n <= c.next
    && UsedSet(Members(g.blocks)) == UsedSet(Members(h.blocks)) - gone + {c}
  }

  /** The answer and the used blocks after rt_free. */
  lemma FreeAnswers(h: Heap, p: Ptr, b: Block)
    requires Inv(h) && b in h.blocks && b.used && p == At(b.start + HEADER)
    ensures FreeOk(h, p) && UsedSet(Members(FreeSpec(h, p).blocks)) == UsedSet(Members(h.blocks)) - {b}
  {
    OldIndex(h, b);
    ReleaseKeepsInv(h, IndexOf(h, p));
  }

  /**
    The answer of rt_realloc for live block `b` and an aligned size `n` that is not
    0 and not above the heap's. The block stays where it is if it has that size
    already, or is cut if it is larger by more than a minimal block. Otherwise NULL
    comes exactly if the search finds no block, and then nothing changes. A
    pointer answered is to a used block of at least `n` bytes that takes the
    place of `b` among the used ones.
   */
  lemma ReallocAnswers(h: Heap, p: Ptr, b: Block, n: nat)
    requires Inv(h) && b in h.blocks && b.used && p == At(b.start + HEADER) && SizeOk(n, h.size)
    ensures FreeOk(h, p)
    ensures var (g, q) := ReallocSpec(h, p, n);
      var data := b.next - b.start - HEADER;
      && (q.Null? <==>
            && data != n && !(n + HEADER + MIN_DATA < data)
            && NoneFound(h, AtLeastMin(n)))
      && (q.Null? ==> g == h) && (data == n ==> g == h && q == p) && (n + HEADER + MIN_DATA < data ==> q == p)
      && (!q.Null? ==> exists c :: Placed(h, g, {b}, c, q, n))
  {
    ReallocCases(h, p, b, n);
    var data := b.next - b.start - HEADER;
    var (g, q) := ReallocSpec(h, p, n);
    if data == n {
      assert b in UsedSet(Members(h.blocks));
      assert Placed(h, g, {b}, b, q, n);
    } else if n + HEADER + MIN_DATA < data {
      ShrinkAnswers(h, p, b, n);
    } else {
      MoveAnswers(h, p, b, n);
    }
  }

  /** The other cases: too large, NULL, a pointer outside the heap, and a size that is rounded to 0. */
  lemma ReallocElse(h: Heap, p: Ptr, newsize: nat)
    requires Inv(h) && FreeOk(h, p) && newsize < SIZE_LIMIT
    ensures var (g, q), n := ReallocSpec(h, p, newsize), RtAlign(newsize);
      && (n > h.size ==> g == h && q == Null)
      && (0 < n <= h.size && p == Null ==> (g, q) == Malloc(h, n))
      && (0 < n <= h.size && p != Null && !(0 <= p.offset < h.size + HEADER) ==> g == h && q == p)
      && (n == 0 ==> q == Null && (p == Null ==> g == h))
      && (n == 0 && InHeap(h, p) ==>
            UsedSet(Members(g.blocks)) == UsedSet(Members(h.blocks)) - {h.blocks[IndexOf(h, p)]})
  {
    if InHeap(h, p) {
      ReleaseKeepsInv(h, IndexOf(h, p));
    }
  }

  lemma ReallocCases(h: Heap, p: Ptr, b: Block, n: nat)
    requires Inv(h) && b in h.blocks && b.used && p == At(b.start + HEADER) && SizeOk(n, h.size)
    ensures FreeOk(h, p) && InHeap(h, p) && IndexOf(h, p) < |h.blocks| && h.blocks[IndexOf(h, p)] == b
    ensures var data := b.next - b.start - HEADER;
      ReallocSpec(h, p, n)
        == if data == n then (h, p)
           else if n + HEADER + MIN_DATA < data then (Shrink(h, IndexOf(h, p), n), p) else MoveSpec(h, p, n)
  {
    OldIndex(h, b);
    AlignedSize(n);
    Cases(h, p, n);
  }

  lemma AlignedSize(n: nat)
    requires n % 4 == 0 && n < SIZE_LIMIT
    ensures RtAlign(n) == n
  {
    RtAlignRoundsUp(n);
  }

  lemma Cases(h: Heap, p: Ptr, n: nat)
    requires FreeOk(h, p) && InHeap(h, p) && RtAlign(n) == n && 0 < n <= h.size && IndexOf(h, p) < |h.blocks|
    ensures var b := h.blocks[IndexOf(h, p)];
      var data := b.next - b.start - HEADER;
      ReallocSpec(h, p, n)
        == if data == n then (h, p)
           else if n + HEADER + MIN_DATA < data then (Shrink(h, IndexOf(h, p), n), p) else MoveSpec(h, p, n)
  {
  }

  lemma ShrinkAnswers(h: Heap, p: Ptr, b: Block, n: nat)
    requires Inv(h) && InHeap(h, p) && IndexOf(h, p) < |h.blocks| && h.blocks[IndexOf(h, p)] == b
    requires b.used && p == At(b.start + HEADER) && CanShrink(b, n)
    ensures exists c :: Placed(h, Shrink(h, IndexOf(h, p), n), {b}, c, p, n)
  {
    ShrinkKeepsInv(h, IndexOf(h, p), n);
    assert Placed(h, Shrink(h, IndexOf(h, p), n), {b}, Split(b, n)[0], p, n);
  }

  lemma MoveAnswers(h: Heap, p: Ptr, b: Block, n: nat)
    requires Inv(h) && b in h.blocks && b.used && p == At(b.start + HEADER) && SizeOk(n, h.size)
    ensures var (g, q) := MoveSpec(h, p, n);
      && (q.Null? <==> NoneFound(h, AtLeastMin(n))) && (q.Null? ==> g == h)
      && (!q.Null? ==> exists c :: Placed(h, g, {b}, c, q, n))
  {
    MallocAnswers(h, n);
    var (h1, q) := Malloc(h, n);
    if !q.Null? {
      var c :| Placed(h, h1, {}, c, q, n) && c !in UsedSet(Members(h.blocks));
      assert b in UsedSet(Members(h.blocks));
      assert b in UsedSet(Members(h1.blocks));
      FreeAnswers(h1, p, b);
      assert Placed(h, FreeSpec(h1, p), {b}, c, q, n);
    }
  }
}
