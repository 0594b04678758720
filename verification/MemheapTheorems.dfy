/**
  Whole runs of the memheap allocator: any sequence of allocations, releases and
  reallocations.
 */
module MemheapTheorems {
  import opened Wrappers
  import opened BlockList
  import opened MemheapSpec
  import L = NodeList

  datatype Step = Alloc(request: nat) | Free(header: nat) | Realloc(header: nat, request: nat)

  /** Index of the used block with this header, or the number of blocks. */
  ghost function LiveAt(h: Heap, x: nat): (k: nat)
    ensures k <= |h.blocks|
    ensures k < |h.blocks| ==> h.blocks[k].start == x && h.blocks[k].used
  {
    var k := IndexAt(h.blocks, x);
    if k < |h.blocks| && h.blocks[k].used then k else |h.blocks|
  }

  ghost function DoAlloc(h: Heap, request: nat): (Heap, Option<nat>) {
    var k := Choice(h, request);
    if k == |h.blocks| then (h, None) else (AllocAt(h, k, Need(request)), Some(h.blocks[k].start))
  }

  ghost function DoFree(h: Heap, x: nat): Heap {
    var k := LiveAt(h, x);
    if k == |h.blocks| then h else FreeAt(h, k)
  }

  /** A reallocation that grows and finds no room behind the block. */
  ghost predicate Moves(h: Heap, k: nat, n: nat) {
    && k < |h.blocks| && n > Size(h.blocks[k])
    && !(RightFree(h, k) && GrowTest(Size(h.blocks[k]), Size(h.blocks[k + 1]), n))
  }

  /** A new block is allocated and the old one freed; on failure nothing changes. */
  ghost function DoMove(h: Heap, x: nat, n: nat): (Heap, Option<nat>) {
    var (g, r) := DoAlloc(h, n);
    if r.None? then (h, None) else (DoFree(g, x), r)
  }

  /** To a larger size: in place if the block behind is free and the test finds it large enough. */
  ghost function DoEnlarge(h: Heap, k: nat, n: nat): (Heap, Option<nat>)
    requires k < |h.blocks|
  {
    var x := h.blocks[k].start;
    if RightFree(h, k) && GrowTest(Size(h.blocks[k]), Size(h.blocks[k + 1]), n) then (GrowAt(h, k, n), Some(x))
    else DoMove(h, x, n)
  }

  /** rt_memheap_realloc of live block `k` to a request that is not 0. */
  ghost function DoResize(h: Heap, k: nat, request: nat): (Heap, Option<nat>)
    requires k < |h.blocks|
  {
    var x, n := h.blocks[k].start, Need(request);
    if n > Size(h.blocks[k]) then DoEnlarge(h, k, n)
    else if n + HEADER + MIN_DATA >= Size(h.blocks[k]) then (h, Some(x))
    else (ShrinkAt(h, k, n), Some(x))
  }

  ghost function Next(h: Heap, step: Step): Heap {
    match step
    case Alloc(request) => DoAlloc(h, request).0
    case Free(x) => DoFree(h, x)
    case Realloc(x, request) =>
      var k := LiveAt(h, x);
      if k == |h.blocks| then h else if request == 0 then FreeAt(h, k) else DoResize(h, k, request).0
  }

  ghost function Exec(h: Heap, steps: seq<Step>): Heap {
    if steps == [] then h else Next(Exec(h, steps[..|steps| - 1]), steps[|steps| - 1])
  }

  ghost predicate Fits32(step: Step) {
    !step.Free? ==> step.request < SIZE_LIMIT
  }

  /** The reallocation whose size test wraps: a free block follows and the aligned size is 2^32 - 12 or more. */
  ghost predicate Wraps(h: Heap, step: Step) {
    && step.Realloc? && step.request != 0 && LiveAt(h, step.header) < |h.blocks|
    && RightFree(h, LiveAt(h, step.header)) && Need(step.request) >= SIZE_LIMIT - MIN_DATA
  }

  // --------------------------------------------------------------------- one step

  lemma DoAllocKeeps(h: Heap, request: nat)
    requires Inv(h) && request < SIZE_LIMIT
    ensures Inv(DoAlloc(h, request).0)
  {
    var k := Choice(h, request);
    if k < |h.blocks| {
      ChoiceTakes(h, request);
      AllocKeeps(h, k, Need(request));
    }
  }

  lemma DoFreeKeeps(h: Heap, x: nat)
    requires Inv(h)
    ensures Inv(DoFree(h, x))
  {
    if LiveAt(h, x) < |h.blocks| {
      FreeKeeps(h, LiveAt(h, x));
    }
  }

  lemma SizeBound(h: Heap, k: nat)
    requires Inv(h) && k < |h.blocks|
    ensures MIN_DATA <= Size(h.blocks[k]) < SIZE_LIMIT - MIN_DATA
  {
    BlockAt(h, k);
  }

  lemma ResizeKeepsIff(h: Heap, k: nat, request: nat)
    requires Inv(h) && k < |h.blocks| && h.blocks[k].used && request < SIZE_LIMIT
    ensures Inv(DoResize(h, k, request).0) <==> !(RightFree(h, k) && Need(request) >= SIZE_LIMIT - MIN_DATA)
  {
    var n := Need(request);
    NeedOk(request);
    SizeBound(h, k);
    if Moves(h, k, n) {
      if RightFree(h, k) && n >= SIZE_LIMIT - MIN_DATA {
        TestAtTop(h, k, n);
      }
      MoveKeeps(h, k, n);
    } else if n > Size(h.blocks[k]) {
      GrowIff(h, k, n);
    } else if n + HEADER + MIN_DATA < Size(h.blocks[k]) {
      ShrinkKeeps(h, k, n);
    }
  }

  lemma MoveKeeps(h: Heap, k: nat, n: nat)
    requires Inv(h) && k < |h.blocks| && n < SIZE_LIMIT
    ensures Inv(DoAlloc(h, n).0) && Inv(DoFree(DoAlloc(h, n).0, h.blocks[k].start))
  {
    DoAllocKeeps(h, n);
    DoFreeKeeps(DoAlloc(h, n).0, h.blocks[k].start);
  }

  /** Near the top the wrapped test always succeeds. */
  lemma TestAtTop(h: Heap, k: nat, n: nat)
    requires Inv(h) && k + 1 < |h.blocks| && SIZE_LIMIT - MIN_DATA <= n < SIZE_LIMIT
    ensures n > Size(h.blocks[k]) && GrowTest(Size(h.blocks[k]), Size(h.blocks[k + 1]), n)
  {
    BlockAt(h, k);
    BlockAt(h, k + 1);
    WrapIs(n + MIN_DATA);
    WrapIs(Size(h.blocks[k + 1]) + Size(h.blocks[k]));
  }

  /** A step keeps the invariant exactly if it is not that reallocation. */
  lemma StepKeepsIff(h: Heap, step: Step)
    requires Inv(h) && Fits32(step)
    ensures Inv(Next(h, step)) <==> !Wraps(h, step)
  {
    match step
    case Alloc(request) => DoAllocKeeps(h, request);
    case Free(x) => DoFreeKeeps(h, x);
    case Realloc(x, request) =>
      var k := LiveAt(h, x);
      if k < |h.blocks| {
        if request == 0 {
          FreeKeeps(h, k);
        } else {
          ResizeKeepsIff(h, k, request);
        }
      }
  }

  // ------------------------------------------------------------------------- runs

  ghost predicate Sound(h: Heap, steps: seq<Step>) {
    forall i :: 0 <= i < |steps| ==> Fits32(steps[i]) && !Wraps(Exec(h, steps[..i]), steps[i])
  }

  /**
    In every run without that reallocation: the blocks tile the pool up to the
    tail, no two neighbours are free, every block keeps at least 12 data bytes,
    the free list holds the free blocks once each, and the counters are right.
   */
  lemma {:induction false} EveryRun(pool: nat, steps: seq<Step>)
    requires pool % 4 == 0 && 2 * HEADER + MIN_DATA <= pool < SIZE_LIMIT && Sound(Init(pool), steps)
    ensures Inv(Exec(Init(pool), steps))
    decreases |steps|
  {
    if steps == [] {
      InitInv(pool);
    } else {
      var n := |steps| - 1;
      SoundFront(Init(pool), steps);
      EveryRun(pool, steps[..n]);
      StepKeepsIff(Exec(Init(pool), steps[..n]), steps[n]);
    }
  }

  lemma SoundFront(h: Heap, steps: seq<Step>)
    requires Sound(h, steps) && steps != []
    ensures var n := |steps| - 1; Sound(h, steps[..n]) && Fits32(steps[n]) && !Wraps(Exec(h, steps[..n]), steps[n])
  {
    var n := |steps| - 1;
    assert forall i :: 0 <= i < n ==> steps[..n][..i] == steps[..i] && steps[..n][i] == steps[i];
  }

  /** One allocation, then a reallocation to 2^32 - 12 bytes, and the invariant is gone. */
  lemma ReallocOverflows()
    ensures var h := Next(Init(1000), Alloc(12));
      Inv(h) && Wraps(h, Realloc(0, 0xFFFF_FFF4)) && !Inv(Next(h, Realloc(0, 0xFFFF_FFF4)))
  {
    var init := Init(1000);
    InitInv(1000);
    assert Need(12) == 12;
    assert Choice(init, 12) == 0;
    var h := Next(init, Alloc(12));
    DoAllocKeeps(init, 12);
    assert h.blocks == [Block(0, 36, true), Block(36, 976, false)];
    assert LiveAt(h, 0) == 0 by {
      assert h.blocks[0].start == 0 && h.blocks[1].start == 36;
    }
    assert Need(0xFFFF_FFF4) == 0xFFFF_FFF4;
    StepKeepsIff(h, Realloc(0, 0xFFFF_FFF4));
  }

  /** Bytes of the pool in use, headers included. */
  ghost function InUse(h: Heap): int {
    h.pool - h.available
  }

  /** The most ever in use, counting the moment in a move when both copies exist. */
  ghost function Peak(h: Heap, steps: seq<Step>): int {
    if steps == [] then h.max
    else
      var front := Exec(h, steps[..|steps| - 1]);
      Max(Peak(h, steps[..|steps| - 1]), Max(InUse(During(front, steps[|steps| - 1])), InUse(Exec(h, steps))))
  }

  /** The heap in the middle of a move; otherwise the heap before the step. */
  ghost function During(h: Heap, step: Step): Heap {
    if step.Realloc? && step.request != 0 && Moves(h, LiveAt(h, step.header), Need(step.request))
    then DoAlloc(h, Need(step.request)).0 else h
  }

  /** The new maximum is the larger of the old one and what is now in use. */
  ghost predicate Raised(h: Heap, g: Heap) {
    g.pool == h.pool && g.max == Max(h.max, InUse(g))
  }

  lemma SameRaised(h: Heap)
    requires SizesOk(h)
    ensures Raised(h, h)
  {
  }

  lemma AllocRaises(h: Heap, request: nat)
    requires SizesOk(h)
    ensures Raised(h, DoAlloc(h, request).0)
  {
  }

  lemma FreeRaises(h: Heap, x: nat)
    requires InUse(h) <= h.max
    ensures Raised(h, DoFree(h, x))
  {
  }

  lemma InPlaceRaises(h: Heap, k: nat, n: nat)
    requires k < |h.blocks|
    ensures k + 1 < |h.blocks| ==> Raised(h, GrowAt(h, k, n))
    ensures Raised(h, ShrinkAt(h, k, n))
  {
  }

  lemma ResizeMax(h: Heap, k: nat, request: nat)
    requires SizesOk(h) && k < |h.blocks|
    ensures var g := DoResize(h, k, request).0;
      if Moves(h, k, Need(request))
      then g.max == Max(h.max, Max(InUse(DoAlloc(h, Need(request)).0), InUse(g)))
      else Raised(h, g)
  {
    var n := Need(request);
    if Moves(h, k, n) {
      AllocRaises(h, n);
      FreeRaises(DoAlloc(h, n).0, h.blocks[k].start);
    } else {
      InPlaceRaises(h, k, n);
      SameRaised(h);
    }
  }

  lemma StepMax(h: Heap, step: Step)
    requires Inv(h)
    ensures Next(h, step).max == Max(h.max, Max(InUse(During(h, step)), InUse(Next(h, step))))
  {
    match step
    case Alloc(request) => AllocRaises(h, request);
    case Free(x) => FreeRaises(h, x);
    case Realloc(x, request) =>
      var k := LiveAt(h, x);
      if k < |h.blocks| && request != 0 {
        ResizeMax(h, k, request);
      }
  }

  /** max_used_size is the running maximum of the bytes in use. */
  lemma {:induction false} MaxIsPeak(pool: nat, steps: seq<Step>)
    requires pool % 4 == 0 && 2 * HEADER + MIN_DATA <= pool < SIZE_LIMIT && Sound(Init(pool), steps)
    ensures Exec(Init(pool), steps).max == Peak(Init(pool), steps)
    decreases |steps|
  {
    if steps != [] {
      var n := |steps| - 1;
      SoundFront(Init(pool), steps);
      MaxIsPeak(pool, steps[..n]);
      EveryRun(pool, steps[..n]);
      StepMax(Exec(Init(pool), steps[..n]), steps[n]);
    }
  }

  // -------------------------------------------------------------- used blocks only

  /** Distinct used blocks have disjoint, aligned data regions inside the pool. */
  lemma LiveRegionsDisjoint(h: Heap, i: nat, j: nat)
    requires Inv(h) && i < j < |h.blocks|
    ensures var b, c := h.blocks[i], h.blocks[j];
      && (b.start + HEADER) % 4 == 0 && b.start + HEADER + MIN_DATA <= b.next
      && b.next <= c.start + HEADER && c.next <= h.Tail()
  {
    var b, c := h.blocks[i], h.blocks[j];
    BlockAt(h, i);
    BlockAt(h, j);
    assert b.next <= c.start by {
      TiledOrdered(h.blocks, 0, h.Tail(), MIN_BLOCK);
    }
    assert HEADER % 4 == 0;
  }

  lemma ReplaceUsed(h: Heap, i: nat, k: nat, mid: seq<Block>)
    requires BlocksOk(h) && i <= k <= |h.blocks|
    ensures UsedSet(Members(h.blocks[..i] + mid + h.blocks[k..]))
      == UsedSet(Members(h.blocks)) - UsedSet(Members(h.blocks[i..k])) + UsedSet(Members(mid))
  {
    Parts(h, i, k);
    ReplaceMembers(h.blocks[..i], h.blocks[i..k], mid, h.blocks[k..], 0, h.Tail(), MIN_BLOCK);
  }

  /** Allocation adds one used block, which lies in a block that was free. */
  lemma AllocAdds(h: Heap, i: nat, n: nat)
    requires Inv(h) && CanTake(h, i, n)
    ensures var b, c := h.blocks[i], AllocAt(h, i, n).blocks[i];
      && UsedSet(Members(AllocAt(h, i, n).blocks)) == UsedSet(Members(h.blocks)) + {c}
      && c.used && c.start == b.start && c.next <= b.next && n <= Size(c) < n + HEADER + MIN_DATA
  {
    var b, cut := h.blocks[i], h.blocks[i].start + HEADER + n;
    if Splits(b, n) {
      OneMore(h, i, [Block(b.start, cut, true), Block(cut, b.next, false)]);
    } else {
      OneMore(h, i, [b.(used := true)]);
    }
  }

  /** A free block gives way to a used one and at most one free one. */
  lemma OneMore(h: Heap, i: nat, mid: seq<Block>)
    requires BlocksOk(h) && i < |h.blocks| && !h.blocks[i].used
    requires 1 <= |mid| <= 2 && mid[0].used && (|mid| == 2 ==> !mid[1].used)
    ensures var bs := h.blocks[..i] + mid + h.blocks[i + 1..];
      bs[i] == mid[0] && UsedSet(Members(bs)) == UsedSet(Members(h.blocks)) + {mid[0]}
  {
    ReplaceUsed(h, i, i + 1, mid);
    assert h.blocks[i..i + 1] == [h.blocks[i]];
    assert UsedSet(Members([h.blocks[i]])) == {};
    assert UsedSet(Members(mid)) == {mid[0]};
  }

  /** Release takes exactly that block out of the used ones. */
  lemma FreeRemoves(h: Heap, i: nat)
    requires Inv(h) && i < |h.blocks| && h.blocks[i].used
    ensures UsedSet(Members(FreeAt(h, i).blocks)) == UsedSet(Members(h.blocks)) - {h.blocks[i]}
  {
    var lo, hi := if LeftFree(h, i) then i - 1 else i, if RightFree(h, i) then i + 2 else i + 1;
    var c := Block(h.blocks[lo].start, h.blocks[hi - 1].next, false);
    ReplaceUsed(h, lo, hi, [c]);
    assert UsedSet(Members([c])) == {};
    NeighbourUsed(h, i, lo, hi);
  }

  lemma NeighbourUsed(h: Heap, i: nat, lo: nat, hi: nat)
    requires lo <= i < hi <= |h.blocks| && h.blocks[i].used
    requires forall j :: lo <= j < hi && j != i ==> !h.blocks[j].used
    ensures UsedSet(Members(h.blocks[lo..hi])) == {h.blocks[i]}
  {
    var s := h.blocks[lo..hi];
    assert s[i - lo] == h.blocks[i];
    forall b | b in s && b.used ensures b == h.blocks[i] {
      var j :| 0 <= j < |s| && s[j] == b;
      assert h.blocks[lo + j] == b;
    }
  }

  /**
    Freeing what was just allocated restores the block list and the available
    size; the free list holds the same blocks, the freed one now in front.
   */
  lemma AllocThenFree(h: Heap, i: nat, n: nat)
    requires Inv(h) && CanTake(h, i, n)
    ensures var g := AllocAt(h, i, n);
      && i < |g.blocks| && g.blocks[i].used && g.blocks[i].start == h.blocks[i].start
      && FreeAt(g, i).blocks == h.blocks
      && FreeAt(g, i).available == h.available
      && L.Members(FreeAt(g, i).free) == L.Members(h.free)
  {
    var g := AllocAt(h, i, n);
    AllocKeeps(h, i, n);
    AllocAdds(h, i, n);
    AllocBlock(h, i, n);
    var f := FreeAt(g, i);
    FreeKeeps(g, i);
    FreeRemoves(g, i);
    NewBlock(h, i, g.blocks[i]);
    assert UsedSet(Members(f.blocks)) == UsedSet(Members(h.blocks));
    CanonicalIsUnique(f.blocks, h.blocks, 0, h.Tail(), MIN_BLOCK);
  }

  lemma AllocBlock(h: Heap, i: nat, n: nat)
    requires i < |h.blocks|
    ensures var g := AllocAt(h, i, n);
      i < |g.blocks| && g.blocks[i].used && g.blocks[i].start == h.blocks[i].start && g.pool == h.pool
  {
  }

  /** The block made by an allocation was not a used block before. */
  lemma NewBlock(h: Heap, i: nat, c: Block)
    requires BlocksOk(h) && i < |h.blocks| && !h.blocks[i].used && c.start == h.blocks[i].start
    ensures c !in UsedSet(Members(h.blocks))
  {
    DistinctStarts(h);
    assert h.blocks[i] in Members(h.blocks);
  }

  // ----------------------------------------------------------------- size rounding

  /** The used block with this header has at least `n` data bytes. */
  ghost predicate Holds(h: Heap, x: nat, n: nat) {
    exists b :: b in UsedSet(Members(h.blocks)) && b.start == x && Size(b) >= n
  }

  lemma NeedCoversIff(request: nat)
    requires request < SIZE_LIMIT
    ensures Need(request) >= request <==> request <= 0xFFFF_FFFC
  {
    RtAlignRoundsUp(request);
  }

  /** No block of a pool is that large. */
  lemma TooLarge(h: Heap, x: nat, n: nat)
    requires Inv(h) && n > 0xFFFF_FFFC
    ensures !Holds(h, x, n)
  {
    forall b | b in Members(h.blocks) ensures Size(b) < n {
      var k :| 0 <= k < |h.blocks| && h.blocks[k] == b;
      SizeBound(h, k);
    }
  }

  lemma AllocHolds(h: Heap, request: nat)
    requires Inv(h) && request < SIZE_LIMIT && DoAlloc(h, request).1.Some?
    ensures var (g, r) := DoAlloc(h, request); Holds(g, r.value, Need(request))
  {
    ChoiceTakes(h, request);
    AllocAdds(h, Choice(h, request), Need(request));
  }

  /**
    A successful rt_memheap_alloc gives at least the requested bytes exactly if
    rounding the request up does not wrap; larger requests round to 0 and get a
    minimal block.
   */
  lemma AllocSizeIff(h: Heap, request: nat)
    requires Inv(h) && request < SIZE_LIMIT && DoAlloc(h, request).1.Some?
    ensures var (g, r) := DoAlloc(h, request); Holds(g, r.value, request) <==> request <= 0xFFFF_FFFC
  {
    NeedCoversIff(request);
    AllocHolds(h, request);
    DoAllocKeeps(h, request);
    var (g, r) := DoAlloc(h, request);
    if request > 0xFFFF_FFFC {
      TooLarge(g, r.value, request);
    }
  }

  /** The new block of a move survives the release of the old one. */
  lemma MoveHolds(h: Heap, k: nat, n: nat)
    requires Inv(h) && k < |h.blocks| && h.blocks[k].used && n < SIZE_LIMIT
    requires DoMove(h, h.blocks[k].start, n).1.Some?
    ensures var (g, r) := DoMove(h, h.blocks[k].start, n); Holds(g, r.value, Need(n))
  {
    var x := h.blocks[k].start;
    var (g, r) := DoAlloc(h, n);
    AllocHolds(h, n);
    DoAllocKeeps(h, n);
    ChoiceTakes(h, n);
    DistinctStarts(h);
    assert h.blocks[Choice(h, n)] in Members(h.blocks) && h.blocks[k] in Members(h.blocks);
    assert r.value != x;
    if LiveAt(g, x) < |g.blocks| {
      FreeRemoves(g, LiveAt(g, x));
    }
  }

  /** A block whose boundary is moved keeps its header and has the bytes up to the boundary. */
  lemma RecutHolds(h: Heap, k: nat, n: nat)
    requires k < |h.blocks|
    ensures var x := h.blocks[k].start;
      && Holds(CutAt(h, k, x + HEADER + n), x, n)
      && (k + 1 < |h.blocks| ==> Holds(RecutAt(h, k, x + HEADER + n), x, n))
  {
    var x := h.blocks[k].start;
    var c := Block(x, x + HEADER + n, true);
    assert CutAt(h, k, x + HEADER + n).blocks[k] == c;
    assert c in UsedSet(Members(CutAt(h, k, x + HEADER + n).blocks));
    if k + 1 < |h.blocks| {
      assert RecutAt(h, k, x + HEADER + n).blocks[k] == c;
      assert c in UsedSet(Members(RecutAt(h, k, x + HEADER + n).blocks));
    }
  }

  lemma GrowHolds(h: Heap, k: nat, n: nat)
    requires Inv(h) && Resizable(h, k, n) && RightFree(h, k) && Size(h.blocks[k]) < n < SIZE_LIMIT - MIN_DATA
    requires GrowTest(Size(h.blocks[k]), Size(h.blocks[k + 1]), n)
    ensures Holds(GrowAt(h, k, n), h.blocks[k].start, n)
  {
    assert GrowAt(h, k, n) == RecutAt(h, k, h.blocks[k].start + HEADER + n) by {
      GrowIsRecut(h, k, n);
    }
    RecutHolds(h, k, n);
  }

  lemma EnlargeHolds(h: Heap, k: nat, n: nat)
    requires Inv(h) && Resizable(h, k, n) && n > Size(h.blocks[k])
    requires !(RightFree(h, k) && n >= SIZE_LIMIT - MIN_DATA) && DoEnlarge(h, k, n).1.Some?
    ensures var (g, r) := DoEnlarge(h, k, n); Holds(g, r.value, n)
  {
    if Moves(h, k, n) {
      NeedSame(n);
      MoveHolds(h, k, n);
    } else {
      GrowHolds(h, k, n);
    }
  }

  lemma NeedSame(n: nat)
    requires n % 4 == 0 && MIN_DATA <= n < SIZE_LIMIT
    ensures Need(n) == n
  {
    RtAlignRoundsUp(n);
  }

  lemma ResizeHolds(h: Heap, k: nat, request: nat)
    requires Inv(h) && k < |h.blocks| && h.blocks[k].used && request < SIZE_LIMIT
    requires !(RightFree(h, k) && Need(request) >= SIZE_LIMIT - MIN_DATA) && DoResize(h, k, request).1.Some?
    ensures var (g, r) := DoResize(h, k, request); Holds(g, r.value, Need(request))
  {
    var b, n := h.blocks[k], Need(request);
    NeedOk(request);
    if n > Size(b) {
      EnlargeHolds(h, k, n);
    } else if n + HEADER + MIN_DATA >= Size(b) {
      assert b in UsedSet(Members(h.blocks));
    } else {
      RecutHolds(h, k, n);
    }
  }

  /** The same for rt_memheap_realloc, where its own size test does not wrap. */
  lemma ReallocSizeIff(h: Heap, k: nat, request: nat)
    requires Inv(h) && k < |h.blocks| && h.blocks[k].used && 0 < request < SIZE_LIMIT
    requires !(RightFree(h, k) && Need(request) >= SIZE_LIMIT - MIN_DATA) && DoResize(h, k, request).1.Some?
    ensures var (g, r) := DoResize(h, k, request); Holds(g, r.value, request) <==> request <= 0xFFFF_FFFC
  {
    NeedCoversIff(request);
    ResizeHolds(h, k, request);
    ResizeKeepsIff(h, k, request);
    var (g, r) := DoResize(h, k, request);
    if request > 0xFFFF_FFFC {
      TooLarge(g, r.value, request);
    }
  }

  /** A fresh pool gives 12 bytes for a request of 0xFFFFFFFD, and refuses the 952 bytes that its one block has. */
  lemma FreshPoolAnswers()
    ensures DoAlloc(Init(1000), 0xFFFF_FFFD).1 == Some(0)
    ensures DoAlloc(Init(1000), 0xFFFF_FFFD).0.blocks[0] == Block(0, 36, true)
    ensures Size(Init(1000).blocks[0]) == Need(952) && DoAlloc(Init(1000), 952) == (Init(1000), None)
  {
    var h := Init(1000);
    RtAlignRoundsUp(0xFFFF_FFFD);
    RtAlignRoundsUp(952);
    assert Need(0xFFFF_FFFD) == 12;
    assert h.blocks[0].start == h.free[0];
    assert Choice(h, 0xFFFF_FFFD) == 0;
  }

  // ------------------------------------------------------------------------ answers

  /** A used block gets another end, and a free one follows. */
  lemma CutUsed(h: Heap, i: nat, k: nat, c: Block, d: Block)
    requires BlocksOk(h) && i < k <= |h.blocks| && h.blocks[i].used && c.used && !d.used
    requires forall j :: i < j < k ==> !h.blocks[j].used
    ensures UsedSet(Members(h.blocks[..i] + [c, d] + h.blocks[k..]))
      == UsedSet(Members(h.blocks)) - {h.blocks[i]} + {c}
  {
    ReplaceUsed(h, i, k, [c, d]);
    NeighbourUsed(h, i, i, k);
    assert UsedSet(Members([c, d])) == {c};
  }

  /** The used blocks after a resize in place to `n` bytes. */
  lemma RecutUsed(h: Heap, k: nat, n: nat)
    requires BlocksOk(h) && k < |h.blocks| && h.blocks[k].used
    ensures var b := h.blocks[k];
      var cut := b.start + HEADER + n;
      var c := Block(b.start, cut, true);
      && (RightFree(h, k) ==>
            UsedSet(Members(RecutAt(h, k, cut).blocks)) == UsedSet(Members(h.blocks)) - {b} + {c}
            && RecutAt(h, k, cut).blocks[k] == c)
      && UsedSet(Members(CutAt(h, k, cut).blocks)) == UsedSet(Members(h.blocks)) - {b} + {c}
      && CutAt(h, k, cut).blocks[k] == c
  {
    var b := h.blocks[k];
    var cut := b.start + HEADER + n;
    var c := Block(b.start, cut, true);
    if RightFree(h, k) {
      CutUsed(h, k, k + 2, c, Block(cut, h.blocks[k + 1].next, false));
    }
    CutUsed(h, k, k + 1, c, Block(cut, b.next, false));
  }

  /** No free block is large enough, or the strict test of the available size fails. */
  ghost predicate NoneFits(h: Heap, n: nat) {
    || h.available <= n
    || forall j :: 0 <= j < |h.blocks| && !h.blocks[j].used ==> h.blocks[j].next - h.blocks[j].start - HEADER < n
  }

  /**
    The answer is the header of used block `c` of at least `n` bytes; the other used
    blocks are those of before but `gone`.
   */
  ghost predicate Placed(h: Heap, g: Heap, gone: set<Block>, c: Block, r: Option<nat>, n: nat) {
    && c.used && r == Some(c.start) && c.start + HEADER + n <= c.next
    && UsedSet(Members(g.blocks)) == UsedSet(Members(h.blocks)) - gone + {c}
  }

  lemma AllocAnswers(h: Heap, n: nat)
    requires Inv(h) && n % 4 == 0 && MIN_DATA <= n < SIZE_LIMIT
    ensures var (g, r) := DoAlloc(h, n);
      && (r.None? <==> NoneFits(h, n)) && (r.None? ==> g == h)
      && (r.Some? ==> Inv(g) && exists c :: Placed(h, g, {}, c, r, n) && c !in UsedSet(Members(h.blocks)))
  {
    NeedSame(n);
    NullIff(h, n);
    var i := Choice(h, n);
    if i < |h.blocks| {
      ChoiceTakes(h, n);
      AllocAdds(h, i, n);
      DoAllocKeeps(h, n);
      NewBlock(h, i, AllocAt(h, i, n).blocks[i]);
      assert Placed(h, DoAlloc(h, n).0, {}, AllocAt(h, i, n).blocks[i], DoAlloc(h, n).1, n);
    }
  }

  lemma LiveFound(h: Heap, b: Block) returns (k: nat)
    requires BlocksOk(h) && b in UsedSet(Members(h.blocks))
    ensures k < |h.blocks| && h.blocks[k] == b && LiveAt(h, b.start) == k
  {
    k :| 0 <= k < |h.blocks| && h.blocks[k] == b;
    assert Ordered(h.blocks) by { TiledOrdered(h.blocks, 0, h.Tail(), MIN_BLOCK); }
    IndexOfStart(h.blocks, k);
  }

  /** Freeing by the header of a used block takes exactly that block out of the used ones. */
  lemma FreeAnswers(h: Heap, b: Block)
    requires Inv(h) && b in UsedSet(Members(h.blocks))
    ensures UsedSet(Members(DoFree(h, b.start).blocks)) == UsedSet(Members(h.blocks)) - {b}
  {
    var k := LiveFound(h, b);
    FreeRemoves(h, k);
  }

  lemma MoveAnswers(h: Heap, b: Block, n: nat)
    requires Inv(h) && b in UsedSet(Members(h.blocks)) && n % 4 == 0 && MIN_DATA <= n < SIZE_LIMIT
    ensures var (g, r) := DoMove(h, b.start, n);
      && (r.None? <==> NoneFits(h, n)) && (r.None? ==> g == h)
      && (r.Some? ==> exists c :: Placed(h, g, {b}, c, r, n))
  {
    AllocAnswers(h, n);
    var (h1, r) := DoAlloc(h, n);
    if r.Some? {
      var c :| Placed(h, h1, {}, c, r, n) && c !in UsedSet(Members(h.blocks));
      assert b in UsedSet(Members(h1.blocks)) && b != c;
      FreeAnswers(h1, b);
      assert Placed(h, DoFree(h1, b.start), {b}, c, r, n);
    }
  }

  /** The block has room in place: it is large enough, or a free block behind it makes it so. */
  ghost predicate HasRoom(h: Heap, k: nat, n: nat)
    requires k < |h.blocks|
  {
    var b := h.blocks[k];
    || n <= b.next - b.start - HEADER
    || (k + 1 < |h.blocks| && !h.blocks[k + 1].used
        && b.next - b.start - HEADER + (h.blocks[k + 1].next - h.blocks[k + 1].start - HEADER) > n + MIN_DATA)
  }

  /**
    The answer of rt_memheap_realloc for live block `k` where the size test does not
    wrap. The block stays where it is exactly if it has room. Otherwise it moves, and
    nothing is answered exactly if no free block is acceptable; then nothing
    changes. An answer is the header of a used block of at least the requested
    size that takes the place of block `k` among the used ones.
   */
  lemma ReallocAnswers(h: Heap, k: nat, request: nat)
    requires Inv(h) && k < |h.blocks| && h.blocks[k].used && 0 < request < SIZE_LIMIT
    requires !(RightFree(h, k) && Need(request) >= SIZE_LIMIT - MIN_DATA)
    ensures var (g, r), b, n := DoResize(h, k, request), h.blocks[k], Need(request);
      && (r.None? <==> !HasRoom(h, k, n) && NoneFits(h, n)) && (r.None? ==> g == h)
      && (HasRoom(h, k, n) ==> r == Some(b.start))
      && (r.Some? ==> exists c :: Placed(h, g, {b}, c, r, n))
  {
    var b, n := h.blocks[k], Need(request);
    assert b in UsedSet(Members(h.blocks));
    NeedOk(request);
    RoomIff(h, k, n);
    if Moves(h, k, n) {
      MoveAnswers(h, b, n);
    } else {
      InPlaceAnswers(h, k, request);
    }
  }

  lemma RoomIff(h: Heap, k: nat, n: nat)
    requires Inv(h) && Resizable(h, k, n) && !(RightFree(h, k) && n >= SIZE_LIMIT - MIN_DATA)
    ensures Moves(h, k, n) <==> !HasRoom(h, k, n)
  {
    if n > Size(h.blocks[k]) && RightFree(h, k) {
      GrowTestIff(h, k, n);
    }
  }

  lemma InPlaceAnswers(h: Heap, k: nat, request: nat)
    requires Inv(h) && k < |h.blocks| && h.blocks[k].used && 0 < request < SIZE_LIMIT && !Moves(h, k, Need(request))
    requires !(RightFree(h, k) && Need(request) >= SIZE_LIMIT - MIN_DATA)
    ensures var (g, r), b, n := DoResize(h, k, request), h.blocks[k], Need(request);
      r == Some(b.start) && exists c :: Placed(h, g, {b}, c, r, n)
  {
    var b, n := h.blocks[k], Need(request);
    var (g, r) := DoResize(h, k, request);
    NeedOk(request);
    RecutUsed(h, k, n);
    var c := Block(b.start, b.start + HEADER + n, true);
    if n > Size(b) {
      GrowIsRecut(h, k, n);
      assert Placed(h, g, {b}, c, r, n);
    } else if n + HEADER + MIN_DATA < Size(b) {
      assert Placed(h, g, {b}, c, r, n);
    } else {
      assert b in UsedSet(Members(h.blocks));
      assert Placed(h, g, {b}, b, r, n);
    }
  }

  /** The block chosen is the first of the free list that is large enough. */
  lemma {:induction false} ChosenIsFirst(bs: seq<Block>, free: seq<nat>, n: nat)
    requires Ordered(bs) && Choose(bs, free, n) < |bs|
    ensures var k := Choose(bs, free, n);
      exists p :: 0 <= p < |free| && free[p] == bs[k].start && Size(bs[k]) >= n
        && forall q, j :: 0 <= q < p && 0 <= j < |bs| && bs[j].start == free[q] ==> Size(bs[j]) < n
    decreases |free|
  {
    var k, i := Choose(bs, free, n), IndexAt(bs, free[0]);
    if i < |bs| && Size(bs[i]) >= n {
      assert free[0] == bs[k].start;
    } else {
      ChosenIsFirst(bs, free[1..], n);
      var p :| 0 <= p < |free[1..]| && free[1..][p] == bs[k].start && Size(bs[k]) >= n
        && forall q, j :: 0 <= q < p && 0 <= j < |bs| && bs[j].start == free[1..][q] ==> Size(bs[j]) < n;
      assert free[p + 1] == bs[k].start;
      forall q, j | 0 <= q < p + 1 && 0 <= j < |bs| && bs[j].start == free[q] ensures Size(bs[j]) < n {
        if q > 0 {
          assert free[1..][q - 1] == free[q];
        } else {
          IndexOfStart(bs, j);
        }
      }
    }
  }

  lemma IndexOfStart(bs: seq<Block>, j: nat)
    requires Ordered(bs) && j < |bs|
    ensures IndexAt(bs, bs[j].start) == j
  {
  }

  /** A block that was freed beside no free left neighbour is the first that the next search looks at. */
  lemma FreedIsFirst(h: Heap, i: nat, n: nat)
    requires Inv(h) && i < |h.blocks| && h.blocks[i].used && !LeftFree(h, i) && n <= Size(h.blocks[i])
    ensures var g := FreeAt(h, i);
      var k := Choose(g.blocks, g.free, n);
      k < |g.blocks| && g.blocks[k].start == h.blocks[i].start
  {
    var g := FreeAt(h, i);
    assert Ordered(g.blocks) by {
      FreeKeeps(h, i);
      TiledOrdered(g.blocks, 0, g.Tail(), MIN_BLOCK);
    }
    FreedAt(h, i);
    assert g.blocks[i].start == h.blocks[i].start && Size(g.blocks[i]) >= n;
    IndexOfStart(g.blocks, i);
  }

  lemma FreedAt(h: Heap, i: nat)
    requires Inv(h) && i < |h.blocks| && h.blocks[i].used && !LeftFree(h, i)
    ensures var g, b := FreeAt(h, i), h.blocks[i];
      && i < |g.blocks| && g.blocks[i].start == b.start && Size(g.blocks[i]) >= Size(b)
      && g.free != [] && g.free[0] == b.start
  {
    if RightFree(h, i) {
      BlockAt(h, i);
      BlockAt(h, i + 1);
    }
  }

  /** So is what is left of a block that is divided. */
  lemma RestIsFirst(h: Heap, i: nat, n: nat, want: nat)
    requires Inv(h) && CanTake(h, i, n) && Splits(h.blocks[i], n)
    requires want <= h.blocks[i].next - h.blocks[i].start - HEADER - n - HEADER
    ensures var g := AllocAt(h, i, n);
      var k := Choose(g.blocks, g.free, want);
      k < |g.blocks| && g.blocks[k].start == h.blocks[i].start + HEADER + n
  {
    var g, cut := AllocAt(h, i, n), h.blocks[i].start + HEADER + n;
    AllocKeeps(h, i, n);
    TiledOrdered(g.blocks, 0, g.Tail(), MIN_BLOCK);
    assert g.free[0] == cut && g.blocks[i + 1] == Block(cut, h.blocks[i].next, false);
    IndexOfStart(g.blocks, i + 1);
  }

  /** A call with the header of no used block changes nothing; a reallocation to 0 bytes frees. */
  lemma StepAnswers(h: Heap, x: nat)
    requires Inv(h)
    ensures (forall b :: b in UsedSet(Members(h.blocks)) ==> b.start != x) ==>
      Next(h, Free(x)) == h && forall request :: Next(h, Realloc(x, request)) == h
    ensures forall b :: b in UsedSet(Members(h.blocks)) && b.start == x ==>
      && UsedSet(Members(Next(h, Free(x)).blocks)) == UsedSet(Members(h.blocks)) - {b}
      && Next(h, Realloc(x, 0)) == Next(h, Free(x))
  {
    if LiveAt(h, x) < |h.blocks| {
      assert h.blocks[LiveAt(h, x)] in UsedSet(Members(h.blocks));
    }
    forall b | b in UsedSet(Members(h.blocks)) && b.start == x
      ensures UsedSet(Members(DoFree(h, x).blocks)) == UsedSet(Members(h.blocks)) - {b} && LiveAt(h, x) < |h.blocks|
    {
      FreeAnswers(h, b);
      var k := LiveFound(h, b);
    }
  }
}
