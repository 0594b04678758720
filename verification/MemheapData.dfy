/**
  The data bytes of memheap blocks. An allocation, a release or a resize in place
  writes to headers only: those of the blocks before it and after it, and the
  tail. So it leaves the data of all live blocks alone, and a reallocation keeps
  the bytes that the old and the new size have in common.
 */
module MemheapData {
  import opened Wrappers
  import opened BlockList
  import opened MemheapSpec
  import opened MemheapTheorems
  import opened WordCopy

  /** Word `j` is part of a header, or of the tail. */
  ghost predicate Header(h: Heap, j: int) {
    4 * j >= h.Tail() || exists b :: b in h.blocks && b.start <= 4 * j < b.start + HEADER
  }

  /** From memory `w` to `v`, only headers of `h` and of `g` are written. */
  ghost predicate HeadersOnly(w: seq<nat>, v: seq<nat>, h: Heap, g: Heap) {
    |v| == |w| && forall j :: 0 <= j < |w| && !Header(h, j) && !Header(g, j) ==> v[j] == w[j]
  }

  ghost predicate SameBytes(w: seq<nat>, v: seq<nat>, lo: int, hi: int) {
    |v| == |w| && forall j :: 0 <= j < |w| && lo <= 4 * j < hi ==> v[j] == w[j]
  }

  lemma DataNoHeader(h: Heap, i: nat, j: int)
    requires BlocksOk(h) && i < |h.blocks| && h.blocks[i].start + HEADER <= 4 * j < h.blocks[i].next
    ensures !Header(h, j)
  {
    TiledOrdered(h.blocks, 0, h.Tail(), MIN_BLOCK);
    forall b | b in h.blocks ensures !(b.start <= 4 * j < b.start + HEADER) {
      var k :| 0 <= k < |h.blocks| && h.blocks[k] == b;
      TiledAt(h.blocks, k, 0, h.Tail(), MIN_BLOCK);
    }
  }

  /** A block that is there before and after, perhaps with another end, keeps the bytes it has in both. */
  lemma DataStays(h: Heap, g: Heap, w: seq<nat>, v: seq<nat>, i: nat, k: nat, hi: int)
    requires BlocksOk(h) && BlocksOk(g) && HeadersOnly(w, v, h, g)
    requires i < |h.blocks| && k < |g.blocks| && h.blocks[i].start == g.blocks[k].start
    requires hi <= h.blocks[i].next && hi <= g.blocks[k].next
    ensures SameBytes(w, v, h.blocks[i].start + HEADER, hi)
  {
    var lo := h.blocks[i].start + HEADER;
    forall j | 0 <= j < |w| && lo <= 4 * j < hi ensures v[j] == w[j] {
      DataNoHeader(h, i, j);
      DataNoHeader(g, k, j);
    }
  }

  /** The same live block, with the same bytes. */
  ghost predicate Leaves(w: seq<nat>, v: seq<nat>, g: Heap, b: Block) {
    b in g.blocks && SameBytes(w, v, b.start + HEADER, b.next)
  }

  lemma BlockStays(h: Heap, g: Heap, w: seq<nat>, v: seq<nat>, b: Block)
    requires BlocksOk(h) && BlocksOk(g) && HeadersOnly(w, v, h, g) && b in h.blocks && b in g.blocks
    ensures Leaves(w, v, g, b)
  {
    var i :| 0 <= i < |h.blocks| && h.blocks[i] == b;
    var k :| 0 <= k < |g.blocks| && g.blocks[k] == b;
    DataStays(h, g, w, v, i, k, b.next);
  }

  /** Used blocks that the step is not about are left. */
  lemma OthersStay(h: Heap, g: Heap, w: seq<nat>, v: seq<nat>, own: set<Block>, come: set<Block>)
    requires BlocksOk(h) && BlocksOk(g) && HeadersOnly(w, v, h, g)
    requires UsedSet(Members(g.blocks)) == UsedSet(Members(h.blocks)) - own + come
    ensures forall b :: b in h.blocks && b.used && b !in own ==> Leaves(w, v, g, b)
  {
    forall b | b in h.blocks && b.used && b !in own ensures Leaves(w, v, g, b) {
      assert b in UsedSet(Members(h.blocks));
      assert b in UsedSet(Members(g.blocks));
      BlockStays(h, g, w, v, b);
    }
  }

  // --------------------------------------------------------------------- the operations

  lemma AllocKeepsData(h: Heap, request: nat, w: seq<nat>, v: seq<nat>)
    requires Inv(h) && request < SIZE_LIMIT && HeadersOnly(w, v, h, DoAlloc(h, request).0)
    ensures forall b :: b in h.blocks && b.used ==> Leaves(w, v, DoAlloc(h, request).0, b)
  {
    var g, i := DoAlloc(h, request).0, Choice(h, request);
    DoAllocKeeps(h, request);
    if i < |h.blocks| {
      ChoiceTakes(h, request);
      AllocAdds(h, i, Need(request));
      OthersStay(h, g, w, v, {}, {g.blocks[i]});
    } else {
      OthersStay(h, g, w, v, {}, {});
    }
  }

  lemma FreeKeepsData(h: Heap, i: nat, w: seq<nat>, v: seq<nat>)
    requires Inv(h) && i < |h.blocks| && h.blocks[i].used && HeadersOnly(w, v, h, FreeAt(h, i))
    ensures forall b :: b in h.blocks && b.used && b != h.blocks[i] ==> Leaves(w, v, FreeAt(h, i), b)
  {
    FreeKeeps(h, i);
    FreeRemoves(h, i);
    OthersStay(h, FreeAt(h, i), w, v, {h.blocks[i]}, {});
  }

  /** The block keeps its first `len` bytes, and all other live blocks theirs. */
  ghost predicate Keeps(h: Heap, k: nat, g: Heap, w: seq<nat>, v: seq<nat>, len: int)
    requires k < |h.blocks|
  {
    && SameBytes(w, v, h.blocks[k].start + HEADER, h.blocks[k].start + HEADER + len)
    && forall b :: b in h.blocks && b.used && b != h.blocks[k] ==> Leaves(w, v, g, b)
  }

  lemma RecutKeepsData(h: Heap, k: nat, g: Heap, n: nat, w: seq<nat>, v: seq<nat>)
    requires Inv(h) && BlocksOk(g) && k < |h.blocks| && h.blocks[k].used && HeadersOnly(w, v, h, g)
    requires k < |g.blocks| && g.blocks[k] == Block(h.blocks[k].start, h.blocks[k].start + HEADER + n, true)
    requires UsedSet(Members(g.blocks)) == UsedSet(Members(h.blocks)) - {h.blocks[k]} + {g.blocks[k]}
    ensures Keeps(h, k, g, w, v, if n < Size(h.blocks[k]) then n else Size(h.blocks[k]))
  {
    var b := h.blocks[k];
    DataStays(h, g, w, v, k, k, b.start + HEADER + if n < Size(b) then n else Size(b));
    OthersStay(h, g, w, v, {h.blocks[k]}, {g.blocks[k]});
  }

  /** rt_memheap_realloc in place: what the old and the new size have in common is kept. */
  lemma ResizeKeepsData(h: Heap, k: nat, request: nat, w: seq<nat>, v: seq<nat>)
    requires Inv(h) && k < |h.blocks| && h.blocks[k].used && request < SIZE_LIMIT && !Moves(h, k, Need(request))
    requires !(RightFree(h, k) && Need(request) >= SIZE_LIMIT - MIN_DATA)
    requires HeadersOnly(w, v, h, DoResize(h, k, request).0)
    ensures var n := Need(request);
      Keeps(h, k, DoResize(h, k, request).0, w, v, if n < Size(h.blocks[k]) then n else Size(h.blocks[k]))
  {
    var g, b, n := DoResize(h, k, request).0, h.blocks[k], Need(request);
    NeedOk(request);
    ResizeKeepsIff(h, k, request);
    RecutUsed(h, k, n);
    if n > Size(b) {
      GrowIsRecut(h, k, n);
      RecutKeepsData(h, k, g, n, w, v);
    } else if n + HEADER + MIN_DATA < Size(b) {
      RecutKeepsData(h, k, g, n, w, v);
    } else {
      DataStays(h, h, w, v, k, k, b.start + HEADER + if n < Size(b) then n else Size(b));
      OthersStay(h, h, w, v, {}, {});
    }
  }

  // --------------------------------------------------------------------- a shared move

  ghost function DataAt(b: Block): nat {
    (b.start + HEADER) / 4
  }

  lemma SameWords(w: seq<nat>, v: seq<nat>, b: Block, len: nat)
    requires SameBytes(w, v, b.start + HEADER, b.next) && b.start % 4 == 0
    requires b.start + HEADER + len <= b.next <= 4 * |w|
    ensures Same(w, v, DataAt(b), len / 4)
  {
    var at, n := DataAt(b), len / 4;
    assert 4 * at == b.start + HEADER && 4 * (at + n) <= b.next;
    assert forall j :: at <= j < at + n ==> v[j] == w[j];
  }

  /**
    rt_memheap_realloc that moves block `k`: memory `w` becomes `u` by the
    allocation; then all bytes of the old block are copied, with other threads at
    work in between; at last, in memory `v`, the old block has been freed. The new
    block then begins with the bytes that the old one had.
   */
  lemma MoveKeepsBytes(h: Heap, k: nat, n: nat, len: nat, w: seq<nat>, u: seq<nat>, events: seq<Event>, v: seq<nat>)
    requires Inv(h) && Resizable(h, k, n) && n > Size(h.blocks[k]) == len
    requires 4 * |w| == h.pool && DoAlloc(h, n).1.Some? && HeadersOnly(w, u, h, DoAlloc(h, n).0)
    ensures var b, g, i := h.blocks[k], DoAlloc(h, n).0, Choice(h, n);
      && i < |g.blocks|
      && var job := Job(DataAt(g.blocks[i]), DataAt(b), len / 4);
      JobOk(w, job) && (Finished(u, job, events, v) ==> Arrived(w, job, v))
  {
    var b, g, i := h.blocks[k], DoAlloc(h, n).0, Choice(h, n);
    MoveBlocks(h, k, n);
    AllocKeepsData(h, n, w, u);
    SameWords(w, u, b, len);
    FinishedCopies(w, u, Job(DataAt(g.blocks[i]), DataAt(b), len / 4), events, v);
  }

  /** The new block is large enough, and apart from the old one. */
  lemma MoveBlocks(h: Heap, k: nat, n: nat)
    requires Inv(h) && Resizable(h, k, n) && n > Size(h.blocks[k])
    requires DoAlloc(h, n).1.Some?
    ensures var b, g, i := h.blocks[k], DoAlloc(h, n).0, Choice(h, n);
      && i < |g.blocks| && b.start % 4 == 0 && b.start + MIN_BLOCK <= b.next <= h.Tail()
      && var d := g.blocks[i];
      && d.start % 4 == 0 && d.start + HEADER + n <= d.next <= h.Tail()
      && (b.next <= d.start || d.next <= b.start)
  {
    var i := Choice(h, n);
    NeedSame(n);
    ChoiceTakes(h, n);
    AllocAdds(h, i, n);
    BlockAt(h, k);
    BlockAt(h, i);
    TiledOrdered(h.blocks, 0, h.Tail(), MIN_BLOCK);
  }
}
