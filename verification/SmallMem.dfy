/**
  The small-memory heap as mem.c has it: one array of words that holds headers
  and user data together, the `lfree` hint and the statistics counters. Every
  method is proved to do to the block list what SmallMemSpec says, and to leave
  the user data of every other live block alone.
 */
module SmallMem {
  import opened Wrappers
  import opened BlockList
  import opened SmallMemSpec
  import opened HeapWords
  import opened SmallMemTheorems

  /** mem_size_aligned for a region, or None where rt_system_heap_init refuses it. */
  function InitSize(begin: nat, end: nat): Option<nat>
    requires begin < SIZE_LIMIT && end < SIZE_LIMIT
  {
    var beginAlign := RtAlign(begin);
    var endAlign := end / 4 * 4;
    if endAlign > 2 * HEADER && endAlign - 2 * HEADER >= beginAlign
    then Some(endAlign - beginAlign - 2 * HEADER)
    else None
  }

  /** A region is accepted exactly if, cut to words, it holds two headers, and the rest is for data. */
  lemma InitSizeIff(begin: nat, end: nat)
    requires begin <= 0xFFFF_FFFC && end < SIZE_LIMIT
    ensures var lo, hi := begin + (4 - begin % 4) % 4, end - end % 4;
      && (InitSize(begin, end).Some? <==> hi >= lo + 2 * HEADER && hi > 2 * HEADER)
      && (InitSize(begin, end).Some? ==> InitSize(begin, end).value == hi - lo - 2 * HEADER)
  {
    RtAlignRoundsUp(begin);
    var lo := begin + (4 - begin % 4) % 4;
    assert RtAlign(begin) == lo;
  }

  /** What rt_free does to the heap. */
  ghost function FreeSpec(h: Heap, p: Ptr): Heap {
    if InHeap(h, p) && IndexOf(h, p) < |h.blocks| then Release(h, IndexOf(h, p)) else h
  }

  ghost predicate InHeap(h: Heap, p: Ptr) {
    p.At? && 0 <= p.offset < h.End()
  }

  /** Index of the block whose user data starts at `p`. */
  ghost function IndexOf(h: Heap, p: Ptr): nat
    requires InHeap(h, p)
  {
    if p.offset < HEADER then |h.blocks| else IndexAt(h.blocks, p.offset - HEADER)
  }

  /** `p` is NULL, outside the heap, or a live block: the cases rt_free and rt_realloc accept. */
  ghost predicate FreeOk(h: Heap, p: Ptr) {
    InHeap(h, p) ==> Live(h, IndexOf(h, p))
  }

  /** What rt_realloc does to the heap, and the pointer it returns. */
  ghost function ReallocSpec(h: Heap, p: Ptr, newsize: nat): (Heap, Ptr)
    requires FreeOk(h, p)
  {
    var n := RtAlign(newsize);
    if n > h.size then (h, Null)
    else if n == 0 then (FreeSpec(h, p), Null)
    else if p.Null? then Malloc(h, n)
    else if !InHeap(h, p) then (h, p)
    else ResizeSpec(h, p, n, IndexOf(h, p))
  }

  ghost function ResizeSpec(h: Heap, p: Ptr, n: nat, i: nat): (Heap, Ptr)
    requires i < |h.blocks|
  {
    var data := h.blocks[i].next - h.blocks[i].start - HEADER;
    if data == n then (h, p)
    else if n + HEADER + MIN_DATA < data then (Shrink(h, i, n), p)
    else MoveSpec(h, p, n)
  }

  /** Allocate, then free the old block; or fail and keep it. */
  ghost function MoveSpec(h: Heap, p: Ptr, n: nat): (Heap, Ptr) {
    var (h1, q) := Malloc(h, n);
    if q.Null? then (h, Null) else (FreeSpec(h1, p), q)
  }

  /**
    A NULL from rt_realloc to a non-zero size leaves the heap, and so the old
    block, as it was exactly when rounding the size does not wrap; a wrapped
    size is rounded to 0 and frees the block.
   */
  lemma ReallocNullKeepsIff(h: Heap, p: Ptr, newsize: nat)
    requires Inv(h) && InHeap(h, p) && FreeOk(h, p) && 0 < newsize < SIZE_LIMIT
    requires ReallocSpec(h, p, newsize).1.Null?
    ensures ReallocSpec(h, p, newsize).0 == h <==> newsize <= 0xFFFF_FFFC
  {
    RtAlignRoundsUp(newsize);
    TiledAt(h.blocks, IndexOf(h, p), 0, h.End(), MIN_BLOCK);
  }

  /** Asking for 0xFFFFFFFD bytes instead of 52 frees the block and returns NULL. */
  lemma WrappedReallocFrees()
    ensures var h, p := Exec(64, [MallocStep(52)]), At(HEADER);
      && InHeap(h, p) && FreeOk(h, p) && Live(h, IndexOf(h, p))
      && ReallocSpec(h, p, 0xFFFF_FFFD).1.Null? && ReallocSpec(h, p, 0xFFFF_FFFD).0.blocks == InitHeap(64).blocks
  {
    WholeHeapTaken();
    assert [MallocStep(52)][..0] == [];
    var h := Exec(64, [MallocStep(52)]);
    assert h.blocks == [Block(0, 76, true)];
    RtAlignRoundsUp(0xFFFF_FFFD);
    assert Plug(MarkFree(h, 0), 0) == [Block(0, 76, false)];
  }

  lemma IndexAtStart(h: Heap, i: nat)
    requires Inv(h) && i < |h.blocks|
    ensures IndexAt(h.blocks, h.blocks[i].start) == i
  {
    TiledOrdered(h.blocks, 0, h.End(), MIN_BLOCK);
  }

  /** One block of a tiled list, seen from its own header. */
  lemma BlockInside(bs: seq<Block>, i: nat, end: nat)
    requires i < |bs| && Tiled(bs, 0, end, MIN_BLOCK) && Aligned(Members(bs))
    ensures bs[i].start + MIN_BLOCK <= bs[i].next <= end
    ensures bs[i].next == if i + 1 == |bs| then end else bs[i + 1].start
    ensures bs[i].start % 4 == 0 && bs[i].next % 4 == 0
  {
    TiledAt(bs, i, 0, end, MIN_BLOCK);
    TiledOrdered(bs, 0, end, MIN_BLOCK);
    assert bs[i] in Members(bs);
  }

  ghost function Forward(bs: seq<Block>, i: nat): seq<Block>
    requires i < |bs|
  {
    if i + 1 < |bs| && !bs[i + 1].used
    then bs[..i] + [Block(bs[i].start, bs[i + 1].next, false)] + bs[i + 2..]
    else bs
  }

  ghost function ForwardHint(bs: seq<Block>, i: nat, lfree: nat): nat
    requires i < |bs|
  {
    if i + 1 < |bs| && !bs[i + 1].used && lfree == bs[i + 1].start then bs[i].start else lfree
  }

  ghost function Backward(bs: seq<Block>, i: nat): seq<Block>
    requires i < |bs|
  {
    if i > 0 && !bs[i - 1].used
    then bs[..i - 1] + [Block(bs[i - 1].start, bs[i].next, false)] + bs[i + 1..]
    else bs
  }

  ghost function BackwardHint(bs: seq<Block>, i: nat, lfree: nat): nat
    requires i < |bs|
  {
    if i > 0 && !bs[i - 1].used && lfree == bs[i].start then bs[i - 1].start else lfree
  }

  /** Merging forward and then backward is plugging the hole. */
  lemma PlugInTwo(bs: seq<Block>, i: nat)
    requires i < |bs| && !bs[i].used
    ensures Backward(Forward(bs, i), i) == Plug(bs, i)
  {
    var f := Forward(bs, i);
    assert f[..i] == bs[..i];
    assert i > 0 ==> f[i - 1] == bs[i - 1];
    if i + 1 < |bs| && !bs[i + 1].used {
      assert f[i] == Block(bs[i].start, bs[i + 1].next, false) && f[i + 1..] == bs[i + 2..];
      if i > 0 { assert f[..i - 1] == bs[..i - 1]; }
    }
  }

  lemma PlugHintInTwo(bs: seq<Block>, i: nat, lfree: nat, end: nat)
    requires i < |bs| && !bs[i].used && Tiled(bs, 0, end, MIN_BLOCK) && HintOk(Members(bs), end, lfree)
    ensures i < |Forward(bs, i)|
    ensures BackwardHint(Forward(bs, i), i, ForwardHint(bs, i, lfree)) == PlugHint(bs, i, lfree)
  {
    var f, lo, hi := Forward(bs, i), MergeLo(bs, i), MergeHi(bs, i);
    assert i > 0 ==> f[i - 1] == bs[i - 1];
    assert f[i].start == bs[i].start;
    if bs[lo].start <= lfree < bs[hi - 1].next {
      var k := HintInRun(bs, lo, hi, end, lfree);
      assert k == i - 1 || k == i || k == i + 1;
    }
    RunStarts(bs, lo, hi, end);
  }

  /** The headers of a run lie inside it. */
  lemma RunStarts(bs: seq<Block>, lo: nat, hi: nat, end: nat)
    requires lo < hi <= |bs| && Tiled(bs, 0, end, MIN_BLOCK)
    ensures forall k :: lo <= k < hi ==> bs[lo].start <= bs[k].start < bs[hi - 1].next
    ensures forall j, k :: lo <= j < k < hi ==> bs[j].start < bs[k].start
  {
    TiledOrdered(bs, 0, end, MIN_BLOCK);
  }

  /** A hint inside a run of blocks is one of their headers. */
  lemma HintInRun(bs: seq<Block>, lo: nat, hi: nat, end: nat, lfree: nat) returns (k: nat)
    requires lo < hi <= |bs| && Tiled(bs, 0, end, MIN_BLOCK) && HintOk(Members(bs), end, lfree)
    requires bs[lo].start <= lfree < bs[hi - 1].next
    ensures lo <= k < hi && bs[k].start == lfree
  {
    TiledOrdered(bs, 0, end, MIN_BLOCK);
    var b :| b in Members(bs) && b.start == lfree && !b.used;
    k :| 0 <= k < |bs| && bs[k] == b;
  }

  lemma HintIndex(bs: seq<Block>, end: nat, lfree: nat)
    requires Tiled(bs, 0, end, MIN_BLOCK) && HintOk(Members(bs), end, lfree)
    ensures lfree == if IndexAt(bs, lfree) < |bs| then bs[IndexAt(bs, lfree)].start else end
  {
    if lfree != end {
      var b :| b in Members(bs) && b.start == lfree && !b.used;
      var k :| 0 <= k < |bs| && bs[k] == b;
    }
  }

  class SmallMem {
    const mem: array<nat>          // the words from heap_ptr to the end of heap_end
    const size: nat                // mem_size_aligned
    var lfree: nat
    var usedMem: int
    var maxMem: int
    ghost var blocks: seq<Block>

    ghost function Abs(): Heap
      reads this
    {
      Heap(size, blocks, lfree, usedMem, maxMem)
    }

    /** The headers in memory are the block list. */
    ghost predicate Chained()
      reads this, mem
    {
      && MIN_DATA <= size && size % 4 == 0 && size + 2 * HEADER < SIZE_LIMIT
      && blocks != [] && Tiled(blocks, 0, size + HEADER, MIN_BLOCK) && Aligned(Members(blocks))
      && Linked(mem[..], blocks, 0) && EndAt(mem[..], size + HEADER)
    }

    ghost predicate Valid()
      reads this, mem
    {
      Inv(Abs()) && Chained()
    }

    constructor (begin: nat, end: nat)
      requires begin < SIZE_LIMIT && end < SIZE_LIMIT
      requires InitSize(begin, end).Some? && InitSize(begin, end).value >= MIN_DATA
      ensures Valid() && fresh(mem)
      ensures Abs() == InitHeap(InitSize(begin, end).value)
    {
      var s := InitSize(begin, end).value;
      var m := new nat[s / 4 + 6];
      mem, size := m, s;
      lfree, usedMem, maxMem := 0, 0, 0;
      blocks := [Block(0, s + HEADER, false)];
      new;
      var e := (s + HEADER) / 4;
      mem[0] := FlagWord(false);
      mem[1] := s + HEADER;
      mem[2] := 0;
      mem[e] := FlagWord(true);
      mem[e + 1] := s + HEADER;
      mem[e + 2] := s + HEADER;
      InitInv(s);
      assert blocks[1..] == [];
    }

    /** What plug_holes reads of the successor: where it is, and whether it is free. */
    method PeekForward(ptr: nat, ghost i: nat) returns (nmem: nat, merge: bool)
      requires Chained() && i < |blocks| && blocks[i].start == ptr
      ensures nmem == blocks[i].next && ptr / 4 + 1 < mem.Length
      ensures merge <==> i + 1 < |blocks| && !blocks[i + 1].used
      ensures merge ==>
        blocks[i + 1].start == nmem && nmem / 4 + 1 < mem.Length && mem[nmem / 4 + 1] == blocks[i + 1].next
      ensures merge ==> blocks[i + 1].next / 4 + 2 < mem.Length
    {
      ghost var bs, end := blocks, size + HEADER;
      LinkedAt(mem[..], bs, i, 0);
      BlockInside(bs, i, end);
      nmem := mem[ptr / 4 + 1];
      if i + 1 < |bs| {
        LinkedAt(mem[..], bs, i + 1, 0);
        BlockInside(bs, i + 1, end);
      }
      merge := ptr != nmem && mem[nmem / 4] / 0x1_0000 == 0 && nmem != size + HEADER;
    }

    /** plug_holes, first half: merge with a free successor. */
    method PlugForward(ptr: nat, ghost i: nat)
      requires Chained() && i < |blocks| && blocks[i].start == ptr && !blocks[i].used
      modifies this`lfree, this`blocks, mem
      ensures Chained() && blocks == Forward(old(blocks), i) && lfree == ForwardHint(old(blocks), i, old(lfree))
      ensures forall b :: b in old(blocks) && b.used ==> SameData(old(mem[..]), mem[..], b)
    {
      ghost var w, bs, end := mem[..], blocks, size + HEADER;
      var nmem, merge := PeekForward(ptr, i);
      if merge {
        if lfree == nmem {
          lfree := ptr;
        }
        var after := mem[nmem / 4 + 1];
        mem[ptr / 4 + 1] := after;
        mem[after / 4 + 2] := ptr;
        blocks := Forward(bs, i);
        MergeTwo(w, mem[..], bs, i, end);
      }
    }

    /** What plug_holes reads of the predecessor. */
    method PeekBackward(ptr: nat, ghost i: nat) returns (pmem: nat, merge: bool)
      requires Chained() && i < |blocks| && blocks[i].start == ptr
      ensures ptr / 4 + 1 < mem.Length && mem[ptr / 4 + 1] == blocks[i].next && blocks[i].next / 4 + 2 < mem.Length
      ensures merge <==> i > 0 && !blocks[i - 1].used
      ensures merge ==> pmem == blocks[i - 1].start && pmem / 4 + 1 < mem.Length
    {
      ghost var bs, end := blocks, size + HEADER;
      LinkedAt(mem[..], bs, i, 0);
      BlockInside(bs, i, end);
      pmem := mem[ptr / 4 + 2];
      if i > 0 {
        LinkedAt(mem[..], bs, i - 1, 0);
        BlockInside(bs, i - 1, end);
      } else {
        TiledAt(bs, i, 0, end, MIN_BLOCK);
      }
      merge := pmem != ptr && mem[pmem / 4] / 0x1_0000 == 0;
    }

    /** plug_holes, second half: merge with a free predecessor. */
    method PlugBackward(ptr: nat, ghost i: nat)
      requires Chained() && i < |blocks| && blocks[i].start == ptr && !blocks[i].used
      modifies this`lfree, this`blocks, mem
      ensures Chained() && blocks == Backward(old(blocks), i) && lfree == BackwardHint(old(blocks), i, old(lfree))
      ensures forall b :: b in old(blocks) && b.used ==> SameData(old(mem[..]), mem[..], b)
    {
      ghost var w, bs, end := mem[..], blocks, size + HEADER;
      var pmem, merge := PeekBackward(ptr, i);
      if merge {
        if lfree == ptr {
          lfree := pmem;
        }
        var after := mem[ptr / 4 + 1];
        mem[pmem / 4 + 1] := after;
        mem[after / 4 + 2] := pmem;
        blocks := Backward(bs, i);
        MergeTwo(w, mem[..], bs, i - 1, end);
      }
    }

    method PlugHoles(ptr: nat, ghost i: nat)
      requires Chained() && i < |blocks| && blocks[i].start == ptr && !blocks[i].used
      requires HintOk(Members(blocks), size + HEADER, lfree)
      modifies this`lfree, this`blocks, mem
      ensures Chained() && blocks == Plug(old(blocks), i) && lfree == PlugHint(old(blocks), i, old(lfree))
      ensures forall b :: b in old(blocks) && b.used ==> SameData(old(mem[..]), mem[..], b)
    {
      PlugInTwo(blocks, i);
      PlugHintInTwo(blocks, i, lfree, size + HEADER);
      PlugForward(ptr, i);
      assert forall b :: b in old(blocks) && b.used ==> b in blocks;
      PlugBackward(ptr, i);
    }

    /** The used flag and the `next` field of a header. */
    method Peek(ptr: nat, ghost k: nat) returns (isFree: bool, after: nat)
      requires Chained() && k < |blocks| && blocks[k].start == ptr
      ensures isFree == !blocks[k].used && after == blocks[k].next && ptr < after
      ensures after == if k + 1 < |blocks| then blocks[k + 1].start else size + HEADER
    {
      LinkedAt(mem[..], blocks, k, 0);
      BlockInside(blocks, k, size + HEADER);
      isFree, after := mem[ptr / 4] / 0x1_0000 == 0, mem[ptr / 4 + 1];
    }

    /** The search loop of rt_malloc. */
    method Search(n: nat) returns (found: bool, ptr: nat)
      requires Chained() && HintOk(Members(blocks), size + HEADER, lfree) && MIN_DATA <= n <= size
      ensures var k := SearchFrom(Abs(), IndexAt(blocks, lfree), n);
        found == (k < |blocks|) && (found ==> ptr == blocks[k].start)
    {
      ghost var k := IndexAt(blocks, lfree);
      HintIndex(blocks, size + HEADER, lfree);
      ptr := lfree;
      while ptr < size - n
        invariant k <= |blocks| && ptr == if k < |blocks| then blocks[k].start else size + HEADER
        invariant SearchFrom(Abs(), k, n) == SearchFrom(Abs(), IndexAt(blocks, lfree), n)
        decreases |blocks| - k
      {
        var isFree, after := Peek(ptr, k);
        if isFree && after - (ptr + HEADER) >= n {
          return true, ptr;
        }
        SearchOn(Abs(), k, n);
        ptr, k := after, k + 1;
      }
      return false, 0;
    }

    /** The loop of rt_malloc that moves `lfree` past the block just taken. */
    method AdvanceHint(ghost i: nat)
      requires Chained() && i < |blocks| && lfree == blocks[i].start
      modifies this`lfree
      ensures lfree == NextFree(blocks, size + HEADER, i)
    {
      ghost var k := i;
      TiledAt(blocks, i, 0, size + HEADER, MIN_BLOCK);
      LinkedAt(mem[..], blocks, k, 0);
      while mem[lfree / 4] / 0x1_0000 != 0 && lfree != size + HEADER
        invariant k <= |blocks| && lfree == if k < |blocks| then blocks[k].start else size + HEADER
        invariant k < |blocks| ==> HeaderAt(mem[..], blocks[k], if k == 0 then 0 else blocks[k - 1].start)
        invariant NextFree(blocks, size + HEADER, k) == NextFree(blocks, size + HEADER, i)
        decreases |blocks| - k
      {
        TiledAt(blocks, k, 0, size + HEADER, MIN_BLOCK);
        lfree, k := mem[lfree / 4 + 1], k + 1;
        if k < |blocks| {
          LinkedAt(mem[..], blocks, k, 0);
        }
      }
      if k < |blocks| {
        assert blocks[k].start < size + HEADER by { TiledOrdered(blocks, 0, size + HEADER, MIN_BLOCK); }
      }
    }

    /** The header writes of a split. */
    method WriteCut(ptr: nat, n: nat, next: nat, ghost b: Block)
      requires b.start == ptr && b.next == next && ptr % 4 == 0 && n % 4 == 0
      requires ptr + HEADER + n + MIN_BLOCK <= next && next / 4 + 2 < mem.Length
      modifies mem
      ensures CutWritten(old(mem[..]), mem[..], b, n, size + HEADER)
    {
      var ptr2 := ptr + HEADER + n;
      mem[ptr2 / 4] := FlagWord(false);
      mem[ptr2 / 4 + 1] := next;
      mem[ptr2 / 4 + 2] := ptr;
      mem[ptr / 4 + 1] := ptr2;
      mem[ptr / 4] := FlagWord(true);
      if next != size + HEADER {
        mem[next / 4 + 2] := ptr2;
      }
    }

    /** Cut the block at `ptr` behind `n` bytes: it becomes used, the remainder free. */
    method SplitBlock(ptr: nat, n: nat, ghost i: nat)
      requires Chained() && i < |blocks| && ptr == blocks[i].start && n % 4 == 0 && 0 < n
      requires ptr + HEADER + n + MIN_BLOCK <= blocks[i].next
      modifies this`blocks, mem
      ensures Chained() && blocks == old(blocks)[..i] + Split(old(blocks)[i], n) + old(blocks)[i + 1..]
      ensures forall b :: b in old(blocks) && b != old(blocks)[i] ==> SameData(old(mem[..]), mem[..], b)
      ensures SameData(old(mem[..]), mem[..], Split(old(blocks)[i], n)[0])
    {
      ghost var w, bs := mem[..], blocks;
      LinkedAt(w, bs, i, 0);
      assert bs[i] in Members(bs);
      assert bs[i].next <= size + HEADER by { TiledOrdered(bs, 0, size + HEADER, MIN_BLOCK); }
      var next := mem[ptr / 4 + 1];
      WriteCut(ptr, n, next, bs[i]);
      blocks := bs[..i] + Split(bs[i], n) + bs[i + 1..];
      CutInMemory(w, mem[..], bs, i, n, size + HEADER);
    }

    /** Write the used flag of the block at `ptr`. */
    method SetUsed(ptr: nat, used: bool, ghost i: nat)
      requires Chained() && i < |blocks| && ptr == blocks[i].start
      modifies this`blocks, mem
      ensures Chained() && blocks == old(blocks)[..i] + [old(blocks)[i].(used := used)] + old(blocks)[i + 1..]
      ensures forall b :: b in old(blocks) ==> SameData(old(mem[..]), mem[..], b)
    {
      ghost var w, bs := mem[..], blocks;
      LinkedAt(w, bs, i, 0);
      mem[ptr / 4] := FlagWord(used);
      MarkInMemory(w, mem[..], bs, i, used, size + HEADER);
      blocks := bs[..i] + [bs[i].(used := used)] + bs[i + 1..];
    }

    /** The part of rt_malloc that takes `n` bytes from the free block at `ptr`, up to the hint. */
    method CarveBlock(ptr: nat, n: nat, ghost i: nat)
      requires Chained() && i < |blocks| && ptr == blocks[i].start
      requires Fits(blocks[i], n) && n % 4 == 0 && MIN_DATA <= n
      modifies this`blocks, this`usedMem, this`maxMem, mem
      ensures Chained() && blocks == Allocate(old(Abs()), i, n).blocks
      ensures usedMem == Allocate(old(Abs()), i, n).used && maxMem == Allocate(old(Abs()), i, n).max
      ensures forall b :: b in old(blocks) && b.used ==> SameData(old(mem[..]), mem[..], b)
    {
      LinkedAt(mem[..], blocks, i, 0);
      var next := mem[ptr / 4 + 1];
      if next - (ptr + HEADER) >= n + HEADER + MIN_DATA {
        SplitBlock(ptr, n, i);
        usedMem := usedMem + n + HEADER;
      } else {
        SetUsed(ptr, true, i);
        usedMem := usedMem + next - ptr;
      }
      if maxMem < usedMem {
        maxMem := usedMem;
      }
    }

    /** The part of rt_malloc after the search. */
    method Take(ptr: nat, n: nat, ghost i: nat)
      requires Valid() && i < |blocks| && ptr == blocks[i].start
      requires Fits(blocks[i], n) && n % 4 == 0 && MIN_DATA <= n
      modifies this, mem
      ensures Valid() && Abs() == Allocate(old(Abs()), i, n)
      ensures forall b :: b in old(blocks) && b.used ==> SameData(old(mem[..]), mem[..], b)
    {
      ghost var h := Abs();
      CarveBlock(ptr, n, i);
      assert blocks[i] == Carve(h.blocks[i], n)[0];
      if ptr == lfree {
        AdvanceHint(i);
      }
      AllocateKeepsInv(h, i, n);
    }

    method Malloc(request: nat) returns (p: Ptr)
      requires Valid() && request < SIZE_LIMIT
      modifies this, mem
      ensures Valid() && (Abs(), p) == SmallMemSpec.Malloc(old(Abs()), request)
      ensures forall b :: b in old(blocks) && b.used ==> SameData(old(mem[..]), mem[..], b)
      ensures p.Null? ==> mem[..] == old(mem[..])
    {
      if request == 0 {
        return Null;
      }
      var n := RtAlign(request);
      if n > size {
        return Null;
      }
      if n < MIN_DATA {
        n := MIN_DATA;
      }
      p := MallocSized(n, request);
    }

    /** rt_malloc once the size is rounded. */
    method MallocSized(n: nat, ghost request: nat) returns (p: Ptr)
      requires Valid() && 0 < request < SIZE_LIMIT && n == Need(request) && RtAlign(request) <= size
      modifies this, mem
      ensures Valid() && (Abs(), p) == SmallMemSpec.Malloc(old(Abs()), request)
      ensures forall b :: b in old(blocks) && b.used ==> SameData(old(mem[..]), mem[..], b)
      ensures p.Null? ==> mem[..] == old(mem[..])
    {
      ghost var h, k := Abs(), Choice(Abs(), request);
      ChoiceFits(h, request);
      assert k == SearchFrom(h, IndexAt(blocks, lfree), n);
      var found, ptr := Search(n);
      assert Abs() == h;
      if !found {
        return Null;
      }
      Take(ptr, n, k);
      return At(ptr + HEADER);
    }

    method Free(p: Ptr)
      requires Valid() && FreeOk(Abs(), p)
      modifies this, mem
      ensures Valid() && Abs() == FreeSpec(old(Abs()), p)
      ensures forall b :: b in old(blocks) && b.used && p != At(b.start + HEADER) ==> SameData(old(mem[..]), mem[..], b)
    {
      if p.Null? || p.offset < 0 || p.offset >= size + HEADER {
        return;
      }
      Drop(p.offset - HEADER, IndexOf(Abs(), p));
    }

    /** rt_free up to plug_holes. */
    method Unmark(ptr: nat, ghost i: nat)
      requires Valid() && Live(Abs(), i) && ptr == blocks[i].start
      modifies this, mem
      ensures Chained() && blocks == MarkFree(old(Abs()), i) && maxMem == old(maxMem)
      ensures lfree == (if ptr < old(lfree) then ptr else old(lfree))
      ensures HintOk(Members(blocks), size + HEADER, lfree)
      ensures usedMem == old(usedMem) - (old(blocks)[i].next - ptr)
      ensures forall b :: b in old(blocks) ==> SameData(old(mem[..]), mem[..], b)
    {
      FreeHint(Abs(), i);
      LinkedAt(mem[..], blocks, i, 0);
      var next := mem[ptr / 4 + 1];
      SetUsed(ptr, false, i);
      if ptr < lfree {
        lfree := ptr;
      }
      usedMem := usedMem - (next - ptr);
    }

    /** The part of rt_free after the range check. */
    method Drop(ptr: nat, ghost i: nat)
      requires Valid() && Live(Abs(), i) && ptr == blocks[i].start
      modifies this, mem
      ensures Valid() && Abs() == Release(old(Abs()), i)
      ensures forall b :: b in old(blocks) && b.used && b.start != ptr ==> SameData(old(mem[..]), mem[..], b)
    {
      ghost var h := Abs();
      Unmark(ptr, i);
      assert blocks[i] == h.blocks[i].(used := false);
      assert forall b :: b in h.blocks && b.start != ptr ==> b in blocks;
      PlugHoles(ptr, i);
      ReleaseIs(h, i, blocks, lfree, usedMem);
    }

    /** A user program writes one word of a live block. */
    method Store(offset: nat, v: nat, ghost i: nat)
      requires Valid() && Live(Abs(), i) && offset % 4 == 0
      requires blocks[i].start + HEADER <= offset < blocks[i].next
      modifies mem
      ensures Valid() && offset / 4 < mem.Length && mem[..] == old(mem[..])[offset / 4 := v]
    {
      ghost var w := mem[..];
      DataInside(Abs(), i);
      mem[offset / 4] := v;
      assert mem[..] == w[offset / 4 := v];
      DataWritten(w, mem[..], blocks, i, size + HEADER);
    }

    /** rt_memcpy of `n` bytes between two live blocks, word by word. */
    method CopyWords(dst: nat, src: nat, n: nat, ghost d: nat, ghost s: nat)
      requires Inv(Abs()) && Chained() && CopyOk(Abs(), d, s, dst, src, n)
      modifies mem
      ensures Chained() && Kept(old(mem[..]), mem[..], src, At(dst), n)
      ensures forall b :: b in blocks && b != blocks[d] ==> SameData(old(mem[..]), mem[..], b)
    {
      ghost var w := mem[..];
      CopyApart(Abs(), d, s, dst, src, n);
      CopyRange(mem, dst / 4, src / 4, n / 4);
      DataCopied(w, mem[..], blocks, d, n, size + HEADER);
    }

    /** The split of an in-place shrink, before plug_holes. */
    method CutTail(ptr: nat, n: nat, ghost i: nat)
      requires Chained() && i < |blocks| && ptr == blocks[i].start && CanShrink(blocks[i], n)
      modifies this`usedMem, this`blocks, mem
      ensures Chained() && blocks == CutBlocks(old(Abs()), i, n)
      ensures usedMem == Shrink(old(Abs()), i, n).used
      ensures forall b :: b in old(blocks) && b != old(blocks)[i] ==> SameData(old(mem[..]), mem[..], b)
      ensures SameData(old(mem[..]), mem[..], Split(old(blocks)[i], n)[0])
    {
      LinkedAt(mem[..], blocks, i, 0);
      var data := mem[ptr / 4 + 1] - ptr - HEADER;
      usedMem := usedMem - (data - n);
      SplitBlock(ptr, n, i);
    }

    /** The split and plug_holes of an in-place shrink. */
    method CutAndPlug(ptr: nat, n: nat, ghost i: nat)
      requires Chained() && i < |blocks| && ptr == blocks[i].start && CanShrink(blocks[i], n) && CutReady(Abs(), i, n)
      modifies this`usedMem, this`blocks, this`lfree, mem
      ensures Chained() && Abs() == Shrink(old(Abs()), i, n)
      ensures forall b :: b in old(blocks) && b.used && b.start != ptr ==> SameData(old(mem[..]), mem[..], b)
      ensures SameData(old(mem[..]), mem[..], Split(old(blocks)[i], n)[0])
    {
      ghost var h, w := Abs(), mem[..];
      CutTail(ptr, n, i);
      ghost var w1 := mem[..];
      PlugHoles(ptr + HEADER + n, i + 1);
      CutData(h, i, n, w, w1, mem[..]);
    }

    /** The in-place shrink of rt_realloc. */
    method ShrinkBlock(ptr: nat, n: nat, ghost i: nat)
      requires Valid() && i < |blocks| && ptr == blocks[i].start && CanShrink(blocks[i], n)
      modifies this, mem
      ensures Valid() && Abs() == Shrink(old(Abs()), i, n)
      ensures forall b :: b in old(blocks) && b.used && b.start != ptr ==> SameData(old(mem[..]), mem[..], b)
      ensures SameData(old(mem[..]), mem[..], Split(old(blocks)[i], n)[0])
    {
      ShrinkKeepsInv(Abs(), i, n);
      CutKeeps(Abs(), i, n);
      CutAndPlug(ptr, n, i);
    }

    /** The end of the moving path of rt_realloc: copy to the new block, free the old one. */
    method MoveTo(dst: nat, src: nat, n: nat, ghost d: nat, ghost s: nat)
      requires Valid() && CopyOk(Abs(), d, s, dst, src, n)
      modifies this, mem
      ensures Valid() && Abs() == Release(old(Abs()), s)
      ensures Kept(old(mem[..]), mem[..], src, At(dst), n)
      ensures forall b :: b in old(blocks) && b.used && b != old(blocks)[d] && b.start + HEADER != src
                ==> SameData(old(mem[..]), mem[..], b)
    {
      ghost var w, b := mem[..], blocks[d];
      CopyApart(Abs(), d, s, dst, src, n);
      CopyWords(dst, src, n, d, s);
      ghost var w1 := mem[..];
      Drop(src - HEADER, s);
      KeptTo(w, w1, mem[..], src, b, n);
    }

    /** The moving path of rt_realloc: allocate, copy, free. */
    method Move(p: Ptr, n: nat, data: nat, ghost i: nat) returns (q: Ptr)
      requires Valid() && Live(Abs(), i) && p == At(blocks[i].start + HEADER)
      requires data == blocks[i].next - blocks[i].start - HEADER && SizeOk(n, size)
      modifies this, mem
      ensures Valid() && (Abs(), q) == MoveSpec(old(Abs()), p, n)
      ensures q.Null? ==> mem[..] == old(mem[..])
      ensures q.At? ==> Kept(old(mem[..]), mem[..], p.offset, q, Common(old(blocks)[i], n))
      ensures forall b :: b in old(blocks) && b.used && b.start + HEADER != p.offset ==>
        SameData(old(mem[..]), mem[..], b)
    {
      ghost var h, w := Abs(), mem[..];
      q := Malloc(n);
      if q.At? {
        var len := if data < n then data else n;
        ghost var h1 := Abs();
        MoveReady(h, h1, n, i, q, p, len);
        MoveOldLive(h, n);
        FinishMove(p.offset, q.offset, len, h.blocks, w, Choice(h, n), IndexOf(h1, p));
      }
    }

    /** The moving path once the new block `d` is there; `bs` and `w` are the heap before it was. */
    method FinishMove(src: nat, dst: nat, len: int, ghost bs: seq<Block>, ghost w: seq<nat>, ghost d: nat, ghost s: nat)
      requires Valid() && CopyOk(Abs(), d, s, dst, src, len) && blocks[s] in bs
      requires forall b :: b in bs && b.used ==> SameData(w, mem[..], b) && b in blocks && b != blocks[d]
      modifies this, mem
      ensures Valid() && Abs() == Release(old(Abs()), s)
      ensures Kept(w, mem[..], src, At(dst), len)
      ensures forall b :: b in bs && b.used && b.start + HEADER != src ==> SameData(w, mem[..], b)
    {
      ghost var w1, b := mem[..], blocks[s];
      MoveTo(dst, src, len, d, s);
      KeptFrom(w, w1, mem[..], b, At(dst), len);
    }

    /** The in-place shrink of rt_realloc, with what it keeps. */
    method ShrinkInPlace(p: Ptr, n: nat, ghost i: nat)
      requires Valid() && i < |blocks| && p == At(blocks[i].start + HEADER) && CanShrink(blocks[i], n)
      modifies this, mem
      ensures Valid() && Abs() == Shrink(old(Abs()), i, n)
      ensures Kept(old(mem[..]), mem[..], p.offset, p, n)
      ensures forall b :: b in old(blocks) && b.used && b.start + HEADER != p.offset ==>
        SameData(old(mem[..]), mem[..], b)
    {
      ghost var w, b := mem[..], blocks[i];
      assert b.start % 4 == 0 && b.next <= size + HEADER by {
        DataInside(Abs(), i);
      }
      ShrinkBlock(p.offset - HEADER, n, i);
      ShrunkKept(w, mem[..], b, n, size + HEADER);
    }

    /** The data bytes of the block at `ptr`, from its `next` field. */
    method DataSize(ptr: nat, ghost i: nat) returns (data: int)
      requires Chained() && i < |blocks| && ptr == blocks[i].start
      ensures data == blocks[i].next - blocks[i].start - HEADER
    {
      LinkedAt(mem[..], blocks, i, 0);
      data := mem[ptr / 4 + 1] - ptr - HEADER;
    }

    /** rt_realloc of a live block to a non-zero aligned size. */
    method Resize(p: Ptr, n: nat, ghost i: nat) returns (q: Ptr)
      requires Valid() && Live(Abs(), i) && p == At(blocks[i].start + HEADER) && SizeOk(n, size)
      modifies this, mem
      ensures Valid() && (Abs(), q) == ResizeSpec(old(Abs()), p, n, i)
      ensures q.Null? ==> mem[..] == old(mem[..])
      ensures q.At? ==> Kept(old(mem[..]), mem[..], p.offset, q, Common(old(blocks)[i], n))
      ensures forall b :: b in old(blocks) && b.used && b.start + HEADER != p.offset ==>
        SameData(old(mem[..]), mem[..], b)
    {
      CommonFits(Abs(), i, n);
      var data := DataSize(p.offset - HEADER, i);
      if data == n {
        q := p;
        KeptSelf(mem[..], blocks[i], n, size + HEADER);
      } else if n + HEADER + MIN_DATA < data {
        ShrinkInPlace(p, n, i);
        q := p;
      } else {
        q := Move(p, n, data, i);
      }
    }

    method Realloc(p: Ptr, newsize: nat) returns (q: Ptr)
      requires Valid() && newsize < SIZE_LIMIT && FreeOk(Abs(), p)
      modifies this, mem
      ensures Valid() && (Abs(), q) == ReallocSpec(old(Abs()), p, newsize)
      ensures q.Null? && RtAlign(newsize) != 0 ==> mem[..] == old(mem[..]) && Abs() == old(Abs())
      ensures q.At? && InHeap(old(Abs()), p) ==>
        Kept(old(mem[..]), mem[..], p.offset, q, Common(old(blocks)[IndexOf(old(Abs()), p)], RtAlign(newsize)))
      ensures forall b :: b in old(blocks) && b.used && p != At(b.start + HEADER) ==> SameData(old(mem[..]), mem[..], b)
    {
      var n := RtAlign(newsize);
      RtAlignRoundsUp(newsize);
      if n > size {
        return Null;
      } else if n == 0 {
        Free(p);
        return Null;
      }
      if p.Null? {
        q := Malloc(n);
        return;
      }
      if p.offset < 0 || p.offset >= size + HEADER {
        return p;
      }
      q := Resize(p, n, IndexOf(Abs(), p));
    }
  }

  /** The smaller of the old and the new size: what realloc keeps of block `b`. */
  ghost function Common(b: Block, n: nat): int {
    if b.next - b.start - HEADER < n then b.next - b.start - HEADER else n
  }

  ghost predicate SizeOk(n: nat, size: nat) {
    0 < n <= size && n % 4 == 0
  }

  /** `len` bytes are whole words of block `b`'s data. */
  ghost predicate Inside(b: Block, len: int) {
    0 <= len && b.start % 4 == 0 && len % 4 == 0 && b.start + HEADER + len <= b.next
  }

  lemma CommonFits(h: Heap, i: nat, n: nat)
    requires Inv(h) && i < |h.blocks| && SizeOk(n, h.size)
    ensures Inside(h.blocks[i], Common(h.blocks[i], n)) && h.blocks[i].next <= h.End()
    ensures h.blocks[i].start + MIN_BLOCK <= h.blocks[i].next
  {
    DataInside(h, i);
    WordMultiples(h.blocks[i].start, h.blocks[i].next, n);
  }

  /** The first `len` bytes at `q` are what was at byte offset `from`. */
  ghost predicate Kept(w: seq<nat>, w': seq<nat>, from: int, q: Ptr, len: int) {
    && q.At? && 0 <= from && 0 <= q.offset && 0 <= len
    && from / 4 + len / 4 <= |w| && q.offset / 4 + len / 4 <= |w'|
    && w'[q.offset / 4..q.offset / 4 + len / 4] == w[from / 4..from / 4 + len / 4]
  }

  /** What plug_holes may rely on after the split of a shrink. */
  ghost predicate CutReady(h: Heap, i: nat, n: nat) {
    && i < |h.blocks|
    && var bs, b := CutBlocks(h, i, n), h.blocks[i];
    && HintOk(Members(bs), h.End(), h.lfree)
    && bs[i] == Split(b, n)[0] && bs[i + 1] == Split(b, n)[1]
    && forall c :: c in h.blocks && c.start != b.start ==> c in bs
  }

  lemma CutData(h: Heap, i: nat, n: nat, w: seq<nat>, w1: seq<nat>, w2: seq<nat>)
    requires CutReady(h, i, n) && h.blocks[i].used
    requires forall b :: b in h.blocks && b != h.blocks[i] ==> SameData(w, w1, b)
    requires SameData(w, w1, Split(h.blocks[i], n)[0])
    requires forall b :: b in CutBlocks(h, i, n) && b.used ==> SameData(w1, w2, b)
    ensures forall b :: b in h.blocks && b.used && b.start != h.blocks[i].start ==> SameData(w, w2, b)
    ensures SameData(w, w2, Split(h.blocks[i], n)[0])
  {
    var c := Split(h.blocks[i], n)[0];
    assert c == CutBlocks(h, i, n)[i] && c.used;
  }

  lemma CutKeeps(h: Heap, i: nat, n: nat)
    requires Inv(h) && i < |h.blocks| && CanShrink(h.blocks[i], n)
    ensures CutReady(h, i, n)
  {
    CutMembers(h, i, n);
    assert forall c :: c in h.blocks && c.start != h.blocks[i].start ==> c in Members(CutBlocks(h, i, n));
  }

  lemma KeptSelf(w: seq<nat>, b: Block, len: nat, end: nat)
    requires EndAt(w, end) && Inside(b, len) && b.next <= end
    ensures Kept(w, w, b.start + HEADER, At(b.start + HEADER), len)
  {}

  lemma KeptFrom(w: seq<nat>, w1: seq<nat>, w2: seq<nat>, b: Block, q: Ptr, len: nat)
    requires Kept(w1, w2, b.start + HEADER, q, len) && SameData(w, w1, b) && Inside(b, len)
    ensures Kept(w, w2, b.start + HEADER, q, len)
  {
    var f := (b.start + HEADER) / 4;
    assert w1[f..f + len / 4] == w[f..f + len / 4];
  }

  /** A block cut behind `n` bytes keeps them. */
  lemma ShrunkKept(w: seq<nat>, w': seq<nat>, b: Block, n: nat, end: nat)
    requires CanShrink(b, n) && b.start % 4 == 0 && b.next <= end && EndAt(w', end)
    requires SameData(w, w', Split(b, n)[0])
    ensures Kept(w, w', b.start + HEADER, At(b.start + HEADER), n)
  {
    var x := Split(b, n)[0];
    KeptSelf(w', x, n, end);
    KeptFrom(w, w', w', x, At(x.start + HEADER), n);
  }

  lemma KeptTo(w: seq<nat>, w1: seq<nat>, w2: seq<nat>, from: nat, b: Block, len: nat)
    requires Kept(w, w1, from, At(b.start + HEADER), len) && SameData(w1, w2, b) && Inside(b, len)
    ensures Kept(w, w2, from, At(b.start + HEADER), len)
  {
    var f := (b.start + HEADER) / 4;
    assert w1[f..f + len / 4] == w2[f..f + len / 4];
  }

  /** `n` bytes can be copied from the start of live block `s` to the start of live block `d`. */
  ghost predicate CopyOk(h: Heap, d: nat, s: nat, dst: nat, src: nat, n: int) {
    && Live(h, d) && Live(h, s) && d != s && Inside(h.blocks[d], n) && Inside(h.blocks[s], n)
    && dst == h.blocks[d].start + HEADER && src == h.blocks[s].start + HEADER
  }

  /** The word ranges of a copy are apart and inside the heap. */
  lemma CopyApart(h: Heap, d: nat, s: nat, dst: nat, src: nat, n: nat)
    requires Inv(h) && CopyOk(h, d, s, dst, src, n)
    ensures h.blocks[d].start != h.blocks[s].start
    ensures src / 4 + n / 4 <= dst / 4 || dst / 4 + n / 4 <= src / 4
    ensures dst / 4 + n / 4 <= h.End() / 4 && src / 4 + n / 4 <= h.End() / 4
  {
    assert h.blocks[d].next <= h.blocks[s].start || h.blocks[s].next <= h.blocks[d].start by {
      TiledOrdered(h.blocks, 0, h.End(), MIN_BLOCK);
    }
    DataInside(h, d);
    DataInside(h, s);
  }

  /** After the allocation of rt_realloc the copy from the old block to the new one can run. */
  lemma MoveReady(h: Heap, h1: Heap, n: nat, i: nat, q: Ptr, p: Ptr, len: int)
    requires Inv(h) && Live(h, i) && SizeOk(n, h.size) && (h1, q) == Malloc(h, n) && q.At?
    requires p == At(h.blocks[i].start + HEADER) && len == Common(h.blocks[i], n)
    ensures InHeap(h1, p) && q.offset >= 0 && CopyOk(h1, Choice(h, n), IndexOf(h1, p), q.offset, p.offset, len)
    ensures FreeSpec(h1, p) == Release(h1, IndexOf(h1, p)) && h1.blocks[IndexOf(h1, p)] == h.blocks[i]
  {
    var k := Choice(h, n);
    CommonFits(h, i, n);
    MoveOldIndex(h, n, i);
    MoveNew(h, n);
    MoveOldLive(h, n);
    assert h.blocks[i] in h.blocks;
  }

  /** The block rt_realloc allocates holds the new size. */
  lemma MoveNew(h: Heap, n: nat)
    requires Inv(h) && SizeOk(n, h.size) && Choice(h, n) < |h.blocks|
    ensures var h1, k := Malloc(h, n).0, Choice(h, n);
      Live(h1, k) && h1.blocks[k].start == h.blocks[k].start && Inside(h1.blocks[k], n)
  {
    var k, need := Choice(h, n), Need(n);
    ChoiceFits(h, n);
    DataInside(h, k);
    assert n <= need by { RtAlignRoundsUp(n); }
    assert Allocate(h, k, need).blocks[k] == Carve(h.blocks[k], need)[0];
  }

  /** Live blocks stay live, and are not the new block, when rt_malloc succeeds. */
  lemma MoveOldLive(h: Heap, n: nat)
    requires Inv(h) && n < SIZE_LIMIT && Choice(h, n) < |h.blocks|
    ensures var h1, k := Malloc(h, n).0, Choice(h, n);
      k < |h1.blocks| && forall b :: b in h.blocks && b.used ==> b in h1.blocks && b != h1.blocks[k]
  {
    var k, need := Choice(h, n), Need(n);
    ChoiceFits(h, n);
    AllocateKeepsInv(h, k, need);
    FreshBlock(h, k, need);
    var h1 := Allocate(h, k, need);
    assert h1.blocks[k] == Carve(h.blocks[k], need)[0];
    assert forall b :: b in h.blocks && b.used ==> b in UsedSet(Members(h1.blocks));
  }

  lemma MoveOldIndex(h: Heap, n: nat, i: nat)
    requires Inv(h) && n < SIZE_LIMIT && Choice(h, n) < |h.blocks| && Live(h, i)
    ensures var h1, p := Malloc(h, n).0, At(h.blocks[i].start + HEADER);
      InHeap(h1, p) && Live(h1, IndexOf(h1, p)) && h1.blocks[IndexOf(h1, p)] == h.blocks[i]
  {
    var h1 := Allocate(h, Choice(h, n), Need(n));
    assert Malloc(h, n).0 == h1;
    assert Inv(h1) by {
      ChoiceFits(h, n);
      AllocateKeepsInv(h, Choice(h, n), Need(n));
    }
    MoveOldLive(h, n);
    OldIndex(h1, h.blocks[i]);
  }

  lemma OldIndex(h: Heap, b: Block)
    requires Inv(h) && b in h.blocks && b.used
    ensures var p := At(b.start + HEADER);
      InHeap(h, p) && Live(h, IndexOf(h, p)) && h.blocks[IndexOf(h, p)] == b
  {
    var j :| 0 <= j < |h.blocks| && h.blocks[j] == b;
    IndexAtStart(h, j);
    BlockInside(h.blocks, j, h.End());
  }

  lemma DataInside(h: Heap, d: nat)
    requires Inv(h) && d < |h.blocks|
    ensures h.blocks[d].start % 4 == 0 && h.blocks[d].next % 4 == 0
    ensures h.blocks[d].start + MIN_BLOCK <= h.blocks[d].next <= h.End()
  {
    assert h.blocks[d] in Members(h.blocks);
    TiledAt(h.blocks, d, 0, h.End(), MIN_BLOCK);
    assert h.blocks[d].next <= h.End() by {
      TiledOrdered(h.blocks, 0, h.End(), MIN_BLOCK);
    }
  }

  /** Writes to user data of one block leave every header alone. */
  lemma DataWritten(w: seq<nat>, w': seq<nat>, bs: seq<Block>, i: nat, end: nat)
    requires i < |bs| && Tiled(bs, 0, end, MIN_BLOCK) && Aligned(Members(bs))
    requires Linked(w, bs, 0) && EndAt(w, end) && |w| == |w'|
    requires forall j :: 0 <= j < |w| && !(bs[i].start + HEADER <= 4 * j < bs[i].next) ==> w'[j] == w[j]
    ensures Linked(w', bs, 0) && EndAt(w', end)
  {
    assert bs == bs[..i] + [bs[i]] + bs[i + 1..];
    DataWrittenParts(w, w', bs[..i], bs[i], bs[i + 1..], end);
  }

  lemma DataWrittenParts(w: seq<nat>, w': seq<nat>, pre: seq<Block>, b: Block, post: seq<Block>, end: nat)
    requires Tiled(pre + [b] + post, 0, end, MIN_BLOCK) && Aligned(Members(pre + [b] + post))
    requires Linked(w, pre + [b] + post, 0) && EndAt(w, end) && |w| == |w'|
    requires forall j :: 0 <= j < |w| && !(b.start + HEADER <= 4 * j < b.next) ==> w'[j] == w[j]
    ensures Linked(w', pre + [b] + post, 0) && EndAt(w', end)
  {
    SpliceParts(pre, [b], post, end);
    LinkedConcat(w, pre + [b], post, 0);
    LinkedConcat(w, pre, [b], 0);
    assert [b][1..] == [] && HeaderAt(w', b, LastStart(pre, 0));
    Splice(w, w', pre, [b], [b], post, end);
  }

  /** A copy into the data of block `d` is a write to its user data. */
  lemma DataCopied(w: seq<nat>, w': seq<nat>, bs: seq<Block>, d: nat, n: nat, end: nat)
    requires d < |bs| && Tiled(bs, 0, end, MIN_BLOCK) && Aligned(Members(bs)) && Inside(bs[d], n)
    requires Linked(w, bs, 0) && EndAt(w, end) && |w| == |w'|
    requires var to := (bs[d].start + HEADER) / 4;
      forall j :: 0 <= j < |w| && !(to <= j < to + n / 4) ==> w'[j] == w[j]
    ensures Linked(w', bs, 0) && EndAt(w', end)
    ensures forall b :: b in bs && b != bs[d] ==> SameData(w, w', b)
  {
    var to := (bs[d].start + HEADER) / 4;
    assert forall j :: 0 <= j < |w| && !(bs[d].start + HEADER <= 4 * j < bs[d].next) ==> !(to <= j < to + n / 4);
    DataWritten(w, w', bs, d, end);
    AroundSameData(w, w', bs, d, end);
  }

  method CopyRange(mem: array<nat>, to: nat, from: nat, len: nat)
    requires to + len <= mem.Length && from + len <= mem.Length && (from + len <= to || to + len <= from)
    modifies mem
    ensures mem[to..to + len] == old(mem[from..from + len])
    ensures forall j :: 0 <= j < mem.Length && !(to <= j < to + len) ==> mem[j] == old(mem[j])
  {
    var k := 0;
    while k < len
      invariant k <= len
      invariant mem[to..to + k] == old(mem[from..from + k])
      invariant forall j :: 0 <= j < mem.Length && !(to <= j < to + k) ==> mem[j] == old(mem[j])
    {
      mem[to + k] := mem[from + k];
      k := k + 1;
    }
  }

  /** The hint is right again before plug_holes runs in rt_free. */
  lemma FreeHint(h: Heap, i: nat)
    requires Inv(h) && Live(h, i)
    ensures var b := h.blocks[i];
      HintOk(Members(MarkFree(h, i)), h.End(), if b.start < h.lfree then b.start else h.lfree)
  {
    MarkedFree(h, i);
    MarkedFreeMembers(h, i);
    MarkedFreeSets(Members(h.blocks), h.blocks[i], h.End(), h.lfree);
  }

  lemma ReleaseIs(h: Heap, i: nat, bs: seq<Block>, lfree: nat, used: int)
    requires Inv(h) && Live(h, i) && bs == Plug(MarkFree(h, i), i)
    requires lfree == PlugHint(MarkFree(h, i), i, if h.blocks[i].start < h.lfree then h.blocks[i].start else h.lfree)
    requires used == h.used - (h.blocks[i].next - h.blocks[i].start)
    ensures Heap(h.size, bs, lfree, used, h.max) == Release(h, i) && Inv(Release(h, i))
  {
    ReleaseKeepsInv(h, i);
  }

  /** A block that does not fit is passed over. */
  lemma SearchOn(h: Heap, k: nat, n: nat)
    requires k < |h.blocks| && h.blocks[k].start < h.size - n && !Fits(h.blocks[k], n)
    ensures SearchFrom(h, k, n) == SearchFrom(h, k + 1, n)
  {
  }

  /** Two neighbours that are both free become one block in memory. */
  lemma MergeTwo(w: seq<nat>, w': seq<nat>, bs: seq<Block>, i: nat, end: nat)
    requires i + 1 < |bs| && !bs[i].used && !bs[i + 1].used
    requires Tiled(bs, 0, end, MIN_BLOCK) && Aligned(Members(bs))
    requires Linked(w, bs, 0) && EndAt(w, end) && bs[i].start / 4 + 1 < |w|
    requires bs[i + 1].next / 4 + 2 < |w|
    requires w' == w[bs[i].start / 4 + 1 := bs[i + 1].next][bs[i + 1].next / 4 + 2 := bs[i].start]
    ensures var r := bs[..i] + [Block(bs[i].start, bs[i + 1].next, false)] + bs[i + 2..];
      Tiled(r, 0, end, MIN_BLOCK) && Aligned(Members(r)) && Linked(w', r, 0) && EndAt(w', end)
    ensures forall b :: b in bs && b.used ==> SameData(w, w', b)
  {
    var pre, cut, post := bs[..i], [bs[i], bs[i + 1]], bs[i + 2..];
    var m := Block(bs[i].start, bs[i + 1].next, false);
    assert bs == pre + cut + post;
    TiledAt(bs, i, 0, end, MIN_BLOCK);
    TiledAt(bs, i + 1, 0, end, MIN_BLOCK);
    LinkedAt(w, bs, i, 0);
    assert bs[i] in Members(bs) && bs[i + 1] in Members(bs);
    assert SameOutside(w, w', m.start, m.next);
    assert Linked(w', [m], LastStart(pre, 0)) by {
      assert [m][1..] == [] && HeaderAt(w', m, LastStart(pre, 0));
    }
    ReplaceTiled(pre, cut, [m], post, 0, end, MIN_BLOCK);
    Splice(w, w', pre, cut, [m], post, end);
    assert Aligned(Members(pre + [m] + post));
    forall b | b in bs && b.used
      ensures SameData(w, w', b)
    {
      assert b in pre || b in post;
      SpliceSameData(w, w', pre, cut, post, end, b);
    }
  }

  /** Words written inside block `i`, or in the `prev` word behind it, are no other block's data. */
  lemma AroundSameData(w: seq<nat>, w': seq<nat>, bs: seq<Block>, i: nat, end: nat)
    requires i < |bs| && Tiled(bs, 0, end, MIN_BLOCK) && Aligned(Members(bs))
    requires SameOutside(w, w', bs[i].start, bs[i].next)
    ensures forall c :: c in bs && c != bs[i] ==> SameData(w, w', c)
  {
    var pre, b, post := bs[..i], bs[i], bs[i + 1..];
    assert bs == pre + [b] + post;
    forall c | c in bs && c != b
      ensures SameData(w, w', c)
    {
      assert c in pre || c in post;
      SpliceSameData(w, w', pre, [b], post, end, c);
    }
  }

  /** Writing the used flag of one header. */
  lemma MarkInMemory(w: seq<nat>, w': seq<nat>, bs: seq<Block>, i: nat, used: bool, end: nat)
    requires i < |bs| && Tiled(bs, 0, end, MIN_BLOCK) && Aligned(Members(bs))
    requires Linked(w, bs, 0) && EndAt(w, end) && bs[i].start / 4 < |w|
    requires w' == w[bs[i].start / 4 := FlagWord(used)]
    ensures var r := bs[..i] + [bs[i].(used := used)] + bs[i + 1..];
      Tiled(r, 0, end, MIN_BLOCK) && Aligned(Members(r)) && Linked(w', r, 0) && EndAt(w', end)
    ensures forall b :: b in bs ==> SameData(w, w', b)
  {
    var pre, b, post := bs[..i], bs[i], bs[i + 1..];
    assert bs == pre + [b] + post;
    LinkedAt(w, bs, i, 0);
    BlockInside(bs, i, end);
    assert SameOutside(w, w', b.start, b.next) && SameData(w, w', b);
    AroundSameData(w, w', bs, i, end);
    MarkTiled(pre, b, post, used, end);
    if post != [] {
      LinkedAt(w, bs, i + 1, 0);
    }
    MarkLinked(w, w', pre, b, post, used, end, if i == 0 then 0 else bs[i - 1].start);
  }

  lemma MarkTiled(pre: seq<Block>, b: Block, post: seq<Block>, used: bool, end: nat)
    requires Tiled(pre + [b] + post, 0, end, MIN_BLOCK) && Aligned(Members(pre + [b] + post))
    ensures var r := pre + [b.(used := used)] + post; Tiled(r, 0, end, MIN_BLOCK) && Aligned(Members(r))
  {
    var m := b.(used := used);
    TiledAt(pre + [b] + post, |pre|, 0, end, MIN_BLOCK);
    assert (pre + [b] + post)[|pre|] == b && b in Members(pre + [b] + post) && [m][1..] == [];
    ReplaceTiled(pre, [b], [m], post, 0, end, MIN_BLOCK);
    ReplaceMembers(pre, [b], [m], post, 0, end, MIN_BLOCK);
  }

  lemma MarkLinked(w: seq<nat>, w': seq<nat>, pre: seq<Block>, b: Block, post: seq<Block>, used: bool, end: nat, p: nat)
    requires Tiled(pre + [b] + post, 0, end, MIN_BLOCK) && Aligned(Members(pre + [b] + post))
    requires Linked(w, pre + [b] + post, 0) && EndAt(w, end) && HeaderAt(w, b, p) && p == LastStart(pre, 0)
    requires w' == w[b.start / 4 := FlagWord(used)] && SameOutside(w, w', b.start, b.next)
    requires post != [] ==> var e := b.next / 4 + 2; e < |w'| && w'[e] == b.start
    ensures Linked(w', pre + [b.(used := used)] + post, 0) && EndAt(w', end)
  {
    var m := b.(used := used);
    assert Linked(w', [m], LastStart(pre, 0)) by {
      assert [m][1..] == [] && HeaderAt(w', m, p);
    }
    Splice(w, w', pre, [b], [m], post, end);
  }

  /** What SplitBlock writes. */
  ghost predicate CutWritten(w: seq<nat>, w': seq<nat>, b: Block, n: nat, end: nat) {
    var ptr2 := b.start + HEADER + n;
    && b.next / 4 + 2 < |w| && |w| == |w'| && ptr2 + MIN_BLOCK <= b.next
    && w'[b.start / 4] == FlagWord(true) && w'[b.start / 4 + 1] == ptr2
    && w'[ptr2 / 4] == FlagWord(false) && w'[ptr2 / 4 + 1] == b.next && w'[ptr2 / 4 + 2] == b.start
    && (b.next != end ==> w'[b.next / 4 + 2] == ptr2)
    && forall j :: 0 <= j < |w| && !(b.start / 4 <= j <= b.start / 4 + 1 || ptr2 / 4 <= j <= ptr2 / 4 + 2
                                    || j == b.next / 4 + 2)
         ==> w'[j] == w[j]
  }

  lemma CutInMemory(w: seq<nat>, w': seq<nat>, bs: seq<Block>, i: nat, n: nat, end: nat)
    requires i < |bs| && Tiled(bs, 0, end, MIN_BLOCK) && Aligned(Members(bs))
    requires Linked(w, bs, 0) && EndAt(w, end) && n % 4 == 0 && 0 < n
    requires CutWritten(w, w', bs[i], n, end)
    ensures var r := bs[..i] + Split(bs[i], n) + bs[i + 1..];
      Tiled(r, 0, end, MIN_BLOCK) && Aligned(Members(r)) && Linked(w', r, 0) && EndAt(w', end)
    ensures forall b :: b in bs && b != bs[i] ==> SameData(w, w', b)
    ensures SameData(w, w', Split(bs[i], n)[0])
  {
    assert bs == bs[..i] + [bs[i]] + bs[i + 1..];
    assert bs[i] in Members(bs);
    CutSame(w, w', bs[i], n, end);
    AroundSameData(w, w', bs, i, end);
    CutParts(w, w', bs[..i], bs[i], bs[i + 1..], n, end);
  }

  lemma CutSame(w: seq<nat>, w': seq<nat>, b: Block, n: nat, end: nat)
    requires CutWritten(w, w', b, n, end) && b.start % 4 == 0 && b.next % 4 == 0 && n % 4 == 0
    ensures SameOutside(w, w', b.start, b.next) && SameData(w, w', Split(b, n)[0])
  {}

  lemma CutParts(w: seq<nat>, w': seq<nat>, pre: seq<Block>, b: Block, post: seq<Block>, n: nat, end: nat)
    requires Tiled(pre + [b] + post, 0, end, MIN_BLOCK) && Aligned(Members(pre + [b] + post))
    requires Linked(w, pre + [b] + post, 0) && EndAt(w, end) && n % 4 == 0 && 0 < n
    requires CutWritten(w, w', b, n, end) && SameOutside(w, w', b.start, b.next)
    ensures var r := pre + Split(b, n) + post;
      Tiled(r, 0, end, MIN_BLOCK) && Aligned(Members(r)) && Linked(w', r, 0) && EndAt(w', end)
  {
    var mid := Split(b, n);
    SpliceParts(pre, [b], post, end);
    assert Linked(w', mid, LastStart(pre, 0)) by {
      LinkedConcat(w, pre + [b], post, 0);
      LinkedConcat(w, pre, [b], 0);
      CutHeaders(w, w', b, n, end, LastStart(pre, 0));
    }
    CutTiled(pre, b, post, n, end);
    Splice(w, w', pre, [b], mid, post, end);
  }

  lemma CutTiled(pre: seq<Block>, b: Block, post: seq<Block>, n: nat, end: nat)
    requires Tiled(pre + [b] + post, 0, end, MIN_BLOCK) && Aligned(Members(pre + [b] + post))
    requires n % 4 == 0 && 0 < n && b.start + HEADER + n + MIN_BLOCK <= b.next
    ensures var r := pre + Split(b, n) + post; Tiled(r, 0, end, MIN_BLOCK) && Aligned(Members(r))
  {
    var bs, mid := pre + [b] + post, Split(b, n);
    assert bs[|pre|] == b && b in Members(bs) && mid[1..] == [mid[1]];
    ReplaceTiled(pre, [b], mid, post, 0, end, MIN_BLOCK);
    WordMultiples(b.start, b.next, n);
    forall c | c in pre + mid + post ensures c in Members(bs) || c == mid[0] || c == mid[1] {
      if c in pre + post {
        assert c in bs;
      }
    }
  }

  lemma CutHeaders(w: seq<nat>, w': seq<nat>, b: Block, n: nat, end: nat, p: nat)
    requires CutWritten(w, w', b, n, end) && HeaderAt(w, b, p) && b.start % 4 == 0 && n % 4 == 0
    ensures Linked(w', Split(b, n), p)
  {
    var mid := Split(b, n);
    assert mid[1..] == [mid[1]] && mid[1..][1..] == [];
    assert HeaderAt(w', mid[0], p) && HeaderAt(w', mid[1], b.start);
  }
}
