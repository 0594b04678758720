/**
  The memheap allocator in its own form: blocks linked both ways in a ring that
  ends in a used tail block, a list of free blocks, and two counters, all updated
  in place. Every operation is proved to do to the block list what
  `MemheapTheorems` says.
 */
module Memheap {
  import opened Wrappers
  import opened BlockList
  import opened MemheapSpec
  import opened MemheapTheorems
  import L = NodeList

  // ------------------------------------------------------------------------- links

  /** The header fields `next`, `prev` and the used bit agree with the blocks, and the ring closes at the tail. */
  ghost predicate Links(s: set<Block>, next: map<nat, nat>, prev: map<nat, nat>, used: set<nat>, tail: nat) {
    && (forall b :: b in s ==> Linked(b, next, prev, used))
    && tail in used && tail in next && next[tail] == 0 && 0 in prev && prev[0] == tail
  }

  ghost predicate Linked(b: Block, next: map<nat, nat>, prev: map<nat, nat>, used: set<nat>) {
    && b.start in next && next[b.start] == b.next && b.next in prev && prev[b.next] == b.start
    && (b.used <==> b.start in used)
  }

  /** Blocks are non-empty, apart from each other, and end at the tail at the latest. */
  ghost predicate Apart(s: set<Block>, tail: nat) {
    && (forall b :: b in s ==> b.start < b.next <= tail)
    && (forall b, c :: b in s && c in s && b != c ==> b.next <= c.start || c.next <= b.start)
  }

  lemma BlocksApart(h: Heap)
    requires BlocksOk(h)
    ensures Apart(Members(h.blocks), h.Tail())
  {
    TiledOrdered(h.blocks, 0, h.Tail(), MIN_BLOCK);
    forall b, c | b in Members(h.blocks) && c in Members(h.blocks) && b != c
      ensures b.next <= c.start || c.next <= b.start
    {
      var x :| 0 <= x < |h.blocks| && h.blocks[x] == b;
      var y :| 0 <= y < |h.blocks| && h.blocks[y] == c;
      assert x < y || y < x;
    }
  }

  /** Block `b` is divided at `cut`: the first part used, the second free. */
  ghost function Cut(s: set<Block>, b: Block, cut: nat): set<Block> {
    s - {b} + {Block(b.start, cut, true), Block(cut, b.next, false)}
  }

  lemma CutLinks(s: set<Block>, next: map<nat, nat>, prev: map<nat, nat>, used: set<nat>, tail: nat, b: Block, cut: nat)
    requires Links(s, next, prev, used, tail) && Apart(s, tail) && b in s && b.start < cut < b.next
    ensures Links(Cut(s, b, cut), next[cut := b.next][b.start := cut], prev[cut := b.start][b.next := cut],
                  used - {cut} + {b.start}, tail)
    ensures Apart(Cut(s, b, cut), tail)
  {
    forall c | c in s && c != b
      ensures Linked(c, next[cut := b.next][b.start := cut], prev[cut := b.start][b.next := cut],
                     used - {cut} + {b.start})
    {
      assert Linked(c, next, prev, used);
    }
  }

  /** Neighbours `b` and `c` become one block with the used bit of `b`. */
  ghost function Merge(s: set<Block>, b: Block, c: Block): set<Block> {
    s - {b, c} + {Block(b.start, c.next, b.used)}
  }

  lemma MergeLinks(s: set<Block>, next: map<nat, nat>, prev: map<nat, nat>, used: set<nat>, tail: nat,
      b: Block, c: Block)
    requires Links(s, next, prev, used, tail) && Apart(s, tail) && b in s && c in s && b.next == c.start
    ensures Links(Merge(s, b, c), next[b.start := c.next], prev[c.next := b.start], used, tail)
    ensures Apart(Merge(s, b, c), tail)
  {
    assert Linked(b, next, prev, used) && Linked(c, next, prev, used);
    forall d | d in s && d != b && d != c ensures Linked(d, next[b.start := c.next], prev[c.next := b.start], used) {
      assert Linked(d, next, prev, used);
    }
  }

  /** Only the used bit of `b` changes. */
  ghost function Mark(s: set<Block>, b: Block, u: bool): set<Block> {
    s - {b} + {b.(used := u)}
  }

  lemma MarkLinks(s: set<Block>, next: map<nat, nat>, prev: map<nat, nat>, used: set<nat>, tail: nat, b: Block, u: bool)
    requires Links(s, next, prev, used, tail) && Apart(s, tail) && b in s
    ensures Links(Mark(s, b, u), next, prev, if u then used + {b.start} else used - {b.start}, tail)
    ensures Apart(Mark(s, b, u), tail)
  {
    assert Linked(b, next, prev, used);
    var v := if u then used + {b.start} else used - {b.start};
    forall d | d in s && d != b ensures Linked(d, next, prev, v) {
      assert Linked(d, next, prev, used);
    }
  }

  // --------------------------------------------------------- blocks after operations

  lemma ReplacedMembers(h: Heap, i: nat, k: nat, mid: seq<Block>)
    requires BlocksOk(h) && i <= k <= |h.blocks|
    ensures Members(h.blocks[..i] + mid + h.blocks[k..]) == Members(h.blocks) - Members(h.blocks[i..k]) + Members(mid)
  {
    Parts(h, i, k);
    ReplaceMembers(h.blocks[..i], h.blocks[i..k], mid, h.blocks[k..], 0, h.Tail(), MIN_BLOCK);
  }

  lemma SplitMembers(h: Heap, i: nat, cut: nat)
    requires BlocksOk(h) && i < |h.blocks|
    ensures var b := h.blocks[i];
      Members(h.blocks[..i] + [Block(b.start, cut, true), Block(cut, b.next, false)] + h.blocks[i + 1..])
        == Cut(Members(h.blocks), b, cut)
  {
    var b := h.blocks[i];
    ReplacedMembers(h, i, i + 1, [Block(b.start, cut, true), Block(cut, b.next, false)]);
    assert h.blocks[i..i + 1] == [b];
    One(b);
    Two(Block(b.start, cut, true), Block(cut, b.next, false));
  }

  lemma WholeMembers(h: Heap, i: nat)
    requires BlocksOk(h) && i < |h.blocks|
    ensures Members(WholeAt(h, i).blocks) == Mark(Members(h.blocks), h.blocks[i], true)
  {
    var b := h.blocks[i];
    ReplacedMembers(h, i, i + 1, [b.(used := true)]);
    assert h.blocks[i..i + 1] == [b];
    One(b);
    One(b.(used := true));
  }

  /** Block `i` and its right neighbour joined and cut again. */
  lemma RecutMembers(h: Heap, i: nat, cut: nat)
    requires BlocksOk(h) && i + 1 < |h.blocks| && h.blocks[i].used && h.blocks[i].start < cut < h.blocks[i + 1].next
    ensures var b, r, s := h.blocks[i], h.blocks[i + 1], Members(h.blocks);
      var whole := Block(b.start, r.next, true);
      && b in s && r in s && b.next == r.start
      && Members(RecutAt(h, i, cut).blocks) == s - {b, r} + {Block(b.start, cut, true), Block(cut, r.next, false)}
      && whole !in s
  {
    var b, r := h.blocks[i], h.blocks[i + 1];
    var c, d := Block(b.start, cut, true), Block(cut, r.next, false);
    ReplacedMembers(h, i, i + 2, [c, d]);
    assert h.blocks[i..i + 2] == [b, r];
    Two(b, r);
    Two(c, d);
    BlockAt(h, i);
    BlockAt(h, i + 1);
    DistinctStarts(h);
  }

  lemma SliceMembers(bs: seq<Block>, lo: nat, i: nat, hi: nat)
    requires lo <= i < hi <= |bs| && i <= lo + 1 && hi <= i + 2
    ensures Members(bs[lo..hi]) == {bs[lo], bs[i], bs[hi - 1]}
  {
    var o := bs[lo..hi];
    assert o[0] == bs[lo] && o[i - lo] == bs[i] && o[hi - 1 - lo] == bs[hi - 1];
    forall b | b in o ensures b in {bs[lo], bs[i], bs[hi - 1]} {
      var j :| 0 <= j < |o| && o[j] == b;
      assert lo + j == lo || lo + j == i || lo + j == hi - 1;
    }
  }

  lemma FreedMembers(h: Heap, i: nat, lo: nat, hi: nat)
    requires BlocksOk(h) && i < |h.blocks| && h.blocks[i].used
    requires lo == (if LeftFree(h, i) then i - 1 else i) && hi == if RightFree(h, i) then i + 2 else i + 1
    ensures Members(FreeAt(h, i).blocks) == Members(h.blocks) - {h.blocks[lo], h.blocks[i], h.blocks[hi - 1]}
      + {Block(h.blocks[lo].start, h.blocks[hi - 1].next, false)}
  {
    var c := Block(h.blocks[lo].start, h.blocks[hi - 1].next, false);
    assert FreeAt(h, i).blocks == h.blocks[..lo] + [c] + h.blocks[hi..];
    assert Members(h.blocks[..lo] + [c] + h.blocks[hi..]) == Members(h.blocks) - Members(h.blocks[lo..hi]) + {c} by {
      ReplacedMembers(h, lo, hi, [c]);
      One(c);
    }
    SliceMembers(h.blocks, lo, i, hi);
  }

  /** The blocks after marking block `i` free, and after joining it with a free left neighbour. */
  ghost function Marked(h: Heap, i: nat): set<Block>
    requires i < |h.blocks|
  {
    Mark(Members(h.blocks), h.blocks[i], false)
  }

  ghost function LeftJoined(h: Heap, i: nat): set<Block>
    requires i < |h.blocks|
  {
    if LeftFree(h, i) then Merge(Marked(h, i), h.blocks[i - 1], h.blocks[i].(used := false)) else Marked(h, i)
  }

  ghost function LeftBlock(h: Heap, i: nat): Block
    requires i < |h.blocks|
  {
    if LeftFree(h, i) then Block(h.blocks[i - 1].start, h.blocks[i].next, false) else h.blocks[i].(used := false)
  }

  /** And after joining the result with a free right neighbour. */
  ghost function Joined(h: Heap, i: nat): set<Block>
    requires i < |h.blocks|
  {
    if RightFree(h, i) then Merge(LeftJoined(h, i), LeftBlock(h, i), h.blocks[i + 1]) else LeftJoined(h, i)
  }

  lemma LeftJoinedIs(h: Heap, i: nat)
    requires BlocksOk(h) && i < |h.blocks| && h.blocks[i].used
    ensures var s, b, c := Members(h.blocks), h.blocks[i], LeftBlock(h, i);
      && LeftJoined(h, i) == (if LeftFree(h, i) then s - {h.blocks[i - 1], b} else s - {b}) + {c}
      && c !in s && c in LeftJoined(h, i) && c.next == b.next
      && (LeftFree(h, i) ==> h.blocks[i - 1] in Marked(h, i) && h.blocks[i - 1].next == b.start)
      && (RightFree(h, i) ==> h.blocks[i + 1] in LeftJoined(h, i) && h.blocks[i + 1].start == b.next)
  {
    DistinctStarts(h);
    BlockAt(h, i);
    var b := h.blocks[i];
    if i > 0 {
      BlockAt(h, i - 1);
    }
    if i + 1 < |h.blocks| {
      BlockAt(h, i + 1);
    }
    assert b.(used := false) !in Members(h.blocks);
  }

  lemma JoinedIs(h: Heap, i: nat)
    requires BlocksOk(h) && i < |h.blocks| && h.blocks[i].used
    ensures Joined(h, i) == Members(FreeAt(h, i).blocks)
  {
    LeftJoinedIs(h, i);
    FreedMembers(h, i, if LeftFree(h, i) then i - 1 else i, if RightFree(h, i) then i + 2 else i + 1);
  }

  /** What a block's header says about its neighbours. */
  lemma Neighbours(h: Heap, i: nat, next: map<nat, nat>, prev: map<nat, nat>, used: set<nat>)
    requires BlocksOk(h) && i < |h.blocks| && Links(Members(h.blocks), next, prev, used, h.Tail())
    ensures var x := h.blocks[i].start;
      && x in next && x in prev && next[x] == h.blocks[i].next && (x in used <==> h.blocks[i].used)
      && (prev[x] !in used <==> LeftFree(h, i)) && (next[x] !in used <==> RightFree(h, i))
      && prev[x] != x && (LeftFree(h, i) ==> prev[x] == h.blocks[i - 1].start)
      && (RightFree(h, i) ==>
            next[x] == h.blocks[i + 1].start && next[x] in next && next[next[x]] == h.blocks[i + 1].next)
  {
    BlockAt(h, i);
    assert Linked(h.blocks[i], next, prev, used);
    if i > 0 {
      BlockAt(h, i - 1);
      assert Linked(h.blocks[i - 1], next, prev, used);
    } else {
      assert h.blocks[0].start == 0 by {
        TiledAt(h.blocks, 0, 0, h.Tail(), MIN_BLOCK);
      }
    }
    if i + 1 < |h.blocks| {
      BlockAt(h, i + 1);
      assert Linked(h.blocks[i + 1], next, prev, used);
    }
  }

  // ------------------------------------------------------------------------- object

  class Memheap {
    const pool: nat
    var next: map<nat, nat>
    var prev: map<nat, nat>
    var used: set<nat>        // headers whose magic has the used bit
    var freeList: seq<nat>    // from free_list->next_free on
    var available: int
    var maxUsed: int

    ghost var blocks: seq<Block>

    ghost function Abs(): (h: Heap)
      reads this`freeList, this`available, this`maxUsed, this`blocks
    {
      Heap(pool, blocks, freeList, available, maxUsed)
    }

    /** The headers agree with this set of blocks. */
    ghost predicate Consistent(s: set<Block>)
      reads this`next, this`prev, this`used
    {
      pool >= HEADER && Links(s, next, prev, used, pool - HEADER) && Apart(s, pool - HEADER)
    }

    ghost predicate Valid()
      reads this
    {
      Inv(Abs()) && Consistent(Members(blocks))
    }

    /** rt_memheap_init on a pool that can hold one smallest block. */
    constructor (size: nat)
      requires 2 * HEADER + MIN_DATA <= size / 4 * 4 < SIZE_LIMIT
      ensures Valid() && Abs() == Init(size / 4 * 4)
    {
      pool := size / 4 * 4;
      new;
      var tail := pool - HEADER;
      next, prev, used := map[0 := tail, tail := 0], map[0 := tail, tail := 0], {tail};
      freeList, available, maxUsed := [0], pool - 2 * HEADER, 2 * HEADER;
      blocks := [Block(0, tail, false)];
      InitInv(pool);
    }

    /** The counter update shared by the allocating operations. */
    method Account(n: int)
      modifies this`available, this`maxUsed
      ensures available == old(available) - n && maxUsed == Max(old(maxUsed), pool - available)
    {
      available := available - n;
      if pool - available > maxUsed {
        maxUsed := pool - available;
      }
    }

    /** Divides the block at `x`: a new free header at `y`, the used bit at `x`. */
    method Divide(x: nat, y: nat, ghost s: set<Block>, ghost b: Block)
      requires Consistent(s) && b in s && b.start == x && x < y < b.next
      modifies this`next, this`prev, this`used
      ensures Consistent(Cut(s, b, y)) && used == old(used) - {y} + {x}
    {
      CutLinks(s, next, prev, used, pool - HEADER, b, y);
      assert Linked(b, next, prev, used);
      var after := next[x];
      next, prev := next[y := after][x := y], prev[y := x][after := y];
      used := used - {y} + {x};
    }

    /** Sets or clears the used bit of the block at `x`. */
    method SetUsed(x: nat, u: bool, ghost s: set<Block>, ghost b: Block)
      requires Consistent(s) && b in s && b.start == x
      modifies this`used
      ensures Consistent(Mark(s, b, u)) && used == if u then old(used) + {x} else old(used) - {x}
    {
      MarkLinks(s, next, prev, used, pool - HEADER, b, u);
      used := if u then used + {x} else used - {x};
    }

    /** Joins the block at `x` with the one behind it. */
    method Join(x: nat, ghost s: set<Block>, ghost b: Block, ghost c: Block)
      requires Consistent(s) && b in s && c in s && b.next == c.start && b.start == x
      modifies this`next, this`prev
      ensures Consistent(Merge(s, b, c))
      ensures next == old(next)[x := c.next]
    {
      MergeLinks(s, next, prev, used, pool - HEADER, b, c);
      assert Linked(b, next, prev, used) && Linked(c, next, prev, used);
      var after := next[next[x]];
      next, prev := next[x := after], prev[after := x];
    }

    /** The split branch of rt_memheap_alloc. */
    method TakePart(x: nat, n: nat, ghost h: Heap, ghost i: nat)
      requires h == Abs() && BlocksOk(h) && Consistent(Members(blocks))
      requires CanTake(h, i, n) && Splits(blocks[i], n) && blocks[i].start == x
      modifies this
      ensures Abs() == SplitAt(h, i, n) && Consistent(Members(blocks))
    {
      var y := x + n + HEADER;
      SplitMembers(h, i, y);
      assert blocks[i] in Members(blocks);
      Divide(x, y, Members(blocks), blocks[i]);
      freeList := [y] + L.Without(freeList, x);
      Account(n + HEADER);
      blocks := SplitAt(h, i, n).blocks;
    }

    /** The branch that takes the whole block. */
    method TakeWhole(x: nat, ghost h: Heap, ghost i: nat)
      requires h == Abs() && BlocksOk(h) && Consistent(Members(blocks))
      requires i < |blocks| && blocks[i].start == x && x in next && next[x] == blocks[i].next
      modifies this
      ensures Abs() == WholeAt(h, i) && Consistent(Members(blocks))
    {
      WholeMembers(h, i);
      assert blocks[i] in Members(blocks);
      SetUsed(x, true, Members(blocks), blocks[i]);
      freeList := L.Without(freeList, x);
      Account(next[x] - x - HEADER);
      blocks := WholeAt(h, i).blocks;
    }

    /** Takes a free block that is large enough, splitting it if enough is left over. */
    method TakeBlock(x: nat, n: nat, ghost i: nat)
      requires Valid() && CanTake(Abs(), i, n) && blocks[i].start == x
      modifies this
      ensures Valid() && Abs() == AllocAt(old(Abs()), i, n)
    {
      ghost var h := Abs();
      AllocKeeps(h, i, n);
      Neighbours(h, i, next, prev, used);
      if next[x] - x - HEADER >= n + HEADER + MIN_DATA {
        TakePart(x, n, h, i);
      } else {
        TakeWhole(x, h, i);
      }
    }

    /** The search loop of rt_memheap_alloc. */
    method Search(n: nat) returns (k: nat)
      requires Valid()
      ensures k <= |freeList|
      ensures k < |freeList| ==> Choose(blocks, freeList, n) == IndexAt(blocks, freeList[k]) < |blocks|
      ensures k == |freeList| ==> Choose(blocks, freeList, n) == |blocks|
    {
      k := 0;
      while k < |freeList|
        invariant k <= |freeList| && Choose(blocks, freeList, n) == Choose(blocks, freeList[k..], n)
      {
        ghost var i := ListedBlock(Abs(), freeList[k]);
        ghost var j := IndexAt(blocks, freeList[k]);
        assert j < |blocks|;
        Neighbours(Abs(), j, next, prev, used);
        assert freeList[k..][1..] == freeList[k + 1..];
        if next[freeList[k]] - freeList[k] - HEADER >= n {
          return k;
        }
        k := k + 1;
      }
      assert freeList[k..] == [];
    }

    /** rt_memheap_alloc */
    method Alloc(request: nat) returns (r: Option<nat>)
      requires Valid() && request < SIZE_LIMIT
      modifies this
      ensures Valid() && (Abs(), r) == DoAlloc(old(Abs()), request)
    {
      var size := RtAlign(request);
      if size < MIN_DATA {
        size := MIN_DATA;
      }
      r := None;
      if size < available {
        var k := Search(size);
        if k < |freeList| {
          ghost var i := IndexAt(blocks, freeList[k]);
          ChoiceTakes(Abs(), request);
          r := Some(freeList[k]);
          TakeBlock(freeList[k], size, i);
        }
      }
    }

    /** The part of rt_memheap_free that looks to the left; `header` is where the free block now starts. */
    method JoinLeft(x: nat, ghost h: Heap, ghost i: nat) returns (header: nat)
      requires BlocksOk(h) && i < |h.blocks| && h.blocks[i].used && h.blocks[i].start == x && h.pool == pool
      requires Consistent(Marked(h, i)) && x in prev && (prev[x] !in used <==> LeftFree(h, i))
      requires LeftFree(h, i) ==> prev[x] == h.blocks[i - 1].start
      modifies this`next, this`prev, this`available
      ensures Consistent(LeftJoined(h, i)) && header == LeftBlock(h, i).start
      ensures available == old(available) + if LeftFree(h, i) then HEADER else 0
    {
      LeftJoinedIs(h, i);
      header := x;
      if prev[x] !in used {
        available := available + HEADER;
        header := prev[x];
        Join(header, Marked(h, i), h.blocks[i - 1], h.blocks[i].(used := false));
      }
    }

    /** The part that looks to the right. */
    method JoinRight(header: nat, ghost h: Heap, ghost i: nat)
      requires BlocksOk(h) && i < |h.blocks| && h.blocks[i].used && h.pool == pool
      requires Consistent(LeftJoined(h, i)) && header == LeftBlock(h, i).start
      modifies this`next, this`prev, this`available, this`freeList
      ensures Consistent(Joined(h, i))
      ensures available == old(available) + if RightFree(h, i) then HEADER else 0
      ensures freeList == if RightFree(h, i) then L.Without(old(freeList), h.blocks[i + 1].start) else old(freeList)
    {
      LeftJoinedIs(h, i);
      RightUsed(h, i);
      assert Linked(LeftBlock(h, i), next, prev, used);
      if next[header] !in used {
        available := available + HEADER;
        freeList := L.Without(freeList, next[header]);
        Join(header, LeftJoined(h, i), LeftBlock(h, i), h.blocks[i + 1]);
      }
    }

    /** What the used bit behind the joined block says. */
    lemma RightUsed(h: Heap, i: nat)
      requires BlocksOk(h) && i < |h.blocks| && h.blocks[i].used && h.pool == pool
      requires Consistent(LeftJoined(h, i))
      ensures h.blocks[i].next !in used <==> RightFree(h, i)
    {
      LeftJoinedIs(h, i);
      BlockAt(h, i);
      if i + 1 < |h.blocks| {
        var r := h.blocks[i + 1];
        assert r in Members(h.blocks);
        DistinctStarts(h);
        TiledOrdered(h.blocks, 0, h.Tail(), MIN_BLOCK);
        assert r in LeftJoined(h, i);
        assert Linked(r, next, prev, used);
      }
    }

    /** Clears the used bit and counts the data bytes. */
    method MarkFree(x: nat, ghost h: Heap, ghost i: nat)
      requires BlocksOk(h) && i < |h.blocks| && h.blocks[i].used && h.blocks[i].start == x && h.pool == pool
      requires Consistent(Members(h.blocks))
      modifies this`used, this`available
      ensures Consistent(Marked(h, i)) && available == old(available) + Size(h.blocks[i])
      ensures x in prev && (prev[x] !in used <==> LeftFree(h, i))
      ensures LeftFree(h, i) ==> prev[x] == h.blocks[i - 1].start
    {
      Neighbours(h, i, next, prev, used);
      assert h.blocks[i] in Members(h.blocks);
      available := available + (next[x] - x - HEADER);
      SetUsed(x, false, Members(h.blocks), h.blocks[i]);
    }

    /** The body of rt_memheap_free once the block is marked. */
    method Unlink(x: nat, ghost h: Heap, ghost i: nat)
      requires BlocksOk(h) && i < |h.blocks| && h.blocks[i].used && h.blocks[i].start == x && h.pool == pool
      requires Consistent(Marked(h, i)) && x in prev && (prev[x] !in used <==> LeftFree(h, i))
      requires LeftFree(h, i) ==> prev[x] == h.blocks[i - 1].start
      requires freeList == h.free && available == h.available + Size(h.blocks[i])
      modifies this`next, this`prev, this`available, this`freeList
      ensures Consistent(Joined(h, i)) && available == FreedSize(h, i) && freeList == FreedList(h, i)
    {
      var header := JoinLeft(x, h, i);
      LeftStart(h, i);
      JoinRight(header, h, i);
      if header == x {
        freeList := [header] + freeList;
      }
    }

    static lemma LeftStart(h: Heap, i: nat)
      requires BlocksOk(h) && i < |h.blocks|
      ensures LeftBlock(h, i).start == h.blocks[i].start <==> !LeftFree(h, i)
    {
      if i > 0 {
        BlockAt(h, i - 1);
        BlockAt(h, i);
      }
    }

    /** rt_memheap_free */
    method Free(x: nat, ghost i: nat)
      requires Valid() && i < |blocks| && blocks[i].used && blocks[i].start == x
      modifies this
      ensures Valid() && Abs() == FreeAt(old(Abs()), i)
    {
      ghost var h := Abs();
      FreeKeeps(h, i);
      FreeRaisesNot(h, i);
      MarkFree(x, h, i);
      Unlink(x, h, i);
      JoinedIs(h, i);
      blocks := FreeAt(h, i).blocks;
      assert Abs() == FreeAt(h, i);
    }

    static lemma FreeRaisesNot(h: Heap, i: nat)
      requires Inv(h) && i < |h.blocks| && h.blocks[i].used
      ensures FreeAt(h, i).max == h.max
    {
      BlockAt(h, i);
    }

    static lemma RegrownIs(h: Heap, i: nat, y: nat)
      requires BlocksOk(h) && i < |h.blocks| && h.blocks[i].used && RightFree(h, i)
      requires h.blocks[i].start < y < h.blocks[i + 1].next
      ensures var b, r, s := h.blocks[i], h.blocks[i + 1], Members(h.blocks);
        Cut(Merge(s, b, r), Block(b.start, r.next, true), y) == Members(RecutAt(h, i, y).blocks)
    {
      RecutMembers(h, i, y);
    }

    /** The branch of rt_memheap_realloc that grows the block into the free one behind it. */
    method GrowInPlace(x: nat, n: nat, ghost i: nat)
      requires Valid() && Resizable(Abs(), i, n) && RightFree(Abs(), i) && blocks[i].start == x
      requires Size(blocks[i]) < n < SIZE_LIMIT - MIN_DATA && GrowTest(Size(blocks[i]), Size(blocks[i + 1]), n)
      modifies this
      ensures Valid() && Abs() == GrowAt(old(Abs()), i, n)
    {
      ghost var h, g := Abs(), GrowAt(Abs(), i, n);
      assert Inv(g) by {
        GrowIff(h, i, n);
      }
      GrowIsRecut(h, i, n);
      Regrow(x, x + HEADER + n, n, h, i);
      assert Abs() == g;
    }

    method Regrow(x: nat, y: nat, n: nat, ghost h: Heap, ghost i: nat)
      requires h == Abs() && BlocksOk(h) && Consistent(Members(blocks))
      requires i < |blocks| && blocks[i].used && RightFree(h, i) && blocks[i].start == x
      requires n > Size(blocks[i]) && y == x + HEADER + n && y < blocks[i + 1].next
      modifies this`next, this`prev, this`used, this`freeList, this`available, this`maxUsed, this`blocks
      ensures Abs() == RecutAt(h, i, y) && Consistent(Members(blocks))
    {
      Bookkeep(x, y, n, h, i);
      MoveBoundary(x, y, h, i);
      blocks := RecutAt(h, i, y).blocks;
    }

    /** The counters and the free list of a block that grows. */
    method Bookkeep(x: nat, y: nat, n: nat, ghost h: Heap, ghost i: nat)
      requires h == Abs() && BlocksOk(h) && Consistent(Members(blocks))
      requires i < |blocks| && RightFree(h, i) && blocks[i].start == x && y == x + HEADER + n
      modifies this`freeList, this`available, this`maxUsed
      ensures available == RecutAt(h, i, y).available && maxUsed == RecutAt(h, i, y).max
      ensures freeList == RecutAt(h, i, y).free
    {
      assert blocks[i] in Members(blocks) && Linked(blocks[i], next, prev, used);
      BlockAt(h, i);
      Account(n - (next[x] - x - HEADER));
      freeList := [y] + L.Without(freeList, next[x]);
    }

    /** The old boundary goes, and a new one is built at `y`. */
    method MoveBoundary(x: nat, y: nat, ghost h: Heap, ghost i: nat)
      requires BlocksOk(h) && Consistent(Members(h.blocks)) && i < |h.blocks| && h.blocks[i].used && RightFree(h, i)
      requires h.blocks[i].start == x < y < h.blocks[i + 1].next
      modifies this`next, this`prev, this`used
      ensures Consistent(Members(RecutAt(h, i, y).blocks))
    {
      RecutMembers(h, i, y);
      RegrownIs(h, i, y);
      ghost var b, r, s := h.blocks[i], h.blocks[i + 1], Members(h.blocks);
      Join(x, s, b, r);
      Divide(x, y, Merge(s, b, r), Block(b.start, r.next, true));
    }

    /** The branch that gives the tail of a block back. */
    method ShrinkInPlace(x: nat, n: nat, ghost i: nat)
      requires Valid() && Resizable(Abs(), i, n) && blocks[i].start == x && n + HEADER + MIN_DATA < Size(blocks[i])
      modifies this
      ensures Valid() && Abs() == ShrinkAt(old(Abs()), i, n)
    {
      ghost var h := Abs();
      ShrinkKeeps(h, i, n);
      ShrinkBounds(h, i, x + HEADER + n, n);
      CutOff(x, n, h, i);
    }

    static lemma ShrunkIs(h: Heap, i: nat, y: nat)
      requires BlocksOk(h) && i < |h.blocks| && h.blocks[i].used && h.blocks[i].start < y < h.blocks[i].next
      ensures Trimmed(h, i, y)
        == if RightFree(h, i) then Members(RecutAt(h, i, y).blocks) else Members(CutAt(h, i, y).blocks)
    {
      SplitMembers(h, i, y);
      DistinctStarts(h);
      BlockAt(h, i);
      if RightFree(h, i) {
        BlockAt(h, i + 1);
        RecutMembers(h, i, y);
        FreshBlock(h, i, y);
      }
    }

    /** The blocks after block `i` is divided at `y` and the rest joined with a free block behind it. */
    static ghost function Trimmed(h: Heap, i: nat, y: nat): set<Block>
      requires i < |h.blocks|
    {
      var b, s := h.blocks[i], Members(h.blocks);
      if RightFree(h, i) then Merge(Cut(s, b, y), Block(y, b.next, false), h.blocks[i + 1]) else Cut(s, b, y)
    }

    static lemma RightInside(h: Heap, i: nat, y: nat)
      requires BlocksOk(h) && i < |h.blocks| && h.blocks[i].used && h.blocks[i].start < y < h.blocks[i].next
      ensures RightFree(h, i) ==>
        h.blocks[i + 1] in Cut(Members(h.blocks), h.blocks[i], y) && h.blocks[i + 1].start == h.blocks[i].next
    {
      BlockAt(h, i);
      assert RightFree(h, i) ==> h.blocks[i + 1] in Members(h.blocks);
    }

    /** No block starts strictly inside another. */
    static lemma FreshBlock(h: Heap, i: nat, y: nat)
      requires BlocksOk(h) && i < |h.blocks| && h.blocks[i].start < y < h.blocks[i].next
      ensures forall c :: c in Members(h.blocks) ==> c.start != y
    {
      BlocksApart(h);
      assert h.blocks[i] in Members(h.blocks);
    }

    method CutOff(x: nat, n: nat, ghost h: Heap, ghost i: nat)
      requires h == Abs() && Inv(h) && Consistent(Members(blocks))
      requires i < |blocks| && blocks[i].used && blocks[i].start == x && x + HEADER + n + HEADER <= blocks[i].next
      modifies this
      ensures Abs() == ShrinkAt(h, i, n) && Consistent(Members(blocks))
    {
      var y := x + n + HEADER;
      ShrinkSizes(h, i, n);
      ghost var g := ShrinkAt(h, i, n);
      assert Members(g.blocks) == Trimmed(h, i, y) by {
        ShrunkIs(h, i, y);
      }
      Trim(x, y, h, i, n);
      Settle(y, h, i, n);
      blocks := g.blocks;
      assert Abs() == g;
    }

    /** The rest at `y` enters the free list and the counters. */
    method Settle(y: nat, ghost h: Heap, ghost i: nat, ghost n: nat)
      requires i < |h.blocks| && y == h.blocks[i].start + HEADER + n
      requires available == h.available - if RightFree(h, i) then Size(h.blocks[i + 1]) else 0
      requires freeList == if RightFree(h, i) then L.Without(h.free, h.blocks[i + 1].start) else h.free
      requires y in next && next[y] == if RightFree(h, i) then h.blocks[i + 1].next else h.blocks[i].next
      requires RightFree(h, i) ==> h.blocks[i + 1].start == h.blocks[i].next
      modifies this`freeList, this`available
      ensures freeList == ShrinkAt(h, i, n).free && available == ShrinkAt(h, i, n).available
    {
      freeList := [y] + freeList;
      available := available + (next[y] - y - HEADER);
    }

    /** Divides the block, then joins the rest with a free block behind it. */
    method Trim(x: nat, y: nat, ghost h: Heap, ghost i: nat, ghost n: nat)
      requires BlocksOk(h) && Consistent(Members(h.blocks)) && i < |h.blocks| && h.blocks[i].used && h.pool == pool
      requires h.blocks[i].start == x < y < h.blocks[i].next && y == x + HEADER + n
      modifies this`next, this`prev, this`used, this`available, this`freeList
      ensures Consistent(Trimmed(h, i, y))
      ensures available == old(available) - if RightFree(h, i) then Size(h.blocks[i + 1]) else 0
      ensures freeList == if RightFree(h, i) then L.Without(old(freeList), h.blocks[i + 1].start) else old(freeList)
      ensures y in next && next[y] == if RightFree(h, i) then h.blocks[i + 1].next else h.blocks[i].next
    {
      RightInside(h, i, y);
      RightBit(h, i, y);
      ghost var b, s := h.blocks[i], Members(h.blocks);
      assert b in s;
      Divide(x, y, s, b);
      assert Linked(Block(y, b.next, false), next, prev, used);
      if next[y] !in used {
        JoinRest(y, h, i, Cut(s, b, y));
      }
    }

    /** Joins the rest at `y` with the free block behind it. */
    method JoinRest(y: nat, ghost h: Heap, ghost i: nat, ghost s: set<Block>)
      requires Consistent(s) && i + 1 < |h.blocks| && h.blocks[i + 1] in s
      requires Block(y, h.blocks[i].next, false) in s && h.blocks[i + 1].start == h.blocks[i].next
      modifies this`next, this`prev, this`available, this`freeList
      ensures Consistent(Merge(s, Block(y, h.blocks[i].next, false), h.blocks[i + 1]))
      ensures available == old(available) - Size(h.blocks[i + 1])
      ensures freeList == L.Without(old(freeList), h.blocks[i + 1].start)
      ensures y in next && next[y] == h.blocks[i + 1].next
    {
      ghost var d, r := Block(y, h.blocks[i].next, false), h.blocks[i + 1];
      assert Linked(r, next, prev, used) && Linked(d, next, prev, used);
      var z := next[y];
      available := available - (next[z] - z - HEADER);
      freeList := L.Without(freeList, z);
      Join(y, s, d, r);
    }

    static lemma ShrinkSizes(h: Heap, i: nat, n: nat)
      requires Inv(h) && i < |h.blocks| && h.blocks[i].used
      requires h.blocks[i].start + HEADER + n + HEADER <= h.blocks[i].next
      ensures ShrinkAt(h, i, n).max == h.max
      ensures RightFree(h, i) ==> h.blocks[i + 1].start == h.blocks[i].next
    {
      BlockAt(h, i);
    }

    /** Dividing the block leaves the used bit behind it as it is. */
    lemma RightBit(h: Heap, i: nat, y: nat)
      requires BlocksOk(h) && i < |h.blocks| && Links(Members(h.blocks), next, prev, used, h.Tail())
      requires h.blocks[i].start < y < h.blocks[i].next
      ensures h.blocks[i].next !in used - {y} + {h.blocks[i].start} <==> RightFree(h, i)
    {
      Neighbours(h, i, next, prev, used);
    }

    /** A used block stays where it is while another one is allocated. */
    static lemma StillLive(h: Heap, i: nat, request: nat)
      requires Inv(h) && i < |h.blocks| && h.blocks[i].used && request < SIZE_LIMIT
      ensures var g := DoAlloc(h, request).0; LiveAt(g, h.blocks[i].start) < |g.blocks|
    {
      var g, b := DoAlloc(h, request).0, h.blocks[i];
      assert b in UsedSet(Members(h.blocks));
      if Choice(h, request) < |h.blocks| {
        ChoiceTakes(h, request);
        AllocAdds(h, Choice(h, request), Need(request));
      }
      DoAllocKeeps(h, request);
      assert b in UsedSet(Members(g.blocks));
      var j :| 0 <= j < |g.blocks| && g.blocks[j] == b;
      DistinctStarts(g);
      var k := IndexAt(g.blocks, b.start);
      assert g.blocks[k] in Members(g.blocks);
    }

    /** rt_memheap_realloc of a used block to a request that is not 0, the copying apart. */
    method Resize(x: nat, request: nat, ghost i: nat) returns (r: Option<nat>)
      requires Valid() && 0 < request < SIZE_LIMIT && i < |blocks| && i == LiveAt(Abs(), x)
      requires !Wraps(Abs(), MemheapTheorems.Realloc(x, request))
      modifies this
      ensures Valid() && (Abs(), r) == DoResize(old(Abs()), i, request)
    {
      ghost var h := Abs();
      NeedOk(request);
      Neighbours(h, i, next, prev, used);
      var n := RtAlign(request);
      if n < MIN_DATA {
        n := MIN_DATA;
      }
      var oldSize := next[x] - x - HEADER;
      if n > oldSize {
        r := Enlarge(x, n, oldSize, h, i);
      } else if n + HEADER + MIN_DATA >= oldSize {
        r := Some(x);
      } else {
        ShrinkInPlace(x, n, i);
        r := Some(x);
      }
    }

    /** The part for larger sizes. */
    method Enlarge(x: nat, n: nat, oldSize: int, ghost h: Heap, ghost i: nat) returns (r: Option<nat>)
      requires h == Abs() && Valid() && i < |blocks| && i == LiveAt(h, x) && Resizable(h, i, n)
      requires oldSize == Size(blocks[i]) < n && (RightFree(h, i) ==> n < SIZE_LIMIT - MIN_DATA)
      modifies this
      ensures Valid() && (Abs(), r) == DoEnlarge(h, i, n)
    {
      var fits := CanGrow(x, n, oldSize, h, i);
      if fits {
        GrowInPlace(x, n, i);
        r := Some(x);
      } else {
        r := Move(x, n, h, i);
      }
    }

    /** The test of rt_memheap_realloc for growing in place. */
    method CanGrow(x: nat, n: nat, oldSize: int, ghost h: Heap, ghost i: nat) returns (fits: bool)
      requires h == Abs() && BlocksOk(h) && Consistent(Members(blocks)) && i < |blocks| && blocks[i].start == x
      requires oldSize == Size(blocks[i])
      ensures fits <==> RightFree(h, i) && GrowTest(oldSize, Size(blocks[i + 1]), n)
    {
      Neighbours(h, i, next, prev, used);
      var z := next[x];
      fits := z !in used && Wrap(next[z] - z - HEADER + oldSize) > Wrap(n + MIN_DATA);
    }

    /** Allocating a new block and freeing the old one. */
    method Move(x: nat, n: nat, ghost h: Heap, ghost i: nat) returns (r: Option<nat>)
      requires h == Abs() && Valid() && n < SIZE_LIMIT && i < |blocks| && i == LiveAt(h, x)
      modifies this
      ensures Valid() && (Abs(), r) == DoMove(h, x, n)
    {
      StillLive(h, i, n);
      r := Alloc(n);
      if r != None {
        ghost var j := LiveAt(Abs(), x);
        Free(x, j);
      }
    }

    /** rt_memheap_realloc of a used block: a request of 0 frees it. */
    method ReallocBlock(x: nat, request: nat, ghost i: nat) returns (r: Option<nat>)
      requires Valid() && request < SIZE_LIMIT && i < |blocks| && i == LiveAt(Abs(), x)
      requires !Wraps(Abs(), MemheapTheorems.Realloc(x, request))
      modifies this
      ensures Valid() && Abs() == MemheapTheorems.Next(old(Abs()), MemheapTheorems.Realloc(x, request))
      ensures request == 0 ==> r == None
      ensures request > 0 ==> r == DoResize(old(Abs()), i, request).1
    {
      if request == 0 {
        Free(x, i);
        r := None;
      } else {
        r := Resize(x, request, i);
      }
    }

    /** rt_memheap_realloc: without a block it allocates, unless the request is 0. */
    method Realloc(p: Option<nat>, request: nat, ghost i: nat) returns (r: Option<nat>)
      requires Valid() && request < SIZE_LIMIT
      requires p.Some? ==> i < |blocks| && i == LiveAt(Abs(), p.value)
      requires p.Some? ==> !Wraps(Abs(), MemheapTheorems.Realloc(p.value, request))
      modifies this
      ensures Valid()
      ensures p.Some? ==> Abs() == MemheapTheorems.Next(old(Abs()), MemheapTheorems.Realloc(p.value, request))
      ensures p.Some? && request > 0 ==> r == DoResize(old(Abs()), i, request).1
      ensures p.None? && request > 0 ==> (Abs(), r) == DoAlloc(old(Abs()), Need(request))
      ensures request == 0 ==> r == None && (p.None? ==> Abs() == old(Abs()))
    {
      if p.Some? {
        r := ReallocBlock(p.value, request, i);
      } else if request == 0 {
        r := None;
      } else {
        NeedOk(request);
        var n := RtAlign(request);
        r := Alloc(if n < MIN_DATA then MIN_DATA else n);
      }
    }
  }
}
