/**
  The block list both coalescing allocators (mem.c and memheap.c) maintain in
  their in-band headers: a sequence of blocks that tiles the pool from offset 0
  to the end marker, in which no two neighbours are free.

  The main result here is `CanonicalIsUnique`: such a list is determined by its
  set of used blocks alone, so it does not remember the history of splits and
  merges that produced it.
 */
module BlockList {

  const SIZE_LIMIT: nat := 0x1_0000_0000

  /** RT_ALIGN(size, 4) in 32-bit unsigned arithmetic: the addition may wrap. */
  function RtAlign(size: nat): nat {
    ((size + 3) % SIZE_LIMIT) / 4 * 4
  }

  /** RT_ALIGN rounds up to a multiple of 4 exactly when `size + 3` does not wrap; otherwise it gives 0. */
  lemma RtAlignRoundsUp(size: nat)
    requires size < SIZE_LIMIT
    ensures RtAlign(size) % 4 == 0
    ensures size <= 0xFFFF_FFFC ==> size <= RtAlign(size) < size + 4
    ensures size > 0xFFFF_FFFC ==> RtAlign(size) == 0
  {
    if size > 0xFFFF_FFFC {
      assert (size + 3) % SIZE_LIMIT == size + 3 - SIZE_LIMIT;
    }
  }

  /** One block: its header offset, the offset of the next header, its state. */
  datatype Block = Block(start: nat, next: nat, used: bool)

  /** `bs` covers `[lo, hi)` without gap or overlap, each block at least `min` bytes long. */
  ghost predicate Tiled(bs: seq<Block>, lo: nat, hi: nat, min: nat) {
    if bs == [] then lo == hi
    else bs[0].start == lo && lo + min <= bs[0].next && Tiled(bs[1..], bs[0].next, hi, min)
  }

  ghost predicate NoAdjacentFree(bs: seq<Block>) {
    |bs| > 1 ==> (bs[0].used || bs[1].used) && NoAdjacentFree(bs[1..])
  }

  /** Blocks are in address order and do not overlap. */
  ghost predicate Ordered(bs: seq<Block>) {
    && (forall i :: 0 <= i < |bs| ==> bs[i].start < bs[i].next)
    && (forall i, j :: 0 <= i < j < |bs| ==> bs[i].next <= bs[j].start)
  }

  ghost function Members(bs: seq<Block>): set<Block> {
    set b | b in bs
  }

  ghost predicate Aligned(s: set<Block>) {
    forall b :: b in s ==> b.start % 4 == 0 && b.next % 4 == 0
  }

  ghost function UsedSet(s: set<Block>): set<Block> {
    set b | b in s && b.used
  }

  /** Bytes covered by used blocks, headers included. */
  ghost function UsedBytes(bs: seq<Block>): int {
    if bs == [] then 0
    else (if bs[0].used then bs[0].next - bs[0].start else 0) + UsedBytes(bs[1..])
  }

  /** Bytes of user data in free blocks, with `header` bytes of header each. */
  ghost function FreeBytes(bs: seq<Block>, header: nat): int {
    if bs == [] then 0
    else (if bs[0].used then 0 else bs[0].next - bs[0].start - header) + FreeBytes(bs[1..], header)
  }

  /** Where a tiled list that starts at `lo` ends. */
  ghost function EndOf(bs: seq<Block>, lo: nat): nat {
    if bs == [] then lo else bs[|bs| - 1].next
  }

  /** Index of the block whose header is at `off`, or `|bs|`. */
  ghost function IndexAt(bs: seq<Block>, off: nat): (k: nat)
    ensures k <= |bs|
    ensures k < |bs| ==> bs[k].start == off
    ensures k == |bs| ==> forall i :: 0 <= i < |bs| ==> bs[i].start != off
  {
    if i :| 0 <= i < |bs| && bs[i].start == off then i else |bs|
  }

  ghost function Max(a: int, b: int): int { if a < b then b else a }

  // ------------------------------------------------------------ concatenation

  lemma {:induction false} TiledConcat(a: seq<Block>, b: seq<Block>, lo: nat, hi: nat, min: nat)
    ensures Tiled(a + b, lo, hi, min) <==> Tiled(a, lo, EndOf(a, lo), min) && Tiled(b, EndOf(a, lo), hi, min)
  {
    if a == [] {
      assert a + b == b;
    } else {
      assert (a + b)[1..] == a[1..] + b;
      TiledConcat(a[1..], b, a[0].next, hi, min);
    }
  }

  lemma {:induction false} NoAdjacentFreeConcat(a: seq<Block>, b: seq<Block>)
    ensures NoAdjacentFree(a + b) <==>
      NoAdjacentFree(a) && NoAdjacentFree(b) && (a == [] || b == [] || a[|a| - 1].used || b[0].used)
  {
    if a == [] {
      assert a + b == b;
    } else {
      assert (a + b)[1..] == a[1..] + b;
      NoAdjacentFreeConcat(a[1..], b);
    }
  }

  lemma {:induction false} UsedBytesConcat(a: seq<Block>, b: seq<Block>)
    ensures UsedBytes(a + b) == UsedBytes(a) + UsedBytes(b)
  {
    if a == [] {
      assert a + b == b;
    } else {
      assert (a + b)[1..] == a[1..] + b;
      UsedBytesConcat(a[1..], b);
    }
  }

  lemma {:induction false} FreeBytesConcat(a: seq<Block>, b: seq<Block>, header: nat)
    ensures FreeBytes(a + b, header) == FreeBytes(a, header) + FreeBytes(b, header)
  {
    if a == [] {
      assert a + b == b;
    } else {
      assert (a + b)[1..] == a[1..] + b;
      FreeBytesConcat(a[1..], b, header);
    }
  }

  /** A tiled list is address ordered and stays inside its interval. */
  lemma {:induction false} TiledOrdered(bs: seq<Block>, lo: nat, hi: nat, min: nat)
    requires Tiled(bs, lo, hi, min) && min > 0
    ensures Ordered(bs)
    ensures forall i :: 0 <= i < |bs| ==> lo <= bs[i].start && bs[i].next <= hi
    ensures lo <= hi
    decreases |bs|
  {
    if bs != [] {
      TiledOrdered(bs[1..], bs[0].next, hi, min);
      assert forall i :: 0 < i < |bs| ==> bs[i] == bs[1..][i - 1];
    }
  }

  /** What the links of a tiled list say at one block. */
  lemma TiledAt(bs: seq<Block>, i: nat, lo: nat, hi: nat, min: nat)
    requires Tiled(bs, lo, hi, min) && i < |bs|
    ensures bs[i].start + min <= bs[i].next
    ensures bs[i].start == if i == 0 then lo else bs[i - 1].next
    ensures bs[i].next == if i + 1 == |bs| then hi else bs[i + 1].start
  {
    assert bs == bs[..i] + bs[i..];
    TiledConcat(bs[..i], bs[i..], lo, hi, min);
    assert bs[i..][1..] == bs[i + 1..];
  }

  // -------------------------------------------------------------- replacement

  /** Replacing some blocks by others that tile the same interval keeps the tiling. */
  lemma ReplaceTiled(pre: seq<Block>, cut: seq<Block>, mid: seq<Block>, post: seq<Block>, lo: nat, hi: nat, min: nat)
    requires cut != [] && mid != []
    requires Tiled(pre + cut + post, lo, hi, min)
    requires Tiled(mid, cut[0].start, cut[|cut| - 1].next, min)
    ensures Tiled(pre + mid + post, lo, hi, min)
  {
    Tiled3(pre, cut, post, lo, hi, min);
    TiledEnds(mid, cut[0].start, cut[|cut| - 1].next, min);
    Tiled3(pre, mid, post, lo, hi, min);
  }

  /** A list in three parts is tiled iff its parts tile adjacent intervals. */
  lemma Tiled3(pre: seq<Block>, mid: seq<Block>, post: seq<Block>, lo: nat, hi: nat, min: nat)
    requires mid != []
    ensures Tiled(pre + mid + post, lo, hi, min) <==>
      && Tiled(pre, lo, EndOf(pre, lo), min)
      && Tiled(mid, EndOf(pre, lo), mid[|mid| - 1].next, min)
      && Tiled(post, mid[|mid| - 1].next, hi, min)
  {
    assert EndOf(pre + mid, lo) == mid[|mid| - 1].next;
    TiledConcat(pre + mid, post, lo, hi, min);
    TiledConcat(pre, mid, lo, mid[|mid| - 1].next, min);
  }

  lemma {:induction false} TiledEnds(bs: seq<Block>, lo: nat, hi: nat, min: nat)
    requires Tiled(bs, lo, hi, min)
    ensures EndOf(bs, lo) == hi
  {
    assert bs + [] == bs;
    TiledConcat(bs, [], lo, hi, min);
  }

  lemma Replace3NoAdjacentFree(pre: seq<Block>, mid: seq<Block>, post: seq<Block>)
    requires mid != []
    requires NoAdjacentFree(pre) && NoAdjacentFree(mid) && NoAdjacentFree(post)
    requires pre != [] ==> pre[|pre| - 1].used || mid[0].used
    requires post != [] ==> mid[|mid| - 1].used || post[0].used
    ensures NoAdjacentFree(pre + mid + post)
  {
    NoAdjacentFreeConcat(pre, mid);
    NoAdjacentFreeConcat(pre + mid, post);
  }

  lemma UsedBytes3(pre: seq<Block>, mid: seq<Block>, post: seq<Block>)
    ensures UsedBytes(pre + mid + post) == UsedBytes(pre) + UsedBytes(mid) + UsedBytes(post)
  {
    UsedBytesConcat(pre, mid);
    UsedBytesConcat(pre + mid, post);
  }

  lemma FreeBytes3(pre: seq<Block>, mid: seq<Block>, post: seq<Block>, header: nat)
    ensures FreeBytes(pre + mid + post, header)
         == FreeBytes(pre, header) + FreeBytes(mid, header) + FreeBytes(post, header)
  {
    FreeBytesConcat(pre, mid, header);
    FreeBytesConcat(pre + mid, post, header);
  }

  /** The blocks after a replacement. */
  lemma ReplaceMembers(pre: seq<Block>, cut: seq<Block>, mid: seq<Block>, post: seq<Block>, lo: nat, hi: nat, min: nat)
    requires Tiled(pre + cut + post, lo, hi, min) && min > 0
    ensures Members(pre + mid + post) == Members(pre + cut + post) - Members(cut) + Members(mid)
  {
    var bs := pre + cut + post;
    TiledOrdered(bs, lo, hi, min);
    forall b | b in cut
      ensures b !in pre && b !in post
    {
      var k :| 0 <= k < |cut| && cut[k] == b;
      assert bs[|pre| + k] == b;
      assert forall j :: 0 <= j < |pre| ==> pre[j] == bs[j];
      assert forall j :: 0 <= j < |post| ==> post[j] == bs[|pre| + |cut| + j];
    }
  }

  // --------------------------------------------------------------- uniqueness

  /** The first block of a canonical list is determined by the used set. */
  lemma FirstBlockAgrees(a: seq<Block>, b: seq<Block>, lo: nat, hi: nat, min: nat)
    requires min > 0 && a != [] && b != []
    requires Tiled(a, lo, hi, min) && Tiled(b, lo, hi, min)
    requires NoAdjacentFree(b)
    requires UsedSet(Members(a)) == UsedSet(Members(b))
    ensures !a[0].used && !b[0].used ==> a[0].next <= b[0].next
    ensures a[0].used ==> a[0] == b[0]
  {
    TiledOrdered(b, lo, hi, min);
    TiledOrdered(a, lo, hi, min);
    if a[0].used {
      assert a[0] in UsedSet(Members(b));
    } else if !b[0].used && |b| > 1 {
      assert b[1] in UsedSet(Members(a));
    }
  }

  /**
    History independence: two canonical lists over the same pool with the same
    used blocks are the same list.
   */
  lemma {:induction false} CanonicalIsUnique(a: seq<Block>, b: seq<Block>, lo: nat, hi: nat, min: nat)
    requires min > 0
    requires Tiled(a, lo, hi, min) && Tiled(b, lo, hi, min)
    requires NoAdjacentFree(a) && NoAdjacentFree(b)
    requires UsedSet(Members(a)) == UsedSet(Members(b))
    ensures a == b
    decreases |a|
  {
    if a == [] || b == [] {
      TiledOrdered(a, lo, hi, min);
      TiledOrdered(b, lo, hi, min);
    } else {
      FirstBlockAgrees(a, b, lo, hi, min);
      FirstBlockAgrees(b, a, lo, hi, min);
      assert UsedSet(Members(a[1..])) == UsedSet(Members(b[1..])) by {
        TailUsedSet(a, lo, hi, min);
        TailUsedSet(b, lo, hi, min);
      }
      CanonicalIsUnique(a[1..], b[1..], a[0].next, hi, min);
      assert a == [a[0]] + a[1..] && b == [b[0]] + b[1..];
    }
  }

  lemma TailUsedSet(a: seq<Block>, lo: nat, hi: nat, min: nat)
    requires a != [] && Tiled(a, lo, hi, min) && min > 0
    ensures UsedSet(Members(a[1..])) == UsedSet(Members(a)) - {a[0]}
  {
    TiledOrdered(a, lo, hi, min);
    forall b | b in UsedSet(Members(a)) - {a[0]}
      ensures b in UsedSet(Members(a[1..]))
    {
      var k :| 0 <= k < |a| && a[k] == b;
      assert a[1..][k - 1] == b;
    }
  }
}
