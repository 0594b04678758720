/**
  How the block list lies in memory: a heap is an array of 32-bit words, a
  `struct heap_mem` is three of them (magic and used flag, `next`, `prev`), and
  user data lies between the headers.
 */
module HeapWords {
  import opened BlockList
  import opened SmallMemSpec

  const HEAP_MAGIC: nat := 0x1ea0

  /** The first header word: `magic` in the low half, `used` in the high half. */
  function FlagWord(used: bool): nat {
    HEAP_MAGIC + if used then 0x1_0000 else 0
  }

  /** The header of `b` is at its offset, with `prev` link `p`. */
  ghost predicate HeaderAt(w: seq<nat>, b: Block, p: nat) {
    && b.start / 4 + 2 < |w|
    && w[b.start / 4] == FlagWord(b.used)
    && w[b.start / 4 + 1] == b.next
    && w[b.start / 4 + 2] == p
  }

  /** The headers of `bs` are linked in order; `p` is the offset of the block before them. */
  ghost predicate Linked(w: seq<nat>, bs: seq<Block>, p: nat) {
    bs == [] || (HeaderAt(w, bs[0], p) && Linked(w, bs[1..], bs[0].start))
  }

  ghost function LastStart(bs: seq<Block>, p: nat): nat {
    if bs == [] then p else bs[|bs| - 1].start
  }

  /** `heap_end` is marked used and points to itself; its `prev` is not maintained. */
  ghost predicate EndAt(w: seq<nat>, end: nat) {
    && |w| * 4 == end + HEADER
    && w[end / 4] == FlagWord(true) && w[end / 4 + 1] == end
  }

  /** The user words of block `b` are the same in `w` and `w'`. */
  ghost predicate SameData(w: seq<nat>, w': seq<nat>, b: Block) {
    |w| == |w'| && forall j :: 0 <= j < |w| && b.start + HEADER <= 4 * j < b.next ==> w[j] == w'[j]
  }

  /** `w` and `w'` differ at most in the words of `[lo, hi)` and in the `prev` word of a header at `hi`. */
  ghost predicate SameOutside(w: seq<nat>, w': seq<nat>, lo: nat, hi: nat) {
    |w| == |w'| && forall j :: 0 <= j < |w| && !(lo <= 4 * j < hi) && 4 * j != hi + 8 ==> w[j] == w'[j]
  }

  lemma {:induction false} LinkedConcat(w: seq<nat>, a: seq<Block>, b: seq<Block>, p: nat)
    ensures Linked(w, a + b, p) <==> Linked(w, a, p) && Linked(w, b, LastStart(a, p))
  {
    if a == [] {
      assert a + b == b;
    } else {
      assert (a + b)[1..] == a[1..] + b;
      LinkedConcat(w, a[1..], b, a[0].start);
    }
  }

  lemma LinkedAt(w: seq<nat>, bs: seq<Block>, i: nat, p: nat)
    requires Linked(w, bs, p) && i < |bs|
    ensures HeaderAt(w, bs[i], if i == 0 then p else bs[i - 1].start)
  {
    assert bs == bs[..i] + bs[i..];
    LinkedConcat(w, bs[..i], bs[i..], p);
  }

  /** Links survive any change of words outside the blocks' own interval. */
  lemma {:induction false} LinkedFrame(w: seq<nat>, w': seq<nat>, bs: seq<Block>, p: nat, lo: nat, hi: nat)
    requires Tiled(bs, lo, hi, MIN_BLOCK) && Aligned(Members(bs))
    requires Linked(w, bs, p)
    requires |w| == |w'| && forall j :: 0 <= j < |w| && lo <= 4 * j < hi ==> w[j] == w'[j]
    ensures Linked(w', bs, p)
    decreases |bs|
  {
    if bs != [] {
      var b := bs[0];
      assert b in Members(bs) && b.start % 4 == 0;
      assert b.next <= hi by { TiledOrdered(bs, lo, hi, MIN_BLOCK); }
      assert HeaderAt(w', b, p);
      assert Members(bs[1..]) <= Members(bs);
      LinkedFrame(w, w', bs[1..], b.start, b.next, hi);
    }
  }

  /** Links survive, and the first `prev` follows, when only that word changes. */
  lemma LinkedRelink(w: seq<nat>, w': seq<nat>, bs: seq<Block>, p: nat, p': nat, lo: nat, hi: nat)
    requires bs != [] && Tiled(bs, lo, hi, MIN_BLOCK) && Aligned(Members(bs))
    requires Linked(w, bs, p)
    requires |w| == |w'| && lo / 4 + 2 < |w| && w'[lo / 4 + 2] == p'
    requires forall j :: 0 <= j < |w| && lo <= 4 * j < hi && 4 * j != lo + 8 ==> w[j] == w'[j]
    ensures Linked(w', bs, p')
  {
    var b := bs[0];
    assert b in Members(bs) && b.start % 4 == 0;
    assert b.next <= hi by { TiledOrdered(bs, lo, hi, MIN_BLOCK); }
    assert HeaderAt(w', b, p');
    assert Members(bs[1..]) <= Members(bs);
    LinkedFrame(w, w', bs[1..], b.start, b.next, hi);
  }

  /**
    Surgery on the list: when the words written lie in the span of `cut`, plus
    the `prev` word after it, and form the headers of `mid`, the whole list is
    linked again.
   */
  lemma Splice(w: seq<nat>, w': seq<nat>, pre: seq<Block>, cut: seq<Block>, mid: seq<Block>, post: seq<Block>, end: nat)
    requires cut != [] && mid != []
    requires Tiled(pre + cut + post, 0, end, MIN_BLOCK) && Aligned(Members(pre + cut + post))
    requires Linked(w, pre + cut + post, 0) && EndAt(w, end)
    requires SameOutside(w, w', cut[0].start, cut[|cut| - 1].next)
    requires Linked(w', mid, LastStart(pre, 0))
    requires post != [] ==>
      var e := cut[|cut| - 1].next / 4 + 2; e < |w'| && w'[e] == LastStart(mid, 0)
    ensures Linked(w', pre + mid + post, 0) && EndAt(w', end)
  {
    var lo, hi := cut[0].start, cut[|cut| - 1].next;
    SpliceParts(pre, cut, post, end);
    SpliceLinks(w, w', pre, cut, mid, post, lo, hi, end);
    SpliceEnd(w, w', lo, hi, end);
  }

  lemma SpliceLinks(w: seq<nat>, w': seq<nat>, pre: seq<Block>, cut: seq<Block>, mid: seq<Block>, post: seq<Block>,
      lo: nat, hi: nat, end: nat)
    requires cut != [] && mid != [] && Tiled(pre, 0, lo, MIN_BLOCK) && Tiled(post, hi, end, MIN_BLOCK)
    requires Aligned(Members(pre)) && Aligned(Members(post)) && lo < hi && hi % 4 == 0
    requires Linked(w, pre + cut + post, 0) && SameOutside(w, w', lo, hi)
    requires Linked(w', mid, LastStart(pre, 0))
    requires post != [] ==> hi / 4 + 2 < |w'| && w'[hi / 4 + 2] == LastStart(mid, 0)
    ensures Linked(w', pre + mid + post, 0)
  {
    LinkedConcat(w, pre + cut, post, 0);
    SplicePre(w, w', pre, cut, mid, lo, hi);
    SplicePost(w, w', post, LastStart(pre + cut, 0), LastStart(mid, 0), lo, hi, end);
    LinkedConcat(w', pre + mid, post, 0);
  }

  lemma SpliceEnd(w: seq<nat>, w': seq<nat>, lo: nat, hi: nat, end: nat)
    requires EndAt(w, end) && SameOutside(w, w', lo, hi) && lo < hi <= end && end % 4 == 0
    requires hi == end || hi + MIN_BLOCK <= end
    ensures EndAt(w', end)
  {
    var e := end / 4;
    assert end == 4 * e;
  }

  lemma SplicePre(w: seq<nat>, w': seq<nat>, pre: seq<Block>, cut: seq<Block>, mid: seq<Block>, lo: nat, hi: nat)
    requires Tiled(pre, 0, lo, MIN_BLOCK) && Aligned(Members(pre)) && lo < hi
    requires Linked(w, pre + cut, 0) && SameOutside(w, w', lo, hi) && Linked(w', mid, LastStart(pre, 0))
    ensures Linked(w', pre + mid, 0)
  {
    LinkedConcat(w, pre, cut, 0);
    LinkedFrame(w, w', pre, 0, 0, lo);
    LinkedConcat(w', pre, mid, 0);
  }

  lemma SplicePost(w: seq<nat>, w': seq<nat>, post: seq<Block>, p: nat, p': nat, lo: nat, hi: nat, end: nat)
    requires Tiled(post, hi, end, MIN_BLOCK) && Aligned(Members(post)) && lo < hi && hi % 4 == 0
    requires Linked(w, post, p) && SameOutside(w, w', lo, hi)
    requires post != [] ==> hi / 4 + 2 < |w'| && w'[hi / 4 + 2] == p'
    ensures Linked(w', post, p')
  {
    if post != [] {
      LinkedRelink(w, w', post, p, p', hi, end);
    }
  }

  lemma SpliceParts(pre: seq<Block>, cut: seq<Block>, post: seq<Block>, end: nat)
    requires cut != []
    requires Tiled(pre + cut + post, 0, end, MIN_BLOCK) && Aligned(Members(pre + cut + post))
    ensures var lo, hi := cut[0].start, cut[|cut| - 1].next;
      && Tiled(pre, 0, lo, MIN_BLOCK) && Tiled(post, hi, end, MIN_BLOCK) && lo < hi <= end
      && Aligned(Members(pre)) && Aligned(Members(post)) && lo % 4 == 0 && hi % 4 == 0 && end % 4 == 0
      && (post != [] ==> hi + MIN_BLOCK <= end)
  {
    var lo, hi := cut[0].start, cut[|cut| - 1].next;
    assert EndOf(pre + cut, 0) == hi;
    TiledConcat(pre + cut, post, 0, end, MIN_BLOCK);
    TiledConcat(pre, cut, 0, hi, MIN_BLOCK);
    assert Members(pre) <= Members(pre + cut + post) && Members(post) <= Members(pre + cut + post);
    assert cut[0] in Members(pre + cut + post) && cut[|cut| - 1] in Members(pre + cut + post);
    TiledOrdered(cut, lo, hi, MIN_BLOCK);
    TiledOrdered(post, hi, end, MIN_BLOCK);
    if post == [] {
      TiledEnds(post, hi, end, MIN_BLOCK);
    } else {
      TiledEnds(post, hi, end, MIN_BLOCK);
      TiledOrdered(post[1..], post[0].next, end, MIN_BLOCK);
      assert post[|post| - 1] in Members(post);
    }
  }

  /** The surgery touches no user data of the blocks around it. */
  lemma SpliceSameData(w: seq<nat>, w': seq<nat>, pre: seq<Block>, cut: seq<Block>, post: seq<Block>, end: nat,
      b: Block)
    requires cut != []
    requires Tiled(pre + cut + post, 0, end, MIN_BLOCK) && Aligned(Members(pre + cut + post))
    requires SameOutside(w, w', cut[0].start, cut[|cut| - 1].next)
    requires b in pre || b in post
    ensures SameData(w, w', b)
  {
    var lo, hi := cut[0].start, cut[|cut| - 1].next;
    SpliceParts(pre, cut, post, end);
    if b in pre {
      TiledOrdered(pre, 0, lo, MIN_BLOCK);
    } else {
      TiledOrdered(post, hi, end, MIN_BLOCK);
    }
  }
}
