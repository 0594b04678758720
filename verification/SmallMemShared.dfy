/**
  The small-memory heap shared by threads. Each locked section, and each write of
  a thread to its own block, leaves the live blocks of all others and their bytes
  alone. So a moving rt_realloc, which copies with the lock free, ends with the
  bytes of the old block in the new one, whatever other threads do meanwhile.
 */
module SmallMemShared {
  import opened BlockList
  import opened SmallMemSpec
  import opened SmallMemTheorems
  import opened HeapWords
  import opened SmallMem
  import opened WordCopy

  /** The block list, and the memory that holds it. */
  datatype World = World(h: Heap, w: seq<nat>)

  ghost predicate Sound(s: World) {
    Inv(s.h) && Linked(s.w, s.h.blocks, 0) && EndAt(s.w, s.h.End())
  }

  /** The live block is still there, with the same bytes. */
  ghost predicate Leaves(s: World, t: World, b: Block) {
    b in t.h.blocks && SameData(s.w, t.w, b)
  }

  /** What one thread does in one section: all live blocks but its own are left. */
  ghost predicate Section(s: World, t: World, own: set<Block>) {
    Sound(t) && forall b :: b in s.h.blocks && b.used && b !in own ==> Leaves(s, t, b)
  }

  // ------------------------------------------------------------------- each section

  lemma MallocSection(s: World, t: World, request: nat)
    requires Sound(s) && Sound(t) && request < SIZE_LIMIT && t.h == Malloc(s.h, request).0
    requires forall b :: b in s.h.blocks && b.used ==> SameData(s.w, t.w, b)
    ensures Section(s, t, {})
  {
    if Choice(s.h, request) < |s.h.blocks| {
      MoveOldLive(s.h, request);
    }
  }

  lemma FreeSection(s: World, t: World, i: nat)
    requires Sound(s) && Sound(t) && Live(s.h, i) && t.h == Release(s.h, i)
    requires forall b :: b in s.h.blocks && b.used && b != s.h.blocks[i] ==> SameData(s.w, t.w, b)
    ensures Section(s, t, {s.h.blocks[i]})
  {
    ReleaseKeepsInv(s.h, i);
    StillUsed(s.h, t.h, {s.h.blocks[i]}, {});
  }

  lemma ShrinkSection(s: World, t: World, i: nat, n: nat)
    requires Sound(s) && Sound(t) && i < |s.h.blocks| && CanShrink(s.h.blocks[i], n) && t.h == Shrink(s.h, i, n)
    requires forall b :: b in s.h.blocks && b.used && b != s.h.blocks[i] ==> SameData(s.w, t.w, b)
    ensures Section(s, t, {s.h.blocks[i]})
  {
    ShrinkKeepsInv(s.h, i, n);
    StillUsed(s.h, t.h, {s.h.blocks[i]}, {Split(s.h.blocks[i], n)[0]});
  }

  lemma StillUsed(h: Heap, g: Heap, gone: set<Block>, come: set<Block>)
    requires UsedSet(Members(g.blocks)) == UsedSet(Members(h.blocks)) - gone + come
    ensures forall b :: b in h.blocks && b.used && b !in gone ==> b in g.blocks
  {
    forall b | b in h.blocks && b.used && b !in gone ensures b in g.blocks {
      assert b in UsedSet(Members(h.blocks));
      assert b in UsedSet(Members(g.blocks));
    }
  }

  /** Writing to the data of its own block, as a user program or a copy does. */
  lemma WriteSection(s: World, v: seq<nat>, i: nat)
    requires Sound(s) && Live(s.h, i) && |v| == |s.w|
    requires forall j :: 0 <= j < |v| && !(s.h.blocks[i].start + HEADER <= 4 * j < s.h.blocks[i].next) ==>
      v[j] == s.w[j]
    ensures Section(s, World(s.h, v), {s.h.blocks[i]})
  {
    DataWritten(s.w, v, s.h.blocks, i, s.h.End());
    AroundSameData(s.w, v, s.h.blocks, i, s.h.End());
  }

  // -------------------------------------------------------------- of the class itself

  ghost function Now(m: SmallMem): World
    reads m, m.mem
  {
    World(m.Abs(), m.mem[..])
  }

  method MallocShared(m: SmallMem, request: nat, ghost s: World) returns (p: Ptr)
    requires m.Valid() && request < SIZE_LIMIT && s == Now(m)
    modifies m, m.mem
    ensures m.Valid() && Section(s, Now(m), {})
  {
    p := m.Malloc(request);
    MallocSection(s, Now(m), request);
  }

  method FreeShared(m: SmallMem, p: Ptr, ghost i: nat)
    requires m.Valid() && Live(m.Abs(), i) && p == At(m.blocks[i].start + HEADER)
    modifies m, m.mem
    ensures m.Valid() && Section(old(Now(m)), Now(m), {old(m.blocks)[i]})
  {
    ghost var s := Now(m);
    m.Drop(p.offset - HEADER, i);
    OthersSame(s, m.mem[..], i);
    FreeSection(s, Now(m), i);
  }

  method ShrinkShared(m: SmallMem, p: Ptr, n: nat, ghost i: nat)
    requires m.Valid() && i < |m.blocks| && p == At(m.blocks[i].start + HEADER) && CanShrink(m.blocks[i], n)
    modifies m, m.mem
    ensures m.Valid() && Section(old(Now(m)), Now(m), {old(m.blocks)[i]})
  {
    ghost var s := Now(m);
    m.ShrinkBlock(p.offset - HEADER, n, i);
    OthersSame(s, m.mem[..], i);
    ShrinkSection(s, Now(m), i, n);
  }

  /** Blocks have different offsets. */
  lemma OthersSame(s: World, v: seq<nat>, i: nat)
    requires Sound(s) && i < |s.h.blocks|
    requires forall b :: b in s.h.blocks && b.used && b.start != s.h.blocks[i].start ==> SameData(s.w, v, b)
    ensures forall b :: b in s.h.blocks && b.used && b != s.h.blocks[i] ==> SameData(s.w, v, b)
  {
    TiledOrdered(s.h.blocks, 0, s.h.End(), MIN_BLOCK);
  }

  // --------------------------------------------------------------------- a shared move

  /** The words of `len` data bytes of a block. */
  ghost function DataAt(b: Block): nat {
    (b.start + HEADER) / 4
  }

  lemma SameWords(w: seq<nat>, v: seq<nat>, b: Block, len: nat)
    requires SameData(w, v, b) && Inside(b, len) && b.next <= 4 * |w|
    ensures Same(w, v, DataAt(b), len / 4)
  {
    var at, n := DataAt(b), len / 4;
    assert 4 * (at + n) <= b.next && b.start + HEADER <= 4 * at;
    assert forall j :: at <= j < at + n ==> v[j] == w[j];
  }

  /**
    The copy of a moving rt_realloc. In `s` the caller has block `b`; in `t` other
    threads have been at work; the allocation makes `u` of it; then words are
    copied, with other threads at work in between; at last, in memory `v`, the old
    block has been freed. The new block then holds what the old one held at first.
    `SameWords` turns what sections leave into what the copy relies on.
   */
  lemma MoveKeepsBytes(s: World, t: World, u: World, b: Block, n: nat, len: nat, events: seq<Event>, v: seq<nat>)
    requires Sound(s) && b in s.h.blocks && b.used && Sound(t) && Leaves(s, t, b)
    requires SizeOk(n, t.h.size) && Choice(t.h, n) < |t.h.blocks|
    requires u.h == Malloc(t.h, n).0 && Section(t, u, {}) && len == Common(b, n)
    ensures Choice(t.h, n) < |u.h.blocks|
    ensures var d := u.h.blocks[Choice(t.h, n)];
      var job := Job(DataAt(d), DataAt(b), len / 4);
      && JobOk(s.w, job)
      && (Finished(u.w, job, events, v) ==> Arrived(s.w, job, v))
  {
    MoveGives(t, u, b, n);
    MoveWords(s, t, u, b, Choice(t.h, n), n, len, events, v);
  }

  /** The new block, and the old one beside it. */
  lemma MoveGives(t: World, u: World, b: Block, n: nat)
    requires Inv(t.h) && b in t.h.blocks && b.used && SizeOk(n, t.h.size)
    requires Choice(t.h, n) < |t.h.blocks| && u.h == Malloc(t.h, n).0
    ensures var k := Choice(t.h, n);
      && Live(u.h, k) && Inside(u.h.blocks[k], n) && u.h.size == t.h.size
      && b in u.h.blocks && b != u.h.blocks[k]
  {
    MoveNew(t.h, n);
    MoveOldLive(t.h, n);
  }

  lemma MoveWords(s: World, t: World, u: World, b: Block, k: nat, n: nat, len: nat, events: seq<Event>, v: seq<nat>)
    requires Sound(u) && Live(u.h, k) && Inside(u.h.blocks[k], n) && SizeOk(n, u.h.size)
    requires b in u.h.blocks && b.used && b != u.h.blocks[k] && len == Common(b, n)
    requires SameData(s.w, t.w, b) && SameData(t.w, u.w, b)
    ensures var d := u.h.blocks[k];
      var job := Job(DataAt(d), DataAt(b), len / 4);
      && JobOk(s.w, job)
      && (Finished(u.w, job, events, v) ==> Arrived(s.w, job, v))
  {
    var d := u.h.blocks[k];
    var i :| 0 <= i < |u.h.blocks| && u.h.blocks[i] == b;
    OldWords(s, t, u, i, n, len);
    JobFits(u, k, i, len);
    FinishedCopies(s.w, u.w, Job(DataAt(d), DataAt(b), len / 4), events, v);
  }

  lemma JobFits(u: World, k: nat, i: nat, len: nat)
    requires Sound(u) && Live(u.h, k) && Live(u.h, i) && i != k
    requires Inside(u.h.blocks[k], len) && Inside(u.h.blocks[i], len)
    ensures JobOk(u.w, Job(DataAt(u.h.blocks[k]), DataAt(u.h.blocks[i]), len / 4))
    ensures u.h.blocks[k].next <= 4 * |u.w|
  {
    DataInside(u.h, k);
    CopyApart(u.h, k, i, u.h.blocks[k].start + HEADER, u.h.blocks[i].start + HEADER, len);
  }

  lemma OldWords(s: World, t: World, u: World, i: nat, n: nat, len: nat)
    requires Sound(u) && i < |u.h.blocks| && SizeOk(n, u.h.size) && len == Common(u.h.blocks[i], n)
    requires SameData(s.w, t.w, u.h.blocks[i]) && SameData(t.w, u.w, u.h.blocks[i])
    ensures Inside(u.h.blocks[i], len) && Same(s.w, u.w, DataAt(u.h.blocks[i]), len / 4)
  {
    CommonFits(u.h, i, n);
    SameWords(s.w, t.w, u.h.blocks[i], len);
    SameWords(t.w, u.w, u.h.blocks[i], len);
  }
}
