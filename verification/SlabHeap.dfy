/**
  The slab heap as a whole: zones and large allocations on pages of one page
  allocator, with the page descriptors by which rt_free finds a zone. The heap
  lock is released around every call of the page allocator, so pages can be in
  the hands of a running call while other threads allocate and free.
 */
module SlabHeap {
  import opened Wrappers
  import opened NodeList
  import opened Arithmetic
  import opened PageAlloc
  import opened SlabSpec

  const PAGE: nat := 4096

  /** The descriptor of a page: its type and its size field. */
  datatype Usage = Unset | Small(off: nat) | Large(count: nat)

  /**
    `spans` are the page ranges given out, by first page: the zones, the retired
    zones, the large allocations, those held by a running call, and the table of
    descriptors. The pool is the pages from `base` on.
   */
  datatype Heap = Heap(base: nat, total: nat, slab: Slab, runs: seq<Run>, usage: map<nat, Usage>,
    spans: map<nat, nat>, large: set<nat>, moving: set<nat>, table: nat)

  function ZonePages(h: Heap): nat {
    h.slab.zoneSize / PAGE
  }

  ghost function Look(usage: map<nat, Usage>, page: nat): Usage {
    if page in usage then usage[page] else Unset
  }

  // ---------------------------------------------------------------------- invariant

  ghost predicate Disjoint(a: nat, m: nat, b: nat, n: nat) {
    a + m <= b || b + n <= a
  }

  ghost predicate Covered(spans: map<nat, nat>, x: nat) {
    exists a :: a in spans && Inside(x, a, spans[a])
  }

  /** Spans are disjoint from each other and from the free pages. */
  ghost predicate SpansOk(spans: map<nat, nat>, runs: seq<Run>) {
    && Maximal(runs, 0)
    && (forall a :: a in spans ==> spans[a] > 0 && Clear(runs, a, spans[a]))
    && (forall a, b :: a in spans && b in spans && a != b ==> Disjoint(a, spans[a], b, spans[b]))
  }

  /** No page is lost: each page of the pool is free or in a span. */
  ghost predicate Conserved(h: Heap) {
    forall x: nat :: Inside(x, h.base, h.total) <==> x in Pages(h.runs) || Covered(h.spans, x)
  }

  ghost predicate Zoned(s: Slab, z: nat) {
    z in s.zones || z in s.retired
  }

  /** Every span has exactly one owner. */
  ghost predicate OwnersOk(h: Heap) {
    && (forall a :: a in h.spans <==> Zoned(h.slab, a) || a in h.large || a in h.moving || a == h.table)
    && (forall a :: Zoned(h.slab, a) ==> a !in h.large && a !in h.moving && a != h.table)
    && h.large !! h.moving && h.table !in h.large && h.table !in h.moving
    && (forall z :: Zoned(h.slab, z) ==> z in h.spans && h.spans[z] == ZonePages(h))
  }

  /** The descriptors say how far a page of a zone is from its start, and how long a large allocation is. */
  ghost predicate UsageOk(h: Heap) {
    && (forall z: nat, x: nat :: Zoned(h.slab, z) && Inside(x, z, ZonePages(h)) ==> Look(h.usage, x) == Small(x - z))
    && (forall a :: a in h.large && a in h.spans ==> Look(h.usage, a) == Large(h.spans[a]))
  }

  ghost predicate Layout(h: Heap) {
    SpansOk(h.spans, h.runs) && Conserved(h) && OwnersOk(h) && UsageOk(h)
  }

  ghost predicate Inv(h: Heap) {
    SlabSpec.Inv(h.slab) && Layout(h)
  }

  // -------------------------------------------------------------------------- steps

  datatype Step =
    | Reuse(n: nat)            // rt_malloc below the limit, first section
    | Grab(count: nat)         // rt_page_alloc by some call
    | Build(z: nat, n: nat)    // rt_malloc below the limit, second section
    | Keep(a: nat)             // rt_malloc from the limit on, after its rt_page_alloc
    | Free(z: nat, k: nat)     // rt_free of a chunk, the locked section
    | Drop(a: nat)             // rt_free of a large allocation, the locked section
    | Return(a: nat)           // rt_page_free by some call

  ghost predicate Enabled(h: Heap, step: Step) {
    match step
    case Reuse(n) => 0 < n < Limit(h.slab.zoneSize)
    case Grab(_) => true
    case Build(z, n) => z in h.moving && z in h.spans && h.spans[z] == ZonePages(h) && 0 < n < Limit(h.slab.zoneSize)
    case Keep(a) => a in h.moving && a in h.spans
    case Free(z, k) => LiveIn(h.slab, z, k)
    case Drop(a) => a in h.large && a in h.spans
    case Return(a) => a in h.moving && a in h.spans
  }

  ghost function MarkZone(usage: map<nat, Usage>, z: nat, n: nat): map<nat, Usage> {
    usage + map x | x in Range(z, n) :: Small(x - z)
  }

  ghost function Unmark(usage: map<nat, Usage>, z: nat, n: nat): map<nat, Usage> {
    usage - Range(z, n)
  }

  ghost function GrabPages(h: Heap, count: nat): Heap {
    match FirstFit(h.runs, count)
    case None => h
    case Some(p) => h.(runs := Allocate(h.runs, count), spans := h.spans[p := count], moving := h.moving + {p})
  }

  ghost function FreeChunk(h: Heap, z: nat, k: nat): Heap
    requires z in h.slab.zones && h.slab.zones[z].index < |h.slab.zoneArray|
  {
    var s := DoFree(h.slab, z, k);
    if Zoned(s, z) then h.(slab := s)
    else h.(slab := s, usage := Unmark(h.usage, z, ZonePages(h)), moving := h.moving + {z})
  }

  ghost function Next(h: Heap, step: Step): Heap
    requires SlabSpec.Inv(h.slab) && Enabled(h, step)
  {
    match step
    case Reuse(n) => h.(slab := SlabSpec.Reuse(h.slab, n).0)
    case Grab(count) => if count == 0 then h else GrabPages(h, count)
    case Build(z, n) =>
      h.(slab := SlabSpec.Build(h.slab, n, z).0, usage := MarkZone(h.usage, z, ZonePages(h)), moving := h.moving - {z})
    case Keep(a) => h.(usage := h.usage[a := Large(h.spans[a])], moving := h.moving - {a}, large := h.large + {a})
    case Free(z, k) => FreeChunk(h, z, k)
    case Drop(a) => h.(usage := h.usage[a := Large(0)], moving := h.moving + {a}, large := h.large - {a})
    case Return(a) => h.(runs := Release(h.runs, a, h.spans[a]), spans := h.spans - {a}, moving := h.moving - {a})
  }

  // ---------------------------------------------------------------- pages come and go

  lemma GrabSpans(h: Heap, count: nat, p: nat)
    requires SpansOk(h.spans, h.runs) && Conserved(h) && count > 0 && FirstFit(h.runs, count) == Some(p)
    ensures p !in h.spans
    ensures SpansOk(GrabPages(h, count).spans, GrabPages(h, count).runs) && Conserved(GrabPages(h, count))
  {
    AllocateKeeps(h.runs, count, 0);
    AllocatePages(h.runs, count, 0);
    var r := Allocate(h.runs, count);
    assert forall x :: x in Pages(r) <==> x in Pages(h.runs) && !Inside(x, p, count);
    assert p in Range(p, count);
    forall a | a in h.spans ensures Disjoint(a, h.spans[a], p, count) {
      assert Inside(a, p, count) ==> a in Range(p, count);
    }
    GrabConserves(h, count, p);
  }

  lemma GrabConserves(h: Heap, count: nat, p: nat)
    requires SpansOk(h.spans, h.runs) && Conserved(h) && p !in h.spans && Range(p, count) <= Pages(h.runs)
    requires FirstFit(h.runs, count) == Some(p)
    requires forall x :: x in Pages(Allocate(h.runs, count)) <==> x in Pages(h.runs) && !Inside(x, p, count)
    ensures Conserved(GrabPages(h, count))
  {
    var g := GrabPages(h, count);
    forall x: nat ensures Inside(x, h.base, h.total) <==> x in Pages(g.runs) || Covered(g.spans, x) {
      CoverMore(h.spans, p, count, x);
      assert Inside(x, p, count) ==> x in Range(p, count);
    }
  }

  lemma CoverMore(spans: map<nat, nat>, p: nat, n: nat, x: nat)
    requires p !in spans
    ensures Covered(spans[p := n], x) <==> Covered(spans, x) || Inside(x, p, n)
  {
    var more := spans[p := n];
    assert forall a :: a in spans ==> a in more && more[a] == spans[a];
    assert p in more && more[p] == n;
  }

  lemma ReturnSpans(h: Heap, a: nat)
    requires SpansOk(h.spans, h.runs) && Conserved(h) && a in h.spans
    ensures var r := Release(h.runs, a, h.spans[a]);
      SpansOk(h.spans - {a}, r) && Conserved(h.(runs := r, spans := h.spans - {a}))
  {
    var n := h.spans[a];
    ReleaseKeeps(h.runs, a, n, 0);
    ReleasePages(h.runs, a, n, 0);
    var r, less := Release(h.runs, a, n), h.spans - {a};
    assert less[a := n] == h.spans;
    forall b | b in less ensures Clear(r, b, less[b]) {
      assert Disjoint(a, n, b, less[b]);
      assert forall x :: x in Range(a, n) ==> Inside(x, a, n);
    }
    forall x: nat ensures Inside(x, h.base, h.total) <==> x in Pages(r) || Covered(less, x) {
      CoverMore(less, a, n, x);
      assert Inside(x, a, n) <==> x in Range(a, n);
    }
  }

  lemma GrabLayout(h: Heap, count: nat)
    requires Layout(h) && count > 0
    ensures Layout(GrabPages(h, count))
  {
    if FirstFit(h.runs, count).Some? {
      GrabSpans(h, count, FirstFit(h.runs, count).value);
    }
  }

  lemma ReturnLayout(h: Heap, a: nat)
    requires Layout(h) && a in h.moving
    ensures a in h.spans
    ensures Layout(h.(runs := Release(h.runs, a, h.spans[a]), spans := h.spans - {a}, moving := h.moving - {a}))
  {
    ReturnSpans(h, a);
    assert !Zoned(h.slab, a);
  }

  // ------------------------------------------------------------- zones come and go

  /** The slab may change as long as the same pages are zones. */
  lemma SameLayout(h: Heap, s: Slab)
    requires Layout(h) && s.zoneSize == h.slab.zoneSize && forall z :: Zoned(s, z) <==> Zoned(h.slab, z)
    ensures Layout(h.(slab := s))
  {
  }

  /** Descriptors outside the pages from `z` on are not touched. */
  ghost predicate Elsewhere(z: nat, n: nat, usage: map<nat, Usage>, usage': map<nat, Usage>) {
    forall x: nat :: !Inside(x, z, n) ==> Look(usage', x) == Look(usage, x)
  }

  /** So changing the descriptors of one span leaves those of the others right. */
  lemma OthersMarked(h: Heap, z: nat, usage: map<nat, Usage>)
    requires Layout(h) && z in h.spans && Elsewhere(z, h.spans[z], h.usage, usage)
    ensures forall y: nat, x: nat :: Zoned(h.slab, y) && y != z && Inside(x, y, ZonePages(h)) ==>
      Look(usage, x) == Small(x - y)
    ensures forall a :: a in h.large && a in h.spans && a != z ==> Look(usage, a) == Large(h.spans[a])
  {
    forall y: nat, x: nat | Zoned(h.slab, y) && y != z && Inside(x, y, ZonePages(h))
      ensures Look(usage, x) == Small(x - y)
    {
      assert Disjoint(y, h.spans[y], z, h.spans[z]);
    }
    forall a | a in h.large && a in h.spans && a != z ensures Look(usage, a) == Large(h.spans[a]) {
      assert Disjoint(a, h.spans[a], z, h.spans[z]);
    }
  }

  lemma MarkIs(usage: map<nat, Usage>, z: nat, n: nat)
    ensures Elsewhere(z, n, usage, MarkZone(usage, z, n)) && Elsewhere(z, n, usage, Unmark(usage, z, n))
    ensures forall x: nat :: Inside(x, z, n) ==> Look(MarkZone(usage, z, n), x) == Small(x - z)
  {
    assert forall x: nat :: Inside(x, z, n) <==> x in Range(z, n);
  }

  lemma BuildLayout(h: Heap, z: nat, s: Slab)
    requires Layout(h) && z in h.moving && z in h.spans && h.spans[z] == ZonePages(h)
    requires s.zoneSize == h.slab.zoneSize && forall y :: Zoned(s, y) <==> Zoned(h.slab, y) || y == z
    ensures Layout(h.(slab := s, usage := MarkZone(h.usage, z, ZonePages(h)), moving := h.moving - {z}))
  {
    MarkIs(h.usage, z, ZonePages(h));
    OthersMarked(h, z, MarkZone(h.usage, z, ZonePages(h)));
  }

  lemma ReleaseLayout(h: Heap, z: nat, s: Slab)
    requires Layout(h) && Zoned(h.slab, z)
    requires s.zoneSize == h.slab.zoneSize && forall y :: Zoned(s, y) <==> Zoned(h.slab, y) && y != z
    ensures Layout(h.(slab := s, usage := Unmark(h.usage, z, ZonePages(h)), moving := h.moving + {z}))
  {
    MarkIs(h.usage, z, ZonePages(h));
    OthersMarked(h, z, Unmark(h.usage, z, ZonePages(h)));
  }

  lemma KeepLayout(h: Heap, a: nat)
    requires Layout(h) && a in h.moving && a in h.spans
    ensures Layout(h.(usage := h.usage[a := Large(h.spans[a])], moving := h.moving - {a}, large := h.large + {a}))
  {
    assert !Zoned(h.slab, a) && a !in h.large;
    OthersMarked(h, a, h.usage[a := Large(h.spans[a])]);
  }

  lemma DropLayout(h: Heap, a: nat)
    requires Layout(h) && a in h.large && a in h.spans
    ensures Layout(h.(usage := h.usage[a := Large(0)], moving := h.moving + {a}, large := h.large - {a}))
  {
    assert !Zoned(h.slab, a);
    OthersMarked(h, a, h.usage[a := Large(0)]);
  }

  // ----------------------------------------------------------------- every step keeps it

  /** Reusing a listed or a retired zone changes nothing about which pages are zones. */
  lemma ReuseZones(s: Slab, n: nat)
    requires SlabSpec.Inv(s) && 0 < n < Limit(s.zoneSize)
    ensures var r := SlabSpec.Reuse(s, n).0;
      r.zoneSize == s.zoneSize && forall z :: Zoned(r, z) <==> Zoned(s, z)
  {
    var i := ZoneIndex(n).1;
    ZoneIndexOk(n);
    if s.zoneArray[i] != [] {
      assert s.zoneArray[i][0] in s.zoneArray[i];
    } else if s.retired != [] {
      HeadTail(s.retired);
    }
  }

  lemma FreeZones(s: Slab, z: nat, k: nat)
    requires SlabSpec.Inv(s) && LiveIn(s, z, k)
    ensures var r := DoFree(s, z, k);
      && r.zoneSize == s.zoneSize && Zoned(s, z)
      && (forall y :: Zoned(r, y) <==> Zoned(s, y) && (y != z || Zoned(r, z)))
  {
  }

  /** Pages in the hands of a call belong to no zone, so what the page allocator gives is fresh. */
  lemma MovingFresh(h: Heap, z: nat)
    requires Inv(h) && z in h.moving
    ensures Fresh(h.slab, Chunk(z, 0))
  {
    assert !Zoned(h.slab, z);
  }

  lemma StepKeeps(h: Heap, step: Step)
    requires Inv(h) && Enabled(h, step)
    ensures Inv(Next(h, step))
  {
    match step
    case Reuse(n) =>
      ReuseOk(h.slab, n);
      ReuseZones(h.slab, n);
      SameLayout(h, SlabSpec.Reuse(h.slab, n).0);
    case Grab(count) =>
      if count > 0 {
        GrabLayout(h, count);
      }
    case Build(z, n) =>
      MovingFresh(h, z);
      BuildOk(h.slab, n, z);
      BuildLayout(h, z, SlabSpec.Build(h.slab, n, z).0);
    case Keep(a) => KeepLayout(h, a);
    case Free(z, k) =>
      FreeOk(h.slab, z, k);
      FreeZones(h.slab, z, k);
      var s := DoFree(h.slab, z, k);
      if Zoned(s, z) {
        SameLayout(h, s);
      } else {
        ReleaseLayout(h, z, s);
      }
    case Drop(a) => DropLayout(h, a);
    case Return(a) => ReturnLayout(h, a);
  }

  // ----------------------------------------------------------------------------- runs

  /** The number of pages for the descriptors of `total` pages, four bytes each. */
  ghost function TablePages(total: nat): nat {
    (total * 4 + PAGE - 1) / PAGE
  }

  /** rt_system_heap_init: all pages free but the table of descriptors, which comes first. */
  ghost function Start(base: nat, total: nat, zoneSize: nat): Heap {
    Heap(base, total, SlabSpec.Init(zoneSize), Allocate([Run(base, total)], TablePages(total)), map[],
      map[base := TablePages(total)], {}, {}, base)
  }

  lemma StartInv(base: nat, total: nat, zoneSize: nat)
    requires total > 0 && ZoneSize(zoneSize)
    ensures Inv(Start(base, total, zoneSize))
  {
    var t, h := TablePages(total), Start(base, total, zoneSize);
    var runs := [Run(base, total)];
    assert 0 < t <= total;
    assert runs[1..] == [] && Maximal(runs, 0);
    AllocateKeeps(runs, t, 0);
    AllocatePages(runs, t, 0);
    assert FirstFit(runs, t) == Some(base) && Pages(runs) == Range(base, total);
    assert Pages(h.runs) == Range(base, total) - Range(base, t);
    forall x: nat ensures Inside(x, base, total) <==> x in Pages(h.runs) || Covered(h.spans, x) {
      CoverMore(map[], base, t, x);
      assert map[][base := t] == h.spans;
      assert x in Range(base, t) <==> Inside(x, base, t);
      assert x in Range(base, total) <==> Inside(x, base, total);
    }
  }

  ghost predicate Possible(h: Heap, steps: seq<Step>)
    decreases |steps|
  {
    steps == [] || (SlabSpec.Inv(h.slab) && Enabled(h, steps[0]) && Possible(Next(h, steps[0]), steps[1..]))
  }

  ghost function Exec(h: Heap, steps: seq<Step>): Heap
    requires Possible(h, steps)
    decreases |steps|
  {
    if steps == [] then h else Exec(Next(h, steps[0]), steps[1..])
  }

  /**
    In every interleaving the pages of zones, retired zones, large allocations
    and running calls are disjoint, none is lost, and the descriptors are right.
   */
  lemma {:induction false} EveryRun(h: Heap, steps: seq<Step>)
    requires Inv(h) && Possible(h, steps)
    ensures Inv(Exec(h, steps))
    decreases |steps|
  {
    if steps != [] {
      StepKeeps(h, steps[0]);
      EveryRun(Next(h, steps[0]), steps[1..]);
    }
  }

  // ------------------------------------------------------------------------ addresses

  /** What user code holds: a live chunk, or a large allocation. */
  datatype Owned = OfZone(z: nat, k: nat) | OfPages(a: nat)

  ghost predicate Holds(h: Heap, o: Owned) {
    match o
    case OfZone(z, k) => LiveIn(h.slab, z, k)
    case OfPages(a) => a in h.large
  }

  /** The first byte and the number of bytes. */
  ghost function Region(h: Heap, o: Owned): (nat, nat)
    requires Inv(h) && Holds(h, o)
  {
    match o
    case OfZone(z, k) => (z * PAGE + Place(h.slab.zones[z], k), h.slab.zones[z].size)
    case OfPages(a) => (a * PAGE, h.spans[a] * PAGE)
  }

  ghost function SpanOf(o: Owned): nat {
    match o
    case OfZone(z, _) => z
    case OfPages(a) => a
  }

  lemma RegionInSpan(h: Heap, o: Owned)
    requires Inv(h) && Holds(h, o)
    ensures var a, (at, n) := SpanOf(o), Region(h, o);
      a in h.spans && n > 0 && a * PAGE <= at && at + n <= (a + h.spans[a]) * PAGE
  {
    if o.OfZone? {
      LiveChunksApart(h.slab, o.z, o.k, o.k);
      assert Zoned(h.slab, o.z);
      assert ZonePages(h) * PAGE == h.slab.zoneSize;
    }
  }

  /** No two things user code holds share a byte, chunks of different zones and large allocations included. */
  lemma AllRegionsApart(h: Heap, o: Owned, p: Owned)
    requires Inv(h) && Holds(h, o) && Holds(h, p) && o != p
    ensures var (at, n) := Region(h, o);
      var (at', n') := Region(h, p);
      at + n <= at' || at' + n' <= at
  {
    RegionInSpan(h, o);
    RegionInSpan(h, p);
    var a, b := SpanOf(o), SpanOf(p);
    if a != b {
      assert Disjoint(a, h.spans[a], b, h.spans[b]);
    } else {
      assert Zoned(h.slab, a) ==> a !in h.large;
      LiveChunksApart(h.slab, a, o.k, p.k);
    }
  }

  /** rt_free finds the zone of a chunk from the descriptor of the page the chunk begins in. */
  lemma FindsZone(h: Heap, z: nat, k: nat)
    requires Inv(h) && LiveIn(h.slab, z, k)
    ensures var page := Region(h, OfZone(z, k)).0 / PAGE;
      Look(h.usage, page) == Small(page - z) && page - Look(h.usage, page).off == z
  {
    RegionInSpan(h, OfZone(z, k));
    var page := Region(h, OfZone(z, k)).0 / PAGE;
    assert Zoned(h.slab, z) && Inside(page, z, ZonePages(h));
  }

  /** And the length of a large allocation from that of its first page. */
  lemma FindsLength(h: Heap, a: nat)
    requires Inv(h) && a in h.large
    ensures Look(h.usage, Region(h, OfPages(a)).0 / PAGE) == Large(h.spans[a])
  {
    MulDiv(a, PAGE);
    assert a in h.spans;
  }

  // ------------------------------------------------------------------------ alignment

  /** A chunk of a power of two begins at a multiple of its size. */
  lemma PowerPlace(z: Zone, k: nat) returns (m: nat)
    requires z.size > 0 && PowerOfTwo(z.size)
    ensures Place(z, k) == m * z.size
  {
    var q := RoundUp(ZONE_HEADER, z.size) / z.size;
    RoundUpIs(ZONE_HEADER, z.size);
    m := q + k;
    Distribute(q, k, z.size);
  }

  lemma Distribute(q: nat, k: nat, d: nat)
    ensures q * d + k * d == (q + k) * d
  {
  }

  lemma SumOfEights(a: nat, b: nat)
    requires a % 8 == 0 && b % 8 == 0
    ensures (a + b) % 8 == 0
  {
  }

  lemma TimesEight(m: nat, d: nat)
    requires d % 8 == 0
    ensures m * d % 8 == 0
  {
    var e := d / 8;
    assert m * d == 0 + (m * e) * 8;
    ModMore(0, m * e, 8);
  }

  /** Every chunk begins at a multiple of 8. */
  lemma PlaceOfEight(z: Zone, k: nat)
    requires z.index < NZONES && z.size == ChunkOf(z.index) && z.size > 0
    ensures Place(z, k) % 8 == 0
  {
    EightDivides(z.index);
    if PowerOfTwo(z.size) {
      var m := PowerPlace(z, k);
      TimesEight(m, z.size);
    } else {
      assert Offset(z.size) == 40;
      TimesEight(k, z.size);
      SumOfEights(40, k * z.size);
    }
  }

  lemma EightDivides(i: nat)
    requires i < NZONES
    ensures ChunkOf(i) > 0 && ChunkOf(i) % 8 == 0
  {
  }

  lemma {:induction false} PowersDivide(a: nat, b: nat)
    requires PowerOfTwo(a) && PowerOfTwo(b) && a <= b
    ensures b % a == 0
    decreases b
  {
    if a == b {
      assert b == 1 * a + 0;
      DivModUnique(b, a, 1, 0);
    } else if a > 1 {
      PowersDivide(a / 2, b / 2);
      var q := (b / 2) / (a / 2);
      assert b / 2 == (a / 2) * q;
      assert b == a * q;
      DivModUnique(b, a, q, 0);
    }
  }

  /**
    Every chunk is aligned to 8 bytes. A chunk whose size is a power of two is
    aligned to its size exactly if its zone is, since zones begin at any page.
   */
  lemma AlignedIff(h: Heap, z: nat, k: nat)
    requires Inv(h) && LiveIn(h.slab, z, k)
    ensures var at, size := Region(h, OfZone(z, k)).0, h.slab.zones[z].size;
      && at % 8 == 0
      && (PowerOfTwo(size) ==> (at % size == 0 <==> z * PAGE % size == 0))
  {
    var c := h.slab.zones[z];
    PlaceOfEight(c, k);
    PageEights(z, Place(c, k));
    if PowerOfTwo(c.size) {
      var m := PowerPlace(c, k);
      ModMore(z * PAGE, m, c.size);
    }
  }

  lemma PageEights(z: nat, n: nat)
    requires n % 8 == 0
    ensures (z * PAGE + n) % 8 == 0
  {
  }

  /** So chunks of a power of two up to a page are aligned to their size in every run. */
  lemma SmallPowersAligned(h: Heap, z: nat, k: nat)
    requires Inv(h) && LiveIn(h.slab, z, k) && PowerOfTwo(h.slab.zones[z].size) && h.slab.zones[z].size <= PAGE
    ensures Region(h, OfZone(z, k)).0 % h.slab.zones[z].size == 0
  {
    AlignedIff(h, z, k);
    PowersTo8192();
    PowersDivide(h.slab.zones[z].size, PAGE);
    PagesDivide(z, h.slab.zones[z].size);
  }

  lemma PagesDivide(z: nat, size: nat)
    requires size > 0 && PAGE % size == 0
    ensures z * PAGE % size == 0
  {
    var q := PAGE / size;
    assert z * PAGE == 0 + (z * q) * size;
    ModMore(0, z * q, size);
  }

  lemma PowersTo8192()
    ensures PowerOfTwo(PAGE) && PowerOfTwo(8192)
  {
    assert PowerOfTwo(1) && PowerOfTwo(2) && PowerOfTwo(4) && PowerOfTwo(8) && PowerOfTwo(16) && PowerOfTwo(32);
    assert PowerOfTwo(64) && PowerOfTwo(128) && PowerOfTwo(256) && PowerOfTwo(512) && PowerOfTwo(1024);
    assert PowerOfTwo(2048);
  }

  /** The first pages that a fresh heap of 64 pages gives for a zone begin at page 1. */
  lemma FirstGrab() returns (g: Heap)
    ensures Inv(Start(0, 64, 0x8000)) && g == Next(Start(0, 64, 0x8000), Grab(8))
    ensures Inv(g) && g.slab == SlabSpec.Init(0x8000) && Enabled(g, Step.Build(1, 8000))
  {
    var s := Start(0, 64, 0x8000);
    StartInv(0, 64, 0x8000);
    assert s.runs == [Run(1, 63)] && FirstFit(s.runs, 8) == Some(1);
    g := Next(s, Grab(8));
    StepKeeps(s, Grab(8));
  }

  /** A zone of chunks of 8192 bytes built of them has its first chunk at a multiple of 8192 plus 4096. */
  lemma LargePowerNotAligned(g: Heap) returns (h: Heap)
    requires Inv(g) && g.slab == SlabSpec.Init(0x8000) && Enabled(g, Step.Build(1, 8000))
    ensures h == Next(g, Step.Build(1, 8000)) && Inv(h)
    ensures LiveIn(h.slab, 1, 0) && h.slab.zones[1].size == 8192 && PowerOfTwo(8192)
    ensures Region(h, OfZone(1, 0)).0 % 8192 == 4096
  {
    h := Next(g, Step.Build(1, 8000));
    StepKeeps(g, Step.Build(1, 8000));
    assert ZoneIndex(8000) == (8192, 63);
    PowersTo8192();
    assert Offset(8192) == 8192;
    assert Region(h, OfZone(1, 0)).0 == 12288;
  }
}
