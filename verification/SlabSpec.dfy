/**
  The zone layer of the slab allocator: requests are rounded to one of 72 chunk
  sizes, each zone serves chunks of one size, and zones that become empty are
  retired.
 */
module SlabSpec {
  import opened NodeList
  import opened Arithmetic

  const NZONES: nat := 72
  const ZONE_HEADER: nat := 36      // sizeof(slab_zone) on a 32-bit target
  const RELEASE_THRESH: nat := 2

  // ------------------------------------------------------------------- chunk sizes

  function RoundUp(n: nat, a: nat): (r: nat)
    requires a > 0
    ensures n <= r
  {
    CeilBounds(n, a);
    (n + a - 1) / a * a
  }

  lemma CeilBounds(n: nat, a: nat)
    requires a > 0
    ensures n <= (n + a - 1) / a * a < n + a
  {
    var q, m := (n + a - 1) / a, (n + a - 1) % a;
    assert n + a - 1 == q * a + m;
  }

  /** zoneindex: the chunk size and the index for a request of `n` bytes. */
  function ZoneIndex(n: nat): (nat, int) {
    if n < 128 then var r := RoundUp(n, 8); (r, r / 8 - 1)
    else if n < 256 then var r := RoundUp(n, 16); (r, r / 16 + 7)
    else if n < 512 then var r := RoundUp(n, 32); (r, r / 32 + 15)
    else if n < 1024 then var r := RoundUp(n, 64); (r, r / 64 + 23)
    else if n < 2048 then var r := RoundUp(n, 128); (r, r / 128 + 31)
    else if n < 4096 then var r := RoundUp(n, 256); (r, r / 256 + 39)
    else if n < 8192 then var r := RoundUp(n, 512); (r, r / 512 + 47)
    else if n < 16384 then var r := RoundUp(n, 1024); (r, r / 1024 + 55)
    else (n, 0)
  }

  /** The chunk size that belongs to an index. */
  ghost function ChunkOf(i: int): int {
    if i < 16 then 8 * (i + 1)
    else if i < 24 then 16 * (i - 7)
    else if i < 32 then 32 * (i - 15)
    else if i < 40 then 64 * (i - 23)
    else if i < 48 then 128 * (i - 31)
    else if i < 56 then 256 * (i - 39)
    else if i < 64 then 512 * (i - 47)
    else 1024 * (i - 55)
  }

  lemma RoundUpIs(n: nat, a: nat)
    requires a > 0
    ensures RoundUp(n, a) == (RoundUp(n, a) / a) * a && RoundUp(n, a) < n + a
  {
    CeilBounds(n, a);
    MulDiv((n + a - 1) / a, a);
  }

  /** The step of the class a request falls into, and what is added to its quotient. */
  ghost function Step(n: nat): (nat, int) {
    if n < 128 then (8, -1) else if n < 256 then (16, 7) else if n < 512 then (32, 15) else if n < 1024 then (64, 23)
    else if n < 2048 then (128, 31) else if n < 4096 then (256, 39) else if n < 8192 then (512, 47) else (1024, 55)
  }

  lemma StepIs(n: nat)
    requires 0 < n < 16384
    ensures var (a, c) := Step(n); a > 0 && ZoneIndex(n) == (RoundUp(n, a), RoundUp(n, a) / a + c)
  {
  }

  /** A multiple of the step, just above `n`, is the chunk size of its index. */
  lemma ChunkAt(n: nat, q: nat)
    requires 0 < n < 16384
    requires var (a, _) := Step(n); n <= q * a < n + a
    ensures var (a, c) := Step(n);
      0 <= q + c < NZONES && ChunkOf(q + c) == q * a && (q + c > 0 ==> ChunkOf(q + c - 1) < n)
  {
  }

  /** Every request below 16384 gets an index below 72 and the chunk size of that index, the least that holds it. */
  lemma ZoneIndexOk(n: nat)
    requires 0 < n < 16384
    ensures var (size, i) := ZoneIndex(n);
      0 <= i < NZONES && size == ChunkOf(i) && n <= size && (i > 0 ==> ChunkOf(i - 1) < n)
  {
    var (a, c) := Step(n);
    StepIs(n);
    RoundUpIs(n, a);
    ChunkAt(n, RoundUp(n, a) / a);
  }

  lemma ChunkOfIncreases(i: int, j: int)
    requires 0 <= i < j < NZONES
    ensures ChunkOf(i) < ChunkOf(j)
  {
  }

  /** Requests share an index exactly if they share a chunk size. */
  lemma SameIndexIff(m: nat, n: nat)
    requires 0 < m < 16384 && 0 < n < 16384
    ensures ZoneIndex(m).1 == ZoneIndex(n).1 <==> ZoneIndex(m).0 == ZoneIndex(n).0
  {
    ZoneIndexOk(m);
    ZoneIndexOk(n);
    var i, j := ZoneIndex(m).1, ZoneIndex(n).1;
    if i < j {
      ChunkOfIncreases(i, j);
    } else if j < i {
      ChunkOfIncreases(j, i);
    }
  }

  // ------------------------------------------------------------------- zone layout

  predicate PowerOfTwo(n: nat) {
    n == 1 || (n > 0 && n % 2 == 0 && PowerOfTwo(n / 2))
  }

  /** Where the chunks of a zone begin: power-of-two chunks are aligned to their size. */
  function Offset(size: nat): nat
    requires size > 0
  {
    if PowerOfTwo(size) then RoundUp(ZONE_HEADER, size) else RoundUp(ZONE_HEADER, 8)
  }

  /** The number of chunks in a new zone. */
  function Capacity(zoneSize: nat, size: nat): int
    requires size > 0
  {
    (zoneSize - Offset(size)) / size
  }

  /** The three zone sizes, and below which request size zones are used. */
  ghost predicate ZoneSize(zoneSize: nat) {
    zoneSize == 0x8000 || zoneSize == 0x1_0000 || zoneSize == 0x2_0000
  }

  function Limit(zoneSize: nat): nat {
    if zoneSize / 4 > 16384 then 16384 else zoneSize / 4
  }

  lemma ChunkBelowLimit(zoneSize: nat, n: nat)
    requires ZoneSize(zoneSize) && 0 < n < Limit(zoneSize)
    ensures 8 <= ZoneIndex(n).0 <= Limit(zoneSize)
  {
    ZoneIndexOk(n);
    var i := ZoneIndex(n).1;
    var top := if zoneSize == 0x8000 then 63 else 71;
    assert ChunkOf(top) == Limit(zoneSize);
    if i > top {
      ChunkOfMonotone(top, i - 1);
    } else {
      ChunkOfMonotone(i, top);
    }
    ChunkOfMonotone(0, i);
  }

  lemma ChunkOfMonotone(i: int, j: int)
    requires 0 <= i <= j < NZONES
    ensures ChunkOf(i) <= ChunkOf(j)
  {
    if i < j {
      ChunkOfIncreases(i, j);
    }
  }

  lemma OffsetBound(size: nat)
    requires 8 <= size
    ensures Offset(size) <= size || (size < ZONE_HEADER && Offset(size) < 72) || Offset(size) < 44
  {
    CeilBounds(ZONE_HEADER, size);
    CeilBounds(ZONE_HEADER, 8);
    if size >= ZONE_HEADER {
      OneChunk(size);
    }
  }

  lemma OneChunk(size: nat)
    requires size >= ZONE_HEADER
    ensures RoundUp(ZONE_HEADER, size) == size
  {
    DivBounds(ZONE_HEADER + size - 1, size, 1);
  }

  /** A new zone holds at least three chunks, so it is still listed after giving one away. */
  lemma AtLeastThree(zoneSize: nat, n: nat)
    requires ZoneSize(zoneSize) && 0 < n < Limit(zoneSize)
    ensures Capacity(zoneSize, ZoneIndex(n).0) >= 3
  {
    var size := ZoneIndex(n).0;
    ChunkBelowLimit(zoneSize, n);
    OffsetBound(size);
    AtLeast(zoneSize - Offset(size), size, 3);
  }

  lemma AtLeast(n: nat, d: nat, k: nat)
    requires d > 0 && k * d <= n
    ensures n / d >= k
  {
    var q, r := n / d, n % d;
    assert n == d * q + r;
    if q < k {
      Apart(d, q, k);
    }
  }

  lemma ChunkInside(zoneSize: nat, size: nat, k: nat)
    requires size > 0 && Offset(size) <= zoneSize && k < Capacity(zoneSize, size)
    ensures ZONE_HEADER <= Offset(size) + k * size && Offset(size) + k * size + size <= zoneSize
  {
    var c := Capacity(zoneSize, size);
    Apart(size, k, c);
    assert c * size <= zoneSize - Offset(size);
  }

  /** The chunks of a zone lie inside it and apart from each other. */
  lemma ChunksApart(zoneSize: nat, size: nat, j: nat, k: nat)
    requires size > 0 && Offset(size) <= zoneSize && j < k < Capacity(zoneSize, size)
    ensures ZONE_HEADER <= Offset(size) + j * size
    ensures Offset(size) + j * size + size <= Offset(size) + k * size
    ensures Offset(size) + k * size + size <= zoneSize
  {
    var c := Capacity(zoneSize, size);
    Apart(size, j, k);
    Apart(size, k, c);
    assert c * size <= zoneSize - Offset(size);
  }

  // -------------------------------------------------------------------------- zones

  datatype Zone = Zone(index: nat, size: nat, nmax: nat, uindex: nat, nfree: nat, freed: seq<nat>)

  /** z_nfree counts the never-used chunks and the freed ones. */
  ghost predicate ZoneOk(z: Zone) {
    && z.uindex < z.nmax && z.nmax >= 3
    && z.nfree == z.nmax - 1 - z.uindex + |z.freed|
    && NoDup(z.freed) && (forall k :: k in z.freed ==> k <= z.uindex)
  }

  ghost predicate Live(z: Zone, k: nat) {
    k <= z.uindex && k !in z.freed
  }

  function NewZone(zoneSize: nat, size: nat, i: nat): Zone
    requires size > 0 && Capacity(zoneSize, size) >= 1
  {
    Zone(i, size, Capacity(zoneSize, size), 0, Capacity(zoneSize, size) - 1, [])
  }

  /** A chunk is taken: a never-used one while there are any, else the last one freed. */
  function Take(z: Zone): (Zone, nat)
    requires z.nfree > 0 && (z.uindex + 1 == z.nmax ==> z.freed != [])
  {
    if z.uindex + 1 != z.nmax then (z.(uindex := z.uindex + 1, nfree := z.nfree - 1), z.uindex + 1)
    else (z.(freed := z.freed[1..], nfree := z.nfree - 1), z.freed[0])
  }

  function Give(z: Zone, k: nat): Zone {
    z.(freed := [k] + z.freed, nfree := z.nfree + 1)
  }

  /** The chunk taken was not live, is live now, and nothing else changes. */
  lemma TakeOk(z: Zone)
    requires ZoneOk(z) && z.nfree > 0
    ensures z.uindex + 1 == z.nmax ==> z.freed != []
    ensures var (r, k) := Take(z);
      ZoneOk(r) && !Live(z, k) && Live(r, k) && (forall j :: j != k ==> (Live(r, j) <==> Live(z, j)))
  {
    if z.uindex + 1 == z.nmax {
      HeadTail(z.freed);
    }
  }

  lemma GiveOk(z: Zone, k: nat)
    requires ZoneOk(z) && Live(z, k)
    ensures ZoneOk(Give(z, k)) && !Live(Give(z, k), k)
    ensures forall j :: j != k ==> (Live(Give(z, k), j) <==> Live(z, j))
  {
    assert ([k] + z.freed)[1..] == z.freed;
  }

  // -------------------------------------------------------------------- pigeonhole

  lemma {:induction false} NoDupSize(list: seq<nat>)
    requires NoDup(list)
    ensures |Members(list)| == |list|
    decreases |list|
  {
    if list != [] {
      NoDupSize(list[1..]);
      assert Members(list) == {list[0]} + Members(list[1..]);
    }
  }

  ghost function Below(m: nat): (s: set<nat>)
    ensures |s| == m && forall k: nat :: k in s <==> k < m
  {
    if m == 0 then {} else Below(m - 1) + {m - 1}
  }

  lemma SameSize(a: set<nat>, b: set<nat>)
    requires a <= b && |a| == |b|
    ensures a == b
  {
    assert b == a + (b - a);
  }

  /** A zone whose chunks are all counted free has no live chunk. */
  lemma AllFree(z: Zone)
    requires ZoneOk(z) && z.nfree == z.nmax
    ensures forall k: nat :: !Live(z, k)
  {
    NoDupSize(z.freed);
    SameSize(Members(z.freed), Below(z.uindex + 1));
    forall k: nat ensures !Live(z, k) {
      if k <= z.uindex {
        assert k in Below(z.uindex + 1);
        assert k in Members(z.freed);
      }
    }
  }

  // --------------------------------------------------------------------------- slab

  datatype Slab = Slab(zoneSize: nat, zones: map<nat, Zone>, zoneArray: seq<seq<nat>>, retired: seq<nat>)

  /** A chunk of a zone, or NULL; also the answer of the page allocator. */
  datatype Ptr = Null | Chunk(zone: nat, k: nat)

  /** zone_array lists exactly the zones of each index that have free chunks. */
  ghost predicate Listed(s: Slab) {
    && |s.zoneArray| == NZONES
    && (forall i :: 0 <= i < NZONES ==> NoDup(s.zoneArray[i]))
    && (forall i, z :: 0 <= i < NZONES ==>
          (z in s.zoneArray[i] <==> z in s.zones && s.zones[z].index == i && s.zones[z].nfree > 0))
  }

  /** Chunks of the size of its index, and as many as the zone holds. */
  ghost predicate Shaped(zoneSize: nat, z: Zone) {
    && z.index < NZONES && z.size == ChunkOf(z.index) && z.size > 0
    && Offset(z.size) <= zoneSize && z.nmax == Capacity(zoneSize, z.size)
  }

  ghost predicate ZonesOk(s: Slab) {
    forall z :: z in s.zones ==> ZoneOk(s.zones[z]) && Shaped(s.zoneSize, s.zones[z])
  }

  ghost predicate RetiredOk(s: Slab) {
    NoDup(s.retired) && |s.retired| <= RELEASE_THRESH && forall z :: z in s.retired ==> z !in s.zones
  }

  ghost predicate Inv(s: Slab) {
    ZoneSize(s.zoneSize) && Listed(s) && ZonesOk(s) && RetiredOk(s)
  }

  ghost predicate LiveIn(s: Slab, z: nat, k: nat) {
    z in s.zones && Live(s.zones[z], k)
  }

  /** Where a chunk lies in its zone. */
  ghost function Place(z: Zone, k: nat): nat
    requires z.size > 0
  {
    Offset(z.size) + k * z.size
  }

  /** Live chunks of a zone lie inside it, behind its header, and apart from each other. */
  lemma LiveChunksApart(s: Slab, z: nat, j: nat, k: nat)
    requires Inv(s) && LiveIn(s, z, j) && LiveIn(s, z, k)
    ensures var c := s.zones[z];
      && ZONE_HEADER <= Place(c, k) && Place(c, k) + c.size <= s.zoneSize
      && (j < k ==> Place(c, j) + c.size <= Place(c, k))
      && (k < j ==> Place(c, k) + c.size <= Place(c, j))
  {
    var c := s.zones[z];
    if j < k {
      ChunksApart(s.zoneSize, c.size, j, k);
    } else if k < j {
      ChunksApart(s.zoneSize, c.size, k, j);
    }
    ChunkInside(s.zoneSize, c.size, k);
  }

  /** One zone changes; it leaves its list when it has become full. */
  ghost function TakeFrom(s: Slab, i: nat): (Slab, Ptr)
    requires i < |s.zoneArray| && s.zoneArray[i] != [] && s.zoneArray[i][0] in s.zones
    requires var z := s.zones[s.zoneArray[i][0]]; z.nfree > 0 && (z.uindex + 1 == z.nmax ==> z.freed != [])
  {
    var z := s.zoneArray[i][0];
    var (r, k) := Take(s.zones[z]);
    var lists := if r.nfree == 0 then s.zoneArray[i := s.zoneArray[i][1..]] else s.zoneArray;
    (s.(zones := s.zones[z := r], zoneArray := lists), Chunk(z, k))
  }

  ghost function AddZone(s: Slab, z: nat, size: nat, i: nat): Slab
    requires i < |s.zoneArray| && size > 0 && Capacity(s.zoneSize, size) >= 1
  {
    s.(zones := s.zones[z := NewZone(s.zoneSize, size, i)], zoneArray := s.zoneArray[i := [z] + s.zoneArray[i]])
  }

  lemma TakeFromKeeps(s: Slab, i: nat)
    requires Inv(s) && i < NZONES && s.zoneArray[i] != []
    ensures var z := s.zoneArray[i][0];
      z in s.zones && s.zones[z].nfree > 0 && (s.zones[z].uindex + 1 == s.zones[z].nmax ==> s.zones[z].freed != [])
    ensures var (r, p) := TakeFrom(s, i);
      && Inv(r) && p.Chunk? && !LiveIn(s, p.zone, p.k) && LiveIn(r, p.zone, p.k)
      && (forall z: nat, k: nat :: (z, k) != (p.zone, p.k) ==> (LiveIn(r, z, k) <==> LiveIn(s, z, k)))
  {
    var z := s.zoneArray[i][0];
    assert z in s.zoneArray[i];
    TakeOk(s.zones[z]);
    HeadTail(s.zoneArray[i]);
  }

  lemma NewZoneOk(zoneSize: nat, n: nat)
    requires ZoneSize(zoneSize) && 0 < n < Limit(zoneSize)
    ensures var (size, i) := ZoneIndex(n);
      && size > 0 && 0 <= i < NZONES && Capacity(zoneSize, size) >= 1
      && ZoneOk(NewZone(zoneSize, size, i)) && Shaped(zoneSize, NewZone(zoneSize, size, i))
  {
    ZoneIndexOk(n);
    ChunkBelowLimit(zoneSize, n);
    AtLeastThree(zoneSize, n);
    OffsetBound(ZoneIndex(n).0);
  }

  lemma AddZoneKeeps(s: Slab, z: nat, n: nat)
    requires Inv(s) && z !in s.zones && z !in s.retired && 0 < n < Limit(s.zoneSize)
    ensures var (size, i) := ZoneIndex(n);
      && size > 0 && 0 <= i < NZONES && Capacity(s.zoneSize, size) >= 1
      && Inv(AddZone(s, z, size, i)) && LiveIn(AddZone(s, z, size, i), z, 0)
      && (forall y: nat, k: nat :: (y, k) != (z, 0) ==> (LiveIn(AddZone(s, z, size, i), y, k) <==> LiveIn(s, y, k)))
  {
    var (size, i) := ZoneIndex(n);
    NewZoneOk(s.zoneSize, n);
    assert z !in s.zoneArray[i];
    assert ([z] + s.zoneArray[i])[1..] == s.zoneArray[i];
  }

  /**
    The first locked section of rt_malloc for a request below the limit: a chunk
    of a listed zone, else of a retired one, else NULL and pages are asked for.
   */
  ghost function Reuse(s: Slab, n: nat): (Slab, Ptr)
    requires Inv(s) && 0 < n < Limit(s.zoneSize)
  {
    var (size, i) := ZoneIndex(n);
    NewZoneOk(s.zoneSize, n);
    if s.zoneArray[i] != [] then
      TakeFromKeeps(s, i);
      TakeFrom(s, i)
    else if s.retired != [] then (AddZone(s.(retired := s.retired[1..]), s.retired[0], size, i), Chunk(s.retired[0], 0))
    else (s, Null)
  }

  /** The second one: the pages become a zone, and its first chunk is taken. */
  ghost function Build(s: Slab, n: nat, z: nat): (Slab, Ptr)
    requires Inv(s) && 0 < n < Limit(s.zoneSize)
  {
    var (size, i) := ZoneIndex(n);
    NewZoneOk(s.zoneSize, n);
    (AddZone(s, z, size, i), Chunk(z, 0))
  }

  /** Both, undisturbed; `page` is what the page allocator answers if it is asked. */
  ghost function DoMalloc(s: Slab, n: nat, page: Ptr): (Slab, Ptr)
    requires Inv(s) && 0 < n < Limit(s.zoneSize)
  {
    if Reuse(s, n).1.Chunk? || page.Null? then Reuse(s, n) else Build(s, n, page.zone)
  }

  /** The list of a zone's index after one of its chunks was freed. */
  ghost function Relist(s: Slab, z: nat): seq<nat>
    requires z in s.zones && s.zones[z].index < |s.zoneArray|
  {
    var i := s.zones[z].index;
    if s.zones[z].nfree == 0 then [z] + s.zoneArray[i] else s.zoneArray[i]
  }

  /** An empty zone is retired if its list has another one; beyond two, its pages are released. */
  ghost predicate Retires(s: Slab, z: nat)
    requires z in s.zones && s.zones[z].index < |s.zoneArray|
  {
    s.zones[z].nfree + 1 == s.zones[z].nmax && |Relist(s, z)| > 1
  }

  /** rt_free of a live chunk of a zone. */
  ghost function DoFree(s: Slab, z: nat, k: nat): Slab
    requires z in s.zones && s.zones[z].index < |s.zoneArray|
  {
    var i, list := s.zones[z].index, Relist(s, z);
    if Retires(s, z) then
      s.(zones := s.zones - {z}, zoneArray := s.zoneArray[i := Without(list, z)],
      retired := if |s.retired| + 1 > RELEASE_THRESH then s.retired else [z] + s.retired)
    else
      s.(zones := s.zones[z := Give(s.zones[z], k)], zoneArray := s.zoneArray[i := list])
  }

  lemma RetiredKeeps(s: Slab)
    requires Inv(s) && s.retired != []
    ensures Inv(s.(retired := s.retired[1..])) && s.retired[0] !in s.retired[1..] && s.retired[0] !in s.zones
  {
    HeadTail(s.retired);
  }

  /** The page allocator gives pages that are in no zone. */
  ghost predicate Fresh(s: Slab, page: Ptr) {
    page.Chunk? ==> page.zone !in s.zones && page.zone !in s.retired
  }

  /** Chunk `p` of at least `n` bytes was not live and is live now, and no other chunk changes. */
  ghost predicate Gives(s: Slab, n: nat, r: Slab, p: Ptr) {
    && p.Chunk? && Inv(r) && !LiveIn(s, p.zone, p.k) && LiveIn(r, p.zone, p.k)
    && r.zones[p.zone].size == ZoneIndex(n).0 && n <= r.zones[p.zone].size
    && forall z: nat, k: nat :: (z, k) != (p.zone, p.k) ==> (LiveIn(r, z, k) <==> LiveIn(s, z, k))
  }

  lemma ReuseOk(s: Slab, n: nat)
    requires Inv(s) && 0 < n < Limit(s.zoneSize)
    ensures var (r, p) := Reuse(s, n);
      if p.Chunk? then Gives(s, n, r, p)
      else
        && r == s && s.retired == []
        && forall z :: z in s.zones && s.zones[z].index == ZoneIndex(n).1 ==> s.zones[z].nfree == 0
  {
    var (size, i) := ZoneIndex(n);
    ZoneIndexOk(n);
    if s.zoneArray[i] != [] {
      TakeFromKeeps(s, i);
      assert s.zoneArray[i][0] in s.zoneArray[i];
    } else if s.retired != [] {
      RetiredKeeps(s);
      AddZoneKeeps(s.(retired := s.retired[1..]), s.retired[0], n);
    }
  }

  lemma BuildOk(s: Slab, n: nat, z: nat)
    requires Inv(s) && 0 < n < Limit(s.zoneSize) && z !in s.zones && z !in s.retired
    ensures var (r, p) := Build(s, n, z); Gives(s, n, r, p)
  {
    ZoneIndexOk(n);
    AddZoneKeeps(s, z, n);
  }

  /**
    A chunk that is returned was not live and is live now, and no other chunk
    changes; NULL comes only when no zone of the index has room, none is retired
    and no page is left.
   */
  lemma MallocOk(s: Slab, n: nat, page: Ptr)
    requires Inv(s) && 0 < n < Limit(s.zoneSize) && Fresh(s, page)
    ensures var (r, p) := DoMalloc(s, n, page);
      if p.Chunk? then Gives(s, n, r, p)
      else
        && r == s && page.Null? && s.retired == []
        && forall z :: z in s.zones && s.zones[z].index == ZoneIndex(n).1 ==> s.zones[z].nfree == 0
  {
    ReuseOk(s, n);
    if Reuse(s, n).1.Null? && page.Chunk? {
      BuildOk(s, n, page.zone);
    }
  }

  lemma FreeListed(s: Slab, z: nat, k: nat)
    requires Inv(s) && LiveIn(s, z, k)
    ensures NoDup(Relist(s, z)) && z in Relist(s, z)
    ensures forall y :: y in Relist(s, z) <==> y == z || y in s.zoneArray[s.zones[z].index]
  {
    var list := s.zoneArray[s.zones[z].index];
    assert ([z] + list)[1..] == list;
  }

  /** Freeing a chunk makes exactly that chunk dead, even when its zone is retired. */
  lemma FreeOk(s: Slab, z: nat, k: nat)
    requires Inv(s) && LiveIn(s, z, k)
    ensures Inv(DoFree(s, z, k)) && !LiveIn(DoFree(s, z, k), z, k)
    ensures forall y: nat, j: nat :: (y, j) != (z, k) ==> (LiveIn(DoFree(s, z, k), y, j) <==> LiveIn(s, y, j))
  {
    GiveOk(s.zones[z], k);
    FreeListed(s, z, k);
    if Retires(s, z) {
      AllFree(Give(s.zones[z], k));
      FreeRetires(s, z, k);
    } else {
      FreeStays(s, z, k);
    }
  }

  lemma FreeStays(s: Slab, z: nat, k: nat)
    requires Inv(s) && LiveIn(s, z, k) && !Retires(s, z)
    ensures Inv(DoFree(s, z, k))
  {
    GiveOk(s.zones[z], k);
    FreeListed(s, z, k);
  }

  lemma FreeRetires(s: Slab, z: nat, k: nat)
    requires Inv(s) && LiveIn(s, z, k) && Retires(s, z)
    ensures Inv(DoFree(s, z, k))
  {
    FreeListed(s, z, k);
    WithoutNoDup(Relist(s, z), z);
    assert ([z] + s.retired)[1..] == s.retired;
  }

  // ------------------------------------------------------------ what freeing does

  /** Another zone of the same index has free chunks. */
  ghost predicate Another(s: Slab, z: nat)
    requires z in s.zones
  {
    exists y :: y in s.zones && y != z && s.zones[y].index == s.zones[z].index && s.zones[y].nfree > 0
  }

  lemma {:induction false} SingleList(list: seq<nat>, z: nat)
    requires NoDup(list) && z in list
    ensures |list| > 1 <==> exists y :: y in list && y != z
  {
    if |list| > 1 {
      assert list[1] in list[1..] && list[0] != list[1];
      assert list[if list[0] == z then 1 else 0] in list && list[if list[0] == z then 1 else 0] != z;
    } else {
      assert list == [z];
    }
  }

  lemma RetiresIff(s: Slab, z: nat, k: nat)
    requires Inv(s) && LiveIn(s, z, k)
    ensures Retires(s, z) <==> s.zones[z].nfree + 1 == s.zones[z].nmax && Another(s, z)
  {
    FreeListed(s, z, k);
    SingleList(Relist(s, z), z);
    var i := s.zones[z].index;
    if Another(s, z) {
      var y :| y in s.zones && y != z && s.zones[y].index == i && s.zones[y].nfree > 0;
      assert y in s.zoneArray[i] && y in Relist(s, z);
    }
    if y :| y in Relist(s, z) && y != z {
      assert y in s.zoneArray[i];
      assert y in s.zones && s.zones[y].index == i && s.zones[y].nfree > 0;
    }
  }

  /**
    A zone stays when one of its chunks is freed, unless that was its last live one
    and another zone of the index has room. Then it is retired, or, if two zones
    already are, leaves for the page allocator. No other zone changes.
   */
  lemma FreeDoes(s: Slab, z: nat, k: nat)
    requires Inv(s) && LiveIn(s, z, k)
    ensures var r, leaves := DoFree(s, z, k), s.zones[z].nfree + 1 == s.zones[z].nmax && Another(s, z);
      && (z in r.zones <==> !leaves) && (!leaves ==> r.retired == s.retired)
      && (leaves && |s.retired| < 2 ==> r.retired == [z] + s.retired)
      && (leaves && |s.retired| == 2 ==> r.retired == s.retired && z !in r.retired)
      && (forall y :: y != z ==> (y in r.zones <==> y in s.zones) && (y in s.zones ==> r.zones[y] == s.zones[y]))
  {
    RetiresIff(s, z, k);
  }

  /** A zone gives its never-used chunks in order, and then takes back the chunk freed last. */
  lemma GiveThenTake(z: Zone, k: nat)
    requires ZoneOk(z) && Live(z, k)
    ensures z.uindex + 1 == z.nmax ==> Take(Give(z, k)) == (z, k)
    ensures z.uindex + 1 != z.nmax ==> Take(Give(z, k)).1 == z.uindex + 1
  {
    assert ([k] + z.freed)[1..] == z.freed;
  }

  // --------------------------------------------------------------------------- runs

  datatype Call = Malloc(n: nat, page: Ptr) | Free(zone: nat, k: nat)

  ghost predicate Enabled(s: Slab, call: Call) {
    match call
    case Malloc(n, page) => 0 < n < Limit(s.zoneSize) && Fresh(s, page)
    case Free(z, k) => LiveIn(s, z, k)
  }

  ghost function Next(s: Slab, call: Call): Slab {
    if !Inv(s) || !Enabled(s, call) then s
    else match call
      case Malloc(n, page) => DoMalloc(s, n, page).0
      case Free(z, k) => DoFree(s, z, k)
  }

  ghost function Exec(s: Slab, calls: seq<Call>): Slab {
    if calls == [] then s else Next(Exec(s, calls[..|calls| - 1]), calls[|calls| - 1])
  }

  ghost function Init(zoneSize: nat): Slab {
    Slab(zoneSize, map[], seq(NZONES, i => []), [])
  }

  /**
    In every run: z_nfree counts the free chunks, each zone_array list holds the
    zones of its index that have some, live chunks are in zones that are not
    retired, and at most two zones are retired.
   */
  lemma {:induction false} EveryRun(zoneSize: nat, calls: seq<Call>)
    requires ZoneSize(zoneSize)
    ensures Inv(Exec(Init(zoneSize), calls))
    decreases |calls|
  {
    if calls != [] {
      var s, call := Exec(Init(zoneSize), calls[..|calls| - 1]), calls[|calls| - 1];
      EveryRun(zoneSize, calls[..|calls| - 1]);
      if Enabled(s, call) {
        match call
        case Malloc(n, page) => MallocOk(s, n, page);
        case Free(z, k) => FreeOk(s, z, k);
      }
    }
  }
}
