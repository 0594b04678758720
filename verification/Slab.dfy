/**
  The zone paths of rt_malloc and rt_free in slab.c, on the zone lists they keep.
  Zones are named by their first page; the pages themselves come from and go back
  to the page allocator.
 */
module Slab {
  import opened NodeList
  import Spec = SlabSpec
  import opened SlabSpec

  /** What taking from the first listed zone gives, in a slab that keeps the invariant. */
  ghost function First(s: Spec.Slab, i: nat): (Spec.Slab, Ptr)
    requires Inv(s) && i < NZONES && s.zoneArray[i] != []
  {
    TakeFromKeeps(s, i);
    TakeFrom(s, i)
  }

  class Slab {
    const zoneSize: nat
    var zones: map<nat, Zone>
    var zoneArray: seq<seq<nat>>
    var zoneFree: seq<nat>

    ghost function Abs(): (s: Spec.Slab)
      reads this
    {
      Spec.Slab(zoneSize, zones, zoneArray, zoneFree)
    }

    ghost predicate Valid()
      reads this
    {
      Inv(Abs())
    }

    constructor (size: nat)
      requires ZoneSize(size)
      ensures Valid() && Abs() == Spec.Init(size)
    {
      zoneSize, zones, zoneFree := size, map[], [];
      zoneArray := seq(NZONES, i => []);
    }

    /** rt_malloc of a request that is served from a zone; `page` is the page allocator's answer if it is asked. */
    method Alloc(n: nat, page: Ptr) returns (p: Ptr)
      requires Valid() && 0 < n < Limit(zoneSize) && Fresh(Abs(), page)
      modifies this
      ensures Valid() && (Abs(), p) == DoMalloc(old(Abs()), n, page)
    {
      ReuseOk(Abs(), n);
      p := ReuseSection(n);
      if p.Null? && page.Chunk? {
        p := BuildSection(n, page.zone);
      }
    }

    /** The section before the heap lock is released to ask for pages. */
    method ReuseSection(n: nat) returns (p: Ptr)
      requires Valid() && 0 < n < Limit(zoneSize)
      modifies this
      ensures Valid() && (Abs(), p) == Reuse(old(Abs()), n)
    {
      ReuseOk(Abs(), n);
      ZoneIndexOk(n);
      var (size, zi) := ZoneIndex(n);
      if zoneArray[zi] != [] {
        p := FromZone(zi);
      } else if zoneFree != [] {
        var z := zoneFree[0];
        zoneFree := zoneFree[1..];
        NewZoneOk(zoneSize, n);
        Enter(z, size, zi);
        p := Chunk(z, 0);
      } else {
        p := Null;
      }
    }

    /** The section after it is taken again. Other threads may have added zones in between. */
    method BuildSection(n: nat, z: nat) returns (p: Ptr)
      requires Valid() && 0 < n < Limit(zoneSize) && z !in zones && z !in zoneFree
      modifies this`zones, this`zoneArray
      ensures Valid() && (Abs(), p) == Build(old(Abs()), n, z)
    {
      BuildOk(Abs(), n, z);
      NewZoneOk(zoneSize, n);
      var (size, zi) := ZoneIndex(n);
      Enter(z, size, zi);
      p := Chunk(z, 0);
    }

    /** A new zone is set up with its first chunk taken, and listed. */
    method Enter(z: nat, size: nat, zi: nat)
      requires zi < |zoneArray| && size > 0 && Capacity(zoneSize, size) >= 1
      modifies this`zones, this`zoneArray
      ensures Abs() == AddZone(old(Abs()), z, size, zi)
    {
      zones := zones[z := NewZone(zoneSize, size, zi)];
      zoneArray := zoneArray[zi := [z] + zoneArray[zi]];
    }

    /** A chunk from the first zone of a list, which leaves the list when it has become full. */
    method FromZone(zi: nat) returns (p: Ptr)
      requires Valid() && zi < NZONES && zoneArray[zi] != []
      modifies this`zones, this`zoneArray
      ensures (Abs(), p) == First(old(Abs()), zi)
    {
      TakeFromKeeps(Abs(), zi);
      var id := zoneArray[zi][0];
      var z := zones[id];
      z := z.(nfree := z.nfree - 1);
      if z.nfree == 0 {
        zoneArray := zoneArray[zi := zoneArray[zi][1..]];
      }
      var k;
      if z.uindex + 1 != z.nmax {
        z := z.(uindex := z.uindex + 1);
        k := z.uindex;
      } else {
        k := z.freed[0];
        z := z.(freed := z.freed[1..]);
      }
      zones := zones[id := z];
      p := Chunk(id, k);
    }

    /** rt_free of a live chunk of a zone. */
    method Free(id: nat, k: nat) returns (released: bool)
      requires Valid() && LiveIn(Abs(), id, k)
      modifies this
      ensures Valid() && Abs() == DoFree(old(Abs()), id, k)
      ensures released <==> old(Retires(Abs(), id) && |zoneFree| == RELEASE_THRESH)
    {
      ghost var s := Abs();
      FreeOk(s, id, k);
      FreeListed(s, id, k);
      var z := Give(zones[id], k);
      var zi := z.index;
      zones := zones[id := z];
      if z.nfree == 1 {
        zoneArray := zoneArray[zi := [id] + zoneArray[zi]];
      }
      released := false;
      if z.nfree == z.nmax && |zoneArray[zi]| > 1 {
        var rest := Cut(zoneArray[zi], id);
        zoneArray := zoneArray[zi := rest];
        zones := zones - {id};
        zoneFree := [id] + zoneFree;
        if |zoneFree| > RELEASE_THRESH {
          zoneFree := zoneFree[1..];
          released := true;
        }
      }
      assert zones == DoFree(s, id, k).zones && zoneArray == DoFree(s, id, k).zoneArray;
    }

    /** The loop that finds a zone in its list, and its removal. */
    static method Cut(list: seq<nat>, id: nat) returns (r: seq<nat>)
      requires id in list && NoDup(list)
      ensures r == Without(list, id)
    {
      var k := 0;
      assert list[0..] == list;
      while list[k] != id
        invariant k < |list| && id in list[k..] && id !in list[..k] && NoDup(list[k..])
        decreases |list| - k
      {
        assert list[k..] == [list[k]] + list[k + 1..] && list[k..][1..] == list[k + 1..];
        assert list[..k + 1] == list[..k] + [list[k]];
        k := k + 1;
      }
      assert list == list[..k] + list[k..] && list[k..][1..] == list[k + 1..];
      WithoutAt(list[..k], list[k..]);
      r := list[..k] + list[k + 1..];
    }
  }
}
