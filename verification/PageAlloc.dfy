/**
  The page allocator under the slab: free pages are kept as an address-ordered
  list of runs. The list is the one list of maximal runs of the free-page set, so
  allocation and release are described by that set alone.
 */
module PageAlloc {
  import opened Wrappers

  /** `page` free pages from page number `start` on. */
  datatype Run = Run(start: nat, page: nat)

  ghost predicate Inside(x: nat, a: nat, n: nat) {
    a <= x < a + n
  }

  ghost function Range(a: nat, n: nat): set<nat> {
    set x | a <= x < a + n && Inside(x, a, n)
  }

  /** The set of free pages. */
  ghost function Pages(runs: seq<Run>): set<nat> {
    if runs == [] then {} else Range(runs[0].start, runs[0].page) + Pages(runs[1..])
  }

  /** Non-empty runs from `lo` on, in address order, with a gap after each. */
  ghost predicate Maximal(runs: seq<Run>, lo: nat) {
    runs == [] ||
    (lo <= runs[0].start && runs[0].page > 0 && Maximal(runs[1..], runs[0].start + runs[0].page + 1))
  }

  lemma {:induction false} AtLeast(runs: seq<Run>, lo: nat)
    requires Maximal(runs, lo)
    ensures forall x :: x in Pages(runs) ==> lo <= x
    decreases |runs|
  {
    if runs != [] {
      AtLeast(runs[1..], runs[0].start + runs[0].page + 1);
    }
  }

  // ------------------------------------------------------------------- uniqueness

  /** The first run is determined by the set. */
  lemma FirstRun(x: seq<Run>, y: seq<Run>, lo: nat)
    requires Maximal(x, lo) && Maximal(y, lo) && Pages(x) == Pages(y) && x != [] && y != []
    ensures x[0] == y[0]
  {
    var a, b := x[0], y[0];
    AtLeast(x[1..], a.start + a.page + 1);
    AtLeast(y[1..], b.start + b.page + 1);
    assert a.start in Pages(x) && b.start in Pages(y);
    assert a.start == b.start;
    assert a.start + a.page !in Pages(x) && b.start + b.page !in Pages(y);
    assert a.page < b.page ==> a.start + a.page in Pages(y);
    assert b.page < a.page ==> b.start + b.page in Pages(x);
  }

  /** There is only one list of maximal runs for a set of pages. */
  lemma {:induction false} OneList(x: seq<Run>, y: seq<Run>, lo: nat)
    requires Maximal(x, lo) && Maximal(y, lo) && Pages(x) == Pages(y)
    ensures x == y
    decreases |x|
  {
    assert y != [] ==> y[0].start in Pages(y);
    if x != [] {
      assert x[0].start in Pages(x);
      FirstRun(x, y, lo);
      var next := x[0].start + x[0].page + 1;
      AtLeast(x[1..], next);
      AtLeast(y[1..], next);
      assert Pages(x[1..]) == Pages(x) - Range(x[0].start, x[0].page);
      assert Pages(y[1..]) == Pages(y) - Range(y[0].start, y[0].page);
      OneList(x[1..], y[1..], next);
    }
  }

  // ------------------------------------------------------------------- allocating

  ghost function FirstFit(runs: seq<Run>, n: nat): Option<nat> {
    if runs == [] then None
    else if runs[0].page >= n then Some(runs[0].start)
    else FirstFit(runs[1..], n)
  }

  ghost function Allocate(runs: seq<Run>, n: nat): seq<Run> {
    if runs == [] then []
    else if runs[0].page > n then [Run(runs[0].start + n, runs[0].page - n)] + runs[1..]
    else if runs[0].page == n then runs[1..]
    else [runs[0]] + Allocate(runs[1..], n)
  }

  lemma {:induction false} AllocateKeeps(runs: seq<Run>, n: nat, lo: nat)
    requires Maximal(runs, lo)
    ensures Maximal(Allocate(runs, n), lo)
    decreases |runs|
  {
    if runs != [] {
      var b := runs[0];
      AllocateKeeps(runs[1..], n, b.start + b.page + 1);
      var r := Allocate(runs, n);
      if b.page > n {
        assert r[1..] == runs[1..];
      } else if b.page < n {
        assert r[1..] == Allocate(runs[1..], n);
      }
    }
  }

  /** What was found is taken out, and was free. */
  lemma {:induction false} AllocatePages(runs: seq<Run>, n: nat, lo: nat)
    requires Maximal(runs, lo) && n > 0
    ensures var f := FirstFit(runs, n);
      if f.None? then Allocate(runs, n) == runs
      else Range(f.value, n) <= Pages(runs) && Pages(Allocate(runs, n)) == Pages(runs) - Range(f.value, n)
    decreases |runs|
  {
    if runs != [] {
      var b, rest := runs[0], runs[1..];
      var next := b.start + b.page + 1;
      AtLeast(rest, next);
      AllocatePages(rest, n, next);
      var r := Allocate(runs, n);
      if b.page > n {
        assert r[1..] == rest;
        assert Range(b.start, b.page) == Range(b.start, n) + Range(b.start + n, b.page - n);
      } else if b.page < n {
        assert r[1..] == Allocate(rest, n);
        AtLeast(rest, next);
      }
    }
  }

  /** Runs that are too small are passed over. */
  lemma {:induction false} AllocateFrom(pre: seq<Run>, post: seq<Run>, n: nat)
    requires forall i :: 0 <= i < |pre| ==> pre[i].page < n
    ensures FirstFit(pre + post, n) == FirstFit(post, n)
    ensures Allocate(pre + post, n) == pre + Allocate(post, n)
    decreases |pre|
  {
    if pre == [] {
      assert pre + post == post && pre + Allocate(post, n) == Allocate(post, n);
    } else {
      AllocateFrom(pre[1..], post, n);
      var all, rest := pre + post, Allocate(post, n);
      assert all[0] == pre[0] && all[1..] == pre[1..] + post;
      assert Allocate(all, n) == [all[0]] + Allocate(all[1..], n);
      assert [pre[0]] + (pre[1..] + rest) == pre + rest;
    }
  }

  /** First fit is the lowest place where `n` successive pages are free. */
  lemma {:induction false} FirstFitLowest(runs: seq<Run>, n: nat, lo: nat, a: nat)
    requires Maximal(runs, lo) && n > 0 && Range(a, n) <= Pages(runs)
    ensures FirstFit(runs, n).Some? && FirstFit(runs, n).value <= a
    decreases |runs|
  {
    assert a in Range(a, n);
    var b, rest := runs[0], runs[1..];
    var end := b.start + b.page;
    AtLeast(runs, lo);
    AtLeast(runs, b.start);
    AtLeast(rest, end + 1);
    assert end !in Pages(runs);
    if a < end {
      assert end !in Range(a, n);
      assert a + n <= end;
    } else {
      assert forall x :: x in Range(a, n) ==> x in Pages(rest);
      FirstFitLowest(rest, n, end + 1, a);
    }
  }

  // -------------------------------------------------------------------- releasing

  ghost function Release(runs: seq<Run>, a: nat, n: nat): seq<Run> {
    if runs == [] then [Run(a, n)]
    else
      var b, rest := runs[0], runs[1..];
      if b.start + b.page == a then
        if rest != [] && a + n == rest[0].start then [Run(b.start, b.page + n + rest[0].page)] + rest[1..]
        else [Run(b.start, b.page + n)] + rest
      else if b.start == a + n then [Run(a, b.page + n)] + rest
      else if b.start > a + n then [Run(a, n)] + runs
      else [b] + Release(rest, a, n)
  }

  /** The released pages lie clear of the free ones. */
  ghost predicate Clear(runs: seq<Run>, a: nat, n: nat) {
    forall x :: x in Pages(runs) ==> !(a <= x < a + n)
  }

  lemma ClearOf(runs: seq<Run>, a: nat, n: nat)
    requires Range(a, n) !! Pages(runs)
    ensures Clear(runs, a, n)
  {
    forall x | x in Pages(runs) ensures !(a <= x < a + n) {
      assert x !in Range(a, n);
    }
  }

  /** A run is entirely before or entirely behind the released pages. */
  lemma RunClear(runs: seq<Run>, lo: nat, a: nat, n: nat)
    requires Maximal(runs, lo) && runs != [] && Clear(runs, a, n) && n > 0
    ensures runs[0].start + runs[0].page <= a || a + n <= runs[0].start
    ensures Clear(runs[1..], a, n)
  {
    var b := runs[0];
    assert b.start in Pages(runs);
    assert b.start < a < b.start + b.page ==> a in Pages(runs);
  }

  lemma {:induction false} ReleaseKeeps(runs: seq<Run>, a: nat, n: nat, lo: nat)
    requires Maximal(runs, lo) && Clear(runs, a, n) && n > 0 && lo <= a
    ensures Maximal(Release(runs, a, n), lo)
    ensures Release(runs, a, n) != []
    decreases |runs|
  {
    if runs != [] {
      var b, rest := runs[0], runs[1..];
      RunClear(runs, lo, a, n);
      var r := Release(runs, a, n);
      if b.start + b.page == a {
        if rest != [] {
          RunClear(rest, a + 1, a, n);
        }
      } else if b.start + b.page < a {
        ReleaseKeeps(rest, a, n, b.start + b.page + 1);
        assert r[1..] == Release(rest, a, n);
      } else if b.start > a + n {
        assert r[1..] == runs;
      }
    }
  }

  /** Runs that end before the released pages are passed over. */
  lemma {:induction false} ReleaseFrom(pre: seq<Run>, post: seq<Run>, a: nat, n: nat)
    requires forall i :: 0 <= i < |pre| ==> pre[i].start + pre[i].page < a
    ensures Release(pre + post, a, n) == pre + Release(post, a, n)
    decreases |pre|
  {
    if pre == [] {
      assert pre + post == post && pre + Release(post, a, n) == Release(post, a, n);
    } else {
      ReleaseFrom(pre[1..], post, a, n);
      assert (pre + post)[1..] == pre[1..] + post;
    }
  }

  /** Exactly the released pages become free. */
  lemma {:induction false} ReleasePages(runs: seq<Run>, a: nat, n: nat, lo: nat)
    requires Maximal(runs, lo) && Clear(runs, a, n) && n > 0
    ensures Pages(Release(runs, a, n)) == Pages(runs) + Range(a, n)
    decreases |runs|
  {
    if runs == [] {
      assert [Run(a, n)][1..] == [];
    } else {
      var b, rest := runs[0], runs[1..];
      RunClear(runs, lo, a, n);
      var r := Release(runs, a, n);
      if b.start + b.page == a {
        JoinRange(b.start, b.page, n);
        if rest != [] && a + n == rest[0].start {
          JoinRange(b.start, b.page + n, rest[0].page);
          assert r[1..] == rest[1..];
        } else {
          assert r[1..] == rest;
        }
      } else if b.start == a + n {
        JoinRange(a, n, b.page);
        assert r[1..] == rest;
      } else if b.start > a + n {
        assert r[1..] == runs;
      } else {
        ReleasePages(rest, a, n, b.start + b.page + 1);
        assert r[1..] == Release(rest, a, n);
      }
    }
  }

  lemma JoinRange(a: nat, m: nat, n: nat)
    ensures Range(a, m) + Range(a + m, n) == Range(a, m + n)
  {
  }

  /** Freeing what was just allocated restores the identical list. */
  lemma AllocThenFree(runs: seq<Run>, n: nat)
    requires Maximal(runs, 0) && n > 0 && FirstFit(runs, n).Some?
    ensures Release(Allocate(runs, n), FirstFit(runs, n).value, n) == runs
  {
    var a, r := FirstFit(runs, n).value, Allocate(runs, n);
    AllocateKeeps(runs, n, 0);
    AllocatePages(runs, n, 0);
    ReleaseKeeps(r, a, n, 0);
    ReleasePages(r, a, n, 0);
    assert Pages(r) + Range(a, n) == Pages(runs);
    OneList(Release(r, a, n), runs, 0);
  }

  /** The order in which two disjoint ranges are freed does not matter. */
  lemma FreeCommutes(runs: seq<Run>, a: nat, m: nat, b: nat, n: nat)
    requires Maximal(runs, 0) && m > 0 && n > 0
    requires Clear(runs, a, m) && Clear(runs, b, n) && Range(a, m) !! Range(b, n)
    ensures Release(Release(runs, a, m), b, n) == Release(Release(runs, b, n), a, m)
  {
    ReleaseKeeps(runs, a, m, 0);
    ReleasePages(runs, a, m, 0);
    ReleaseKeeps(runs, b, n, 0);
    ReleasePages(runs, b, n, 0);
    var x, y := Release(runs, a, m), Release(runs, b, n);
    ClearOf(x, b, n);
    ClearOf(y, a, m);
    ReleaseKeeps(x, b, n, 0);
    ReleasePages(x, b, n, 0);
    ReleaseKeeps(y, a, m, 0);
    ReleasePages(y, a, m, 0);
    assert Pages(runs) + Range(a, m) + Range(b, n) == Pages(runs) + Range(b, n) + Range(a, m);
    OneList(Release(x, b, n), Release(y, a, m), 0);
  }

  // ----------------------------------------------------------------------- object

  class PageList {
    var runs: seq<Run>

    ghost predicate Valid()
      reads this
    {
      Maximal(runs, 0)
    }

    /** rt_page_init: one run. */
    constructor (a: nat, n: nat)
      requires n > 0
      ensures Valid() && Pages(runs) == Range(a, n)
    {
      runs := [Run(a, n)];
      new;
      ReleaseKeeps([], a, n, 0);
      ReleasePages([], a, n, 0);
    }

    /**
      rt_page_alloc: the lowest place with `n` successive free pages, and no page
      only if there is none.
     */
    method Alloc(n: nat) returns (r: Option<nat>)
      requires Valid()
      modifies this
      ensures Valid()
      ensures n == 0 ==> r == None && runs == old(runs)
      ensures n > 0 ==> r == FirstFit(old(runs), n) && runs == Allocate(old(runs), n)
      ensures r.None? ==> runs == old(runs)
      ensures r.None? && n > 0 ==> forall a :: !(Range(a, n) <= Pages(runs))
      ensures r.Some? ==> Range(r.value, n) <= Pages(old(runs)) && Pages(runs) == Pages(old(runs)) - Range(r.value, n)
      ensures r.Some? ==> forall a {:trigger Range(a, n)} :: Range(a, n) <= Pages(old(runs)) ==> r.value <= a
    {
      if n == 0 {
        return None;
      }
      ghost var before := runs;
      r := Cut(n);
      AllocateKeeps(before, n, 0);
      AllocatePages(before, n, 0);
      forall a | Range(a, n) <= Pages(before) ensures FirstFit(before, n).Some? && FirstFit(before, n).value <= a {
        FirstFitLowest(before, n, 0, a);
      }
    }

    /** The search loop of rt_page_alloc. */
    method Cut(n: nat) returns (r: Option<nat>)
      requires n > 0
      modifies this
      ensures r == FirstFit(old(runs), n) && runs == Allocate(old(runs), n)
    {
      var k := 0;
      while k < |runs|
        invariant k <= |runs| && runs == old(runs)
        invariant forall i :: 0 <= i < k ==> runs[i].page < n
      {
        var b := runs[k];
        if b.page >= n {
          Parts(runs, k);
          AllocateFrom(runs[..k], runs[k..], n);
          if b.page > n {
            runs := runs[..k] + ([Run(b.start + n, b.page - n)] + runs[k + 1..]);
          } else {
            runs := runs[..k] + runs[k + 1..];
          }
          return Some(b.start);
        }
        k := k + 1;
      }
      Parts(runs, k);
      AllocateFrom(runs[..k], runs[k..], n);
      return None;
    }

    static lemma Parts(runs: seq<Run>, k: nat)
      requires k <= |runs|
      ensures runs == runs[..k] + runs[k..]
      ensures k < |runs| ==> runs[k..][0] == runs[k] && runs[k..][1..] == runs[k + 1..]
      ensures k + 1 < |runs| ==> runs[k + 1..][0] == runs[k + 1] && runs[k + 1..][1..] == runs[k + 2..]
    {
    }

    /** rt_page_free of pages that are not free. */
    method Free(a: nat, n: nat)
      requires Valid() && n > 0 && Range(a, n) !! Pages(runs)
      modifies this
      ensures Valid() && runs == Release(old(runs), a, n)
      ensures Pages(runs) == Pages(old(runs)) + Range(a, n)
    {
      ghost var before := runs;
      ClearOf(before, a, n);
      Link(a, n);
      ReleaseKeeps(before, a, n, 0);
      ReleasePages(before, a, n, 0);
    }

    /** The search loop of rt_page_free. */
    method Link(a: nat, n: nat)
      requires Valid() && n > 0 && Clear(runs, a, n)
      modifies this
      ensures runs == Release(old(runs), a, n)
    {
      var k := 0;
      ghost var lo: nat := 0;
      while k < |runs|
        invariant k <= |runs| && runs == old(runs)
        invariant Maximal(runs[k..], lo) && Clear(runs[k..], a, n)
        invariant forall i :: 0 <= i < k ==> runs[i].start + runs[i].page < a
      {
        var b := runs[k];
        Parts(runs, k);
        RunClear(runs[k..], lo, a, n);
        ReleaseFrom(runs[..k], runs[k..], a, n);
        if b.start + b.page == a {
          if k + 1 < |runs| && a + n == runs[k + 1].start {
            runs := runs[..k] + ([Run(b.start, b.page + n + runs[k + 1].page)] + runs[k + 2..]);
          } else {
            runs := runs[..k] + ([Run(b.start, b.page + n)] + runs[k + 1..]);
          }
          return;
        }
        if b.start == a + n {
          runs := runs[..k] + ([Run(a, b.page + n)] + runs[k + 1..]);
          return;
        }
        if b.start > a + n {
          break;
        }
        lo := b.start + b.page + 1;
        k := k + 1;
      }
      Parts(runs, k);
      ReleaseFrom(runs[..k], runs[k..], a, n);
      runs := runs[..k] + ([Run(a, n)] + runs[k..]);
    }
  }
}
