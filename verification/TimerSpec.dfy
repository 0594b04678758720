/**
  The timer list as a flat list: entries with true, unbounded deadlines, sorted
  by deadline and, among equal deadlines, by the order in which they were
  started. Starting, stopping and checking timers are defined on it, and what a
  check does is proved here.
 */
module TimerSpec {

  datatype Entry = Entry(id: nat, due: nat, stamp: nat)

  ghost predicate Before(a: Entry, b: Entry) {
    a.due < b.due || (a.due == b.due && a.stamp < b.stamp)
  }

  /** Deadline order, then start order; in particular no entry twice. */
  ghost predicate Sorted(fl: seq<Entry>) {
    forall i, j :: 0 <= i < j < |fl| ==> Before(fl[i], fl[j])
  }

  /** Plain insertion: behind every entry that is due no later. */
  ghost function Insert(fl: seq<Entry>, e: Entry): (r: seq<Entry>)
    ensures |r| == |fl| + 1
  {
    if fl == [] || e.due < fl[0].due then [e] + fl
    else [fl[0]] + Insert(fl[1..], e)
  }

  ghost function Remove(fl: seq<Entry>, id: nat): seq<Entry> {
    if fl == [] then []
    else if fl[0].id == id then Remove(fl[1..], id)
    else [fl[0]] + Remove(fl[1..], id)
  }

  lemma {:induction false} RemoveAbsent(fl: seq<Entry>, id: nat)
    requires forall i :: 0 <= i < |fl| ==> fl[i].id != id
    ensures Remove(fl, id) == fl
    decreases |fl|
  {
    if fl != [] {
      RemoveAbsent(fl[1..], id);
    }
  }

  ghost function Ids(fl: seq<Entry>): seq<nat> {
    seq(|fl|, i requires 0 <= i < |fl| => fl[i].id)
  }

  lemma IdsFirst(e: Entry, fl: seq<Entry>)
    ensures Ids([e] + fl) == [e.id] + Ids(fl)
  {
  }

  /** Insertion at the one position that keeps the order. */
  lemma {:induction false} InsertAt(fl: seq<Entry>, e: Entry, k: nat)
    requires k <= |fl|
    requires forall i :: 0 <= i < k ==> fl[i].due <= e.due
    requires k < |fl| ==> e.due < fl[k].due
    ensures Insert(fl, e) == fl[..k] + [e] + fl[k..]
    decreases |fl|
  {
    if k > 0 {
      InsertAt(fl[1..], e, k - 1);
      assert fl[..k] == [fl[0]] + fl[1..][..k - 1];
    }
  }

  // ------------------------------------------------------------------- checking

  /** How a timer behaves when it fires: relisted after `some` ticks, or not. */
  datatype Mode = OneShot | Periodic(init: nat)

  /** The entries due at `now`, in list order. */
  ghost function Due(fl: seq<Entry>, now: nat): (r: seq<Entry>)
    ensures |r| <= |fl|
  {
    if fl == [] || fl[0].due > now then [] else [fl[0]] + Due(fl[1..], now)
  }

  /** The entries behind those. */
  ghost function Later(fl: seq<Entry>, now: nat): seq<Entry> {
    fl[|Due(fl, now)|..]
  }

  /** Restart the periodic ones of `fired`, in order, with stamps from `stamp` on. */
  ghost function Relist(fl: seq<Entry>, fired: seq<Entry>, now: nat, stamp: nat, mode: map<nat, Mode>)
      : (seq<Entry>, nat)
    decreases |fired|
  {
    if fired == [] then (fl, stamp)
    else if fired[0].id in mode && mode[fired[0].id].Periodic? then
      Relist(Insert(fl, Entry(fired[0].id, now + mode[fired[0].id].init, stamp)), fired[1..], now, stamp + 1, mode)
    else Relist(fl, fired[1..], now, stamp, mode)
  }

  /** The list after all timers due at `now` have fired. */
  ghost function Settled(fl: seq<Entry>, now: nat, stamp: nat, mode: map<nat, Mode>): (seq<Entry>, nat) {
    Relist(Later(fl, now), Due(fl, now), now, stamp, mode)
  }

  /** A restart of this timer lies in the future. */
  ghost predicate Moves(id: nat, mode: map<nat, Mode>) {
    id in mode && mode[id].Periodic? ==> mode[id].init > 0
  }

  /** One round of the loop of rt_timer_check: fire the first entry. */
  ghost function Fire(fl: seq<Entry>, now: nat, stamp: nat, mode: map<nat, Mode>): (seq<Entry>, nat)
    requires fl != []
  {
    var id := fl[0].id;
    if id in mode && mode[id].Periodic? then (Insert(fl[1..], Entry(id, now + mode[id].init, stamp)), stamp + 1)
    else (fl[1..], stamp)
  }

  /** Inserting a later entry changes neither what is due nor the rest it is inserted into. */
  lemma {:induction false} DueInsert(fl: seq<Entry>, e: Entry, now: nat)
    requires e.due > now
    ensures Due(Insert(fl, e), now) == Due(fl, now)
    ensures Later(Insert(fl, e), now) == Insert(Later(fl, now), e)
    decreases |fl|
  {
    if fl != [] && fl[0].due <= now {
      DueInsert(fl[1..], e, now);
      assert Insert(fl, e)[1..] == Insert(fl[1..], e);
      assert Later(fl, now) == Later(fl[1..], now);
      assert Later(Insert(fl, e), now) == Later(Insert(fl[1..], e), now);
    } else {
      assert Later(fl, now) == fl;
      assert Later(Insert(fl, e), now) == Insert(fl, e);
    }
  }

  /**
    Firing the first due entry, then the remaining due ones, is firing all due
    ones at once: the loop fires exactly the entries due when it starts, in
    order, and restarts the periodic ones in that order.
   */
  lemma FireThenRest(fl: seq<Entry>, now: nat, stamp: nat, mode: map<nat, Mode>)
    requires fl != [] && fl[0].due <= now && Moves(fl[0].id, mode)
    ensures var (g, s) := Fire(fl, now, stamp, mode);
      && Due(fl, now) == [fl[0]] + Due(g, now)
      && Settled(g, now, s, mode) == Settled(fl, now, stamp, mode)
  {
    var id, rest := fl[0].id, fl[1..];
    var (g, s) := Fire(fl, now, stamp, mode);
    assert Due(fl, now) == [fl[0]] + Due(rest, now);
    assert Later(fl, now) == Later(rest, now);
    RelistFirst(Later(rest, now), fl[0], Due(rest, now), now, stamp, mode);
    if id in mode && mode[id].Periodic? {
      var e := Entry(id, now + mode[id].init, stamp);
      DueInsert(rest, e, now);
      assert g == Insert(rest, e);
    } else {
      assert g == rest;
    }
  }

  lemma RelistFirst(fl: seq<Entry>, x: Entry, fired: seq<Entry>, now: nat, stamp: nat, mode: map<nat, Mode>)
    ensures Relist(fl, [x] + fired, now, stamp, mode)
      == if x.id in mode && mode[x.id].Periodic?
         then Relist(Insert(fl, Entry(x.id, now + mode[x.id].init, stamp)), fired, now, stamp + 1, mode)
         else Relist(fl, fired, now, stamp, mode)
  {
    assert ([x] + fired)[1..] == fired;
  }

  /** `Due` is a prefix, and in a sorted list it is everything that is due. */
  lemma {:induction false} DueAll(fl: seq<Entry>, now: nat)
    ensures |Due(fl, now)| <= |fl| && Due(fl, now) == fl[..|Due(fl, now)|]
    ensures Sorted(fl) ==> forall i :: 0 <= i < |fl| ==> (fl[i].due <= now <==> i < |Due(fl, now)|)
    decreases |fl|
  {
    if fl != [] && fl[0].due <= now {
      DueAll(fl[1..], now);
      assert forall i :: 0 < i < |fl| ==> fl[i] == fl[1..][i - 1];
      assert Sorted(fl) ==> Sorted(fl[1..]);
    }
  }

  /** After the relisting nothing is due, since every restart is in the future. */
  lemma {:induction false} RelistNotDue(fl: seq<Entry>, fired: seq<Entry>, now: nat, stamp: nat, mode: map<nat, Mode>)
    requires Due(fl, now) == [] && forall i :: 0 <= i < |fired| ==> Moves(fired[i].id, mode)
    ensures Due(Relist(fl, fired, now, stamp, mode).0, now) == []
    decreases |fired|
  {
    if fired != [] {
      var id := fired[0].id;
      if id in mode && mode[id].Periodic? {
        var e := Entry(id, now + mode[id].init, stamp);
        DueInsert(fl, e, now);
        RelistNotDue(Insert(fl, e), fired[1..], now, stamp + 1, mode);
      } else {
        RelistNotDue(fl, fired[1..], now, stamp, mode);
      }
    }
  }

  // ------------------------------------------------------- whether the loop ends

  ghost predicate Ascending(fl: seq<Entry>) {
    |fl| <= 1 || (fl[0].due <= fl[1].due && Ascending(fl[1..]))
  }

  lemma {:induction false} InsertAscending(fl: seq<Entry>, e: Entry)
    requires Ascending(fl)
    ensures Ascending(Insert(fl, e))
    decreases |fl|
  {
    if fl == [] || e.due < fl[0].due {
      assert ([e] + fl)[1..] == fl;
    } else {
      InsertAscending(fl[1..], e);
      assert Insert(fl, e)[1..] == Insert(fl[1..], e);
    }
  }

  lemma {:induction false} HeadLeast(fl: seq<Entry>)
    requires Ascending(fl)
    ensures forall i :: 0 <= i < |fl| ==> fl[0].due <= fl[i].due
    decreases |fl|
  {
    if |fl| > 1 {
      HeadLeast(fl[1..]);
      assert forall i :: 0 < i < |fl| ==> fl[i] == fl[1..][i - 1];
    }
  }

  lemma {:induction false} InsertHas(fl: seq<Entry>, e: Entry)
    ensures forall x :: x in Insert(fl, e) <==> x == e || x in fl
    decreases |fl|
  {
    if fl != [] && e.due >= fl[0].due {
      InsertHas(fl[1..], e);
      assert fl == [fl[0]] + fl[1..];
    }
  }

  /** The list after `n` rounds of the loop, or after fewer if nothing is due any more. */
  ghost function Rounds(fl: seq<Entry>, now: nat, stamp: nat, mode: map<nat, Mode>, n: nat): (seq<Entry>, nat)
    decreases n
  {
    if n == 0 || Due(fl, now) == [] then (fl, stamp)
    else
      var (g, s) := Fire(fl, now, stamp, mode);
      Rounds(g, now, s, mode, n - 1)
  }

  /** Every timer that is due makes progress when it is restarted. */
  ghost predicate DueMove(fl: seq<Entry>, now: nat, mode: map<nat, Mode>) {
    forall e :: e in Due(fl, now) ==> Moves(e.id, mode)
  }

  /** A due timer that does not: periodic, with `init_tick` 0. */
  ghost predicate Stuck(fl: seq<Entry>, now: nat, mode: map<nat, Mode>) {
    exists e :: e in fl && e.due <= now && !Moves(e.id, mode)
  }

  /** The loop settles the list in as many rounds as timers were due. */
  lemma {:induction false} RoundsSettle(fl: seq<Entry>, now: nat, stamp: nat, mode: map<nat, Mode>)
    requires DueMove(fl, now, mode)
    ensures Rounds(fl, now, stamp, mode, |Due(fl, now)|) == Settled(fl, now, stamp, mode)
    ensures Due(Settled(fl, now, stamp, mode).0, now) == []
    decreases |Due(fl, now)|
  {
    if Due(fl, now) == [] {
      assert Later(fl, now) == fl;
    } else {
      assert fl[0] in Due(fl, now);
      FireThenRest(fl, now, stamp, mode);
      var (g, s) := Fire(fl, now, stamp, mode);
      assert forall e :: e in Due(g, now) ==> e in Due(fl, now);
      RoundsSettle(g, now, s, mode);
    }
  }

  /** A stuck timer stays due through every round, whichever timer fires in it. */
  lemma FireStuck(fl: seq<Entry>, now: nat, stamp: nat, mode: map<nat, Mode>)
    requires fl != [] && Ascending(fl) && Stuck(fl, now, mode)
    ensures var g := Fire(fl, now, stamp, mode).0;
      Ascending(g) && Stuck(g, now, mode)
  {
    var e :| e in fl && e.due <= now && !Moves(e.id, mode);
    var id, rest, g := fl[0].id, fl[1..], Fire(fl, now, stamp, mode).0;
    if id in mode && mode[id].Periodic? {
      var again := Entry(id, now + mode[id].init, stamp);
      InsertHas(rest, again);
      InsertAscending(rest, again);
      assert e in rest || !Moves(again.id, mode);
      assert (if e in rest then e else again) in g;
    } else {
      assert e in g;
    }
  }

  lemma {:induction false} StuckForever(fl: seq<Entry>, now: nat, stamp: nat, mode: map<nat, Mode>, n: nat)
    requires Ascending(fl) && Stuck(fl, now, mode)
    ensures Due(Rounds(fl, now, stamp, mode, n).0, now) != []
    decreases n
  {
    HeadLeast(fl);
    if n > 0 {
      FireStuck(fl, now, stamp, mode);
      var (g, s) := Fire(fl, now, stamp, mode);
      StuckForever(g, now, s, mode, n - 1);
    }
  }

  lemma {:induction false} DueHas(fl: seq<Entry>, now: nat)
    ensures forall e :: e in Due(fl, now) ==> e in fl && e.due <= now
    decreases |fl|
  {
    if fl != [] {
      DueHas(fl[1..], now);
    }
  }

  /**
    The loop of rt_timer_check ends exactly if no periodic timer that is due
    when it starts has `init_tick` 0.
   */
  lemma CheckEndsIff(fl: seq<Entry>, now: nat, stamp: nat, mode: map<nat, Mode>)
    requires Ascending(fl)
    ensures (exists n: nat :: Due(Rounds(fl, now, stamp, mode, n).0, now) == [])
      <==> (forall e :: e in Due(fl, now) && e.id in mode ==> mode[e.id] != Periodic(0))
  {
    if forall e :: e in Due(fl, now) && e.id in mode ==> mode[e.id] != Periodic(0) {
      RoundsSettle(fl, now, stamp, mode);
    } else {
      DueHas(fl, now);
      var e :| e in Due(fl, now) && !Moves(e.id, mode);
      assert e in fl && e.due <= now;
      forall n: nat ensures Due(Rounds(fl, now, stamp, mode, n).0, now) != [] {
        StuckForever(fl, now, stamp, mode, n);
      }
    }
  }

  /** With a periodic timer of `init_tick` 0 among the due ones, no number of rounds is enough. */
  lemma ZeroPeriodNeverSettles(n: nat)
    ensures var fl := [Entry(1, 5, 0), Entry(2, 5, 1)];
      Due(Rounds(fl, 5, 2, map[1 := OneShot, 2 := Periodic(0)], n).0, 5) != []
  {
    var fl, mode := [Entry(1, 5, 0), Entry(2, 5, 1)], map[1 := OneShot, 2 := Periodic(0)];
    assert fl[1] in fl && !Moves(fl[1].id, mode);
    StuckForever(fl, 5, 2, mode, n);
  }
}
