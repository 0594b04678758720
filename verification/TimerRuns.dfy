/**
  Whole runs of the timer list: any sequence of starts, stops and ticks with one
  check per tick, as long as the assertion on `init_tick` holds and every check
  ends. A timer fires exactly at the ticks it was started for, whatever the other
  timers do.
 */
module TimerRuns {
  import opened TimerSpec
  import opened TimerRows
  import opened Arithmetic

  /** The list, the time, and the log of timers fired with the tick they fired at. */
  datatype State = State(now: nat, fl: seq<Entry>, stamp: nat, mode: map<nat, Mode>, log: seq<(nat, nat)>)

  /**
    A start without anything in between is one step. Otherwise its first section,
    which unlinks the timer, is a stop, and its second section links it with the
    deadline from the tick that was read in between.
   */
  datatype Step =
    | Start(id: nat, init: nat, periodic: bool)
    | Link(id: nat, init: nat, periodic: bool, read: nat)
    | Stop(id: nat)
    | Tick

  ghost function Logged(fired: seq<Entry>, now: nat): seq<(nat, nat)> {
    if fired == [] then [] else [(fired[0].id, now)] + Logged(fired[1..], now)
  }

  /** The entries of `id`. */
  ghost function Of(fl: seq<Entry>, id: nat): seq<Entry> {
    if fl == [] then [] else (if fl[0].id == id then [fl[0]] else []) + Of(fl[1..], id)
  }

  /**
    The assertion of rt_timer_start; for its second section, that nobody else has
    linked the timer and that its deadline has not passed; and for a tick that the
    loop of rt_timer_check ends, as `CheckEndsIff` says.
   */
  ghost predicate Enabled(s: State, step: Step) {
    match step
    case Start(_, init, _) => init < HalfTick
    case Link(id, init, _, read) => init < HalfTick && read <= s.now <= read + init && Of(s.fl, id) == []
    case Stop(_) => true
    case Tick => DueMove(s.fl, s.now + 1, s.mode)
  }

  /** The timer is linked with the deadline `read + init`. */
  ghost function Entered(s: State, id: nat, init: nat, periodic: bool, read: nat): State {
    s.(fl := Insert(s.fl, Entry(id, read + init, s.stamp)), stamp := s.stamp + 1,
    mode := s.mode[id := if periodic then Periodic(init) else OneShot])
  }

  ghost function Next(s: State, step: Step): State
    requires Enabled(s, step)
  {
    match step
    case Start(id, init, periodic) => Entered(s.(fl := Remove(s.fl, id)), id, init, periodic, s.now)
    case Link(id, init, periodic, read) => Entered(s, id, init, periodic, read)
    case Stop(id) => s.(fl := Remove(s.fl, id))
    case Tick =>
      var now := s.now + 1;
      var (g, n) := Settled(s.fl, now, s.stamp, s.mode);
      s.(now := now, fl := g, stamp := n, log := s.log + Logged(Due(s.fl, now), now))
  }

  lemma StartIs(s: State, id: nat, init: nat, periodic: bool, e: Entry, fl: seq<Entry>, mode: map<nat, Mode>)
    requires init < HalfTick && e == Entry(id, s.now + init, s.stamp) && fl == Insert(Remove(s.fl, id), e)
    requires mode == s.mode[id := if periodic then Periodic(init) else OneShot]
    ensures Next(s, Start(id, init, periodic)) == State(s.now, fl, s.stamp + 1, mode, s.log)
  {
  }

  /** A start is its two sections, if nothing falls between them. */
  lemma StartIsSections(s: State, id: nat, init: nat, periodic: bool)
    requires init < HalfTick
    ensures Enabled(Next(s, Stop(id)), Link(id, init, periodic, s.now))
    ensures Next(Next(s, Stop(id)), Link(id, init, periodic, s.now)) == Next(s, Start(id, init, periodic))
  {
    OfRemove(s.fl, id, id);
  }

  /** A start with the settings that the timer has. */
  lemma RestartIs(s: State, id: nat, init: nat, periodic: bool, e: Entry, fl: seq<Entry>)
    requires init < HalfTick && e == Entry(id, s.now + init, s.stamp) && fl == Insert(Remove(s.fl, id), e)
    requires id in s.mode && s.mode[id] == if periodic then Periodic(init) else OneShot
    ensures Next(s, Start(id, init, periodic)) == State(s.now, fl, s.stamp + 1, s.mode, s.log)
  {
    assert s.mode[id := s.mode[id]] == s.mode;
  }

  lemma LinkIs(s: State, id: nat, init: nat, periodic: bool, read: nat, fl: seq<Entry>)
    requires Enabled(s, Link(id, init, periodic, read)) && fl == Insert(s.fl, Entry(id, read + init, s.stamp))
    requires id in s.mode && s.mode[id] == if periodic then Periodic(init) else OneShot
    ensures Next(s, Link(id, init, periodic, read)) == State(s.now, fl, s.stamp + 1, s.mode, s.log)
  {
    assert s.mode[id := s.mode[id]] == s.mode;
  }

  lemma TickIs(s: State, fl: seq<Entry>, stamp: nat)
    requires Enabled(s, Tick) && (fl, stamp) == Settled(s.fl, s.now + 1, s.stamp, s.mode)
    ensures Next(s, Tick)
      == State(s.now + 1, fl, stamp, s.mode, s.log + Logged(Due(s.fl, s.now + 1), s.now + 1))
  {
  }

  /** Every step of the run is enabled when it is taken. */
  ghost predicate Possible(s: State, steps: seq<Step>)
    decreases |steps|
  {
    steps == [] || (Enabled(s, steps[0]) && Possible(Next(s, steps[0]), steps[1..]))
  }

  ghost function Run(s: State, steps: seq<Step>): State
    requires Possible(s, steps)
    decreases |steps|
  {
    if steps == [] then s else Run(Next(s, steps[0]), steps[1..])
  }

  /** No start or stop of `id` among the steps. */
  ghost predicate Untouched(id: nat, steps: seq<Step>) {
    forall i :: 0 <= i < |steps| ==> steps[i].Tick? || steps[i].id != id
  }

  /** The ticks at which `id` fired. */
  ghost function Times(log: seq<(nat, nat)>, id: nat): seq<nat> {
    if log == [] then [] else (if log[0].0 == id then [log[0].1] else []) + Times(log[1..], id)
  }

  // ------------------------------------------------- what operations do to `Of`

  lemma {:induction false} OfInsert(fl: seq<Entry>, e: Entry, id: nat)
    ensures e.id != id ==> Of(Insert(fl, e), id) == Of(fl, id)
    ensures e.id == id && Of(fl, id) == [] ==> Of(Insert(fl, e), id) == [e]
    decreases |fl|
  {
    if fl == [] || e.due < fl[0].due {
      assert ([e] + fl)[1..] == fl;
    } else {
      OfInsert(fl[1..], e, id);
      assert Insert(fl, e)[1..] == Insert(fl[1..], e);
    }
  }

  lemma {:induction false} OfRemove(fl: seq<Entry>, x: nat, id: nat)
    ensures Of(Remove(fl, x), id) == if x == id then [] else Of(fl, id)
    decreases |fl|
  {
    if fl != [] {
      OfRemove(fl[1..], x, id);
      if fl[0].id != x {
        assert Remove(fl, x)[1..] == Remove(fl[1..], x);
      }
    }
  }

  lemma {:induction false} AscendingCons(e: Entry, fl: seq<Entry>)
    requires Ascending(fl) && forall i :: 0 <= i < |fl| ==> e.due <= fl[i].due
    ensures Ascending([e] + fl)
  {
    assert ([e] + fl)[1..] == fl;
  }

  lemma {:induction false} RemoveAscending(fl: seq<Entry>, id: nat)
    requires Ascending(fl)
    ensures Ascending(Remove(fl, id)) && forall i :: 0 <= i < |Remove(fl, id)| ==> Remove(fl, id)[i] in fl
    decreases |fl|
  {
    if fl != [] {
      RemoveAscending(fl[1..], id);
      HeadLeast(fl);
      var r := Remove(fl[1..], id);
      assert forall i :: 0 <= i < |r| ==> r[i] in fl[1..] && fl[0].due <= r[i].due;
      AscendingCons(fl[0], r);
    }
  }

  /** The timer is listed with a deadline that has come. */
  ghost predicate Ripe(fl: seq<Entry>, now: nat, id: nat) {
    Of(fl, id) != [] && Of(fl, id)[0].due <= now
  }

  lemma NotRipe(fl: seq<Entry>, now: nat, id: nat)
    requires Ascending(fl) && (fl == [] || fl[0].due > now)
    ensures !Ripe(fl, now, id)
  {
    HeadLeast(fl);
    OfWhere(fl, id);
  }

  /** What is due at `now`, for one timer that is listed at most once. */
  lemma {:induction false} OfDue(fl: seq<Entry>, now: nat, id: nat)
    requires Ascending(fl) && |Of(fl, id)| <= 1
    ensures Of(Due(fl, now), id) == if Ripe(fl, now, id) then Of(fl, id) else []
    decreases |fl|
  {
    if fl == [] || fl[0].due > now {
      NotRipe(fl, now, id);
    } else {
      OfDue(fl[1..], now, id);
      assert Due(fl, now)[1..] == Due(fl[1..], now);
      assert fl[0].id == id ==> Of(fl[1..], id) == [];
    }
  }

  lemma {:induction false} OfLater(fl: seq<Entry>, now: nat, id: nat)
    requires Ascending(fl) && |Of(fl, id)| <= 1
    ensures Ascending(Later(fl, now))
    ensures Of(Later(fl, now), id) == if Ripe(fl, now, id) then [] else Of(fl, id)
    decreases |fl|
  {
    if fl == [] || fl[0].due > now {
      assert Later(fl, now) == fl;
      NotRipe(fl, now, id);
    } else {
      OfLater(fl[1..], now, id);
      assert Later(fl, now) == Later(fl[1..], now);
      assert fl[0].id == id ==> Of(fl[1..], id) == [];
    }
  }

  lemma {:induction false} OfWhere(fl: seq<Entry>, id: nat)
    ensures forall i :: 0 <= i < |Of(fl, id)| ==> Of(fl, id)[i] in fl && Of(fl, id)[i].id == id
    decreases |fl|
  {
    if fl != [] {
      OfWhere(fl[1..], id);
    }
  }

  /** Restarting the fired timers touches a timer only if it is among them. */
  lemma {:induction false} OfRelist(fl: seq<Entry>, fired: seq<Entry>, now: nat, stamp: nat,
      mode: map<nat, Mode>, id: nat)
    requires Ascending(fl) && |Of(fl, id)| + |Of(fired, id)| <= 1
    ensures var g := Relist(fl, fired, now, stamp, mode).0;
      && Ascending(g)
      && (Of(fired, id) == [] ==> Of(g, id) == Of(fl, id))
      && (Of(fired, id) != [] && id in mode && mode[id].Periodic? ==>
            |Of(g, id)| == 1 && Of(g, id)[0].due == now + mode[id].init)
      && (Of(fired, id) != [] && id in mode && mode[id].OneShot? ==> Of(g, id) == [])
    decreases |fired|
  {
    if fired != [] {
      var x := fired[0];
      if x.id in mode && mode[x.id].Periodic? {
        var e := Entry(x.id, now + mode[x.id].init, stamp);
        OfInsert(fl, e, id);
        InsertAscending(fl, e);
        OfRelist(Insert(fl, e), fired[1..], now, stamp + 1, mode, id);
      } else {
        OfRelist(fl, fired[1..], now, stamp, mode, id);
      }
    }
  }

  lemma {:induction false} TimesAppend(a: seq<(nat, nat)>, b: seq<(nat, nat)>, id: nat)
    ensures Times(a + b, id) == Times(a, id) + Times(b, id)
    decreases |a|
  {
    if a == [] {
      assert a + b == b;
    } else {
      TimesAppend(a[1..], b, id);
      var first := if a[0].0 == id then [a[0].1] else [];
      assert (a + b)[0] == a[0] && (a + b)[1..] == a[1..] + b;
      assert first + (Times(a[1..], id) + Times(b, id)) == first + Times(a[1..], id) + Times(b, id);
    }
  }

  lemma {:induction false} TimesLogged(fired: seq<Entry>, now: nat, id: nat)
    ensures |Of(fired, id)| == 0 ==> Times(Logged(fired, now), id) == []
    ensures |Of(fired, id)| == 1 ==> Times(Logged(fired, now), id) == [now]
    decreases |fired|
  {
    if fired != [] {
      TimesLogged(fired[1..], now, id);
      assert Logged(fired, now)[1..] == Logged(fired[1..], now);
    }
  }

  // ------------------------------------------------------------- the invariant

  /** A listed timer: known, due from now on, within reach of the wrapped tick. */
  ghost predicate Sane(s: State, e: Entry) {
    && e.id in s.mode && s.now <= e.due < s.now + HalfTick && e.stamp < s.stamp
    && (s.mode[e.id].Periodic? ==> s.mode[e.id].init < HalfTick)
  }

  ghost predicate Once(fl: seq<Entry>) {
    forall id: nat :: |Of(fl, id)| <= 1
  }

  /** Timers are listed once each, by deadline and, among equal deadlines, in the order of their starts. */
  ghost predicate Inv(s: State) {
    Sorted(s.fl) && Once(s.fl) && forall e :: e in s.fl ==> Sane(s, e)
  }

  lemma SortedTail(fl: seq<Entry>)
    requires Sorted(fl) && fl != []
    ensures Sorted(fl[1..]) && forall e :: e in fl[1..] ==> Before(fl[0], e)
  {
    assert forall i :: 0 <= i < |fl| - 1 ==> fl[1..][i] == fl[i + 1];
  }

  lemma SortedCons(e: Entry, fl: seq<Entry>)
    requires Sorted(fl) && forall x :: x in fl ==> Before(e, x)
    ensures Sorted([e] + fl)
  {
    var l := [e] + fl;
    forall i, j | 0 <= i < j < |l| ensures Before(l[i], l[j]) {
      assert l[j] == fl[j - 1] && fl[j - 1] in fl;
    }
  }

  lemma {:induction false} SortedAscends(fl: seq<Entry>)
    requires Sorted(fl)
    ensures Ascending(fl)
    decreases |fl|
  {
    if |fl| > 1 {
      SortedTail(fl);
      SortedAscends(fl[1..]);
      assert Before(fl[0], fl[1]);
    }
  }

  /** A timer started later goes behind all that are due no later, so the order is kept. */
  lemma {:induction false} InsertSorted(fl: seq<Entry>, e: Entry)
    requires Sorted(fl) && forall x :: x in fl ==> x.stamp < e.stamp
    ensures Sorted(Insert(fl, e))
    decreases |fl|
  {
    if fl == [] {
      SortedCons(e, fl);
    } else if e.due < fl[0].due {
      SortedTail(fl);
      assert fl == [fl[0]] + fl[1..];
      SortedCons(e, fl);
    } else {
      SortedTail(fl);
      InsertSorted(fl[1..], e);
      InsertHas(fl[1..], e);
      assert fl[0] in fl;
      SortedCons(fl[0], Insert(fl[1..], e));
    }
  }

  lemma {:induction false} RemoveSorted(fl: seq<Entry>, id: nat)
    requires Sorted(fl)
    ensures Sorted(Remove(fl, id))
    decreases |fl|
  {
    if fl != [] {
      SortedTail(fl);
      RemoveSorted(fl[1..], id);
      RemoveHas(fl[1..], id);
      SortedCons(fl[0], Remove(fl[1..], id));
    }
  }

  /** The fired timers are restarted in the order in which they fired. */
  lemma {:induction false} RelistSorted(fl: seq<Entry>, fired: seq<Entry>, now: nat, stamp: nat, mode: map<nat, Mode>)
    requires Sorted(fl) && forall x :: x in fl ==> x.stamp < stamp
    ensures var (g, n) := Relist(fl, fired, now, stamp, mode);
      Sorted(g) && forall x :: x in g ==> x.stamp < n
    decreases |fired|
  {
    if fired != [] {
      var id := fired[0].id;
      if id in mode && mode[id].Periodic? {
        var e := Entry(id, now + mode[id].init, stamp);
        InsertSorted(fl, e);
        InsertHas(fl, e);
        RelistSorted(Insert(fl, e), fired[1..], now, stamp + 1, mode);
      } else {
        RelistSorted(fl, fired[1..], now, stamp, mode);
      }
    }
  }

  lemma {:induction false} RemoveHas(fl: seq<Entry>, id: nat)
    ensures forall e :: e in Remove(fl, id) <==> e in fl && e.id != id
    decreases |fl|
  {
    if fl != [] {
      RemoveHas(fl[1..], id);
    }
  }

  /** Linking keeps the invariant exactly if the timer is not listed and its deadline has not passed. */
  lemma LinkKeepsIff(s: State, id: nat, init: nat, periodic: bool, read: nat)
    requires Inv(s) && init < HalfTick && read <= s.now
    ensures Inv(Entered(s, id, init, periodic, read)) <==> Of(s.fl, id) == [] && s.now <= read + init
  {
    var e, t := Entry(id, read + init, s.stamp), Entered(s, id, init, periodic, read);
    InsertHas(s.fl, e);
    if Of(s.fl, id) != [] {
      OfTwice(s.fl, e);
    } else if s.now <= read + init {
      EnteredSane(s, id, init, periodic, read);
      InsertSorted(s.fl, e);
      forall x: nat ensures |Of(t.fl, x)| <= 1 {
        OfInsert(s.fl, e, x);
      }
    } else {
      assert e in t.fl && !Sane(t, e);
    }
  }

  /** Two threads that start one timer, both past their first sections, list it twice. */
  lemma DoubleStart()
    ensures var s := State(0, [], 0, map[], []);
      var once := Entered(Next(Next(s, Stop(1)), Stop(1)), 1, 5, false, 0);
      Inv(once) && |Of(Entered(once, 1, 5, false, 0).fl, 1)| == 2 && !Inv(Entered(once, 1, 5, false, 0))
  {
    var s := State(0, [], 0, map[], []);
    LinkKeepsIff(s, 1, 5, false, 0);
    var once := Entered(s, 1, 5, false, 0);
    assert once.fl[0] == Entry(1, 5, 0) && once.fl[1..] == [];
    OfTwice(once.fl, Entry(1, 5, 1));
    LinkKeepsIff(once, 1, 5, false, 0);
  }

  lemma EnteredSane(s: State, id: nat, init: nat, periodic: bool, read: nat)
    requires Inv(s) && init < HalfTick && read <= s.now <= read + init && Of(s.fl, id) == []
    ensures var t := Entered(s, id, init, periodic, read); forall x :: x in t.fl ==> Sane(t, x)
  {
    var t := Entered(s, id, init, periodic, read);
    InsertHas(s.fl, Entry(id, read + init, s.stamp));
    forall x | x in t.fl && x in s.fl ensures Sane(t, x) {
      assert Sane(s, x);
      OfSome(s.fl, x);
    }
  }

  lemma {:induction false} OfSome(fl: seq<Entry>, e: Entry)
    requires e in fl
    ensures Of(fl, e.id) != []
    decreases |fl|
  {
    if fl[0] != e {
      assert fl == [fl[0]] + fl[1..];
      OfSome(fl[1..], e);
    }
  }

  /** A timer that is linked while it is listed is listed twice. */
  lemma {:induction false} OfTwice(fl: seq<Entry>, e: Entry)
    ensures |Of(Insert(fl, e), e.id)| == |Of(fl, e.id)| + 1
    decreases |fl|
  {
    if fl == [] || e.due < fl[0].due {
      assert ([e] + fl)[1..] == fl;
    } else {
      OfTwice(fl[1..], e);
      assert Insert(fl, e)[1..] == Insert(fl[1..], e);
    }
  }

  lemma StopKeepsInv(s: State, id: nat)
    requires Inv(s)
    ensures Inv(Next(s, Stop(id)))
  {
    RemoveHas(s.fl, id);
    RemoveSorted(s.fl, id);
    forall x: nat ensures |Of(Remove(s.fl, id), x)| <= 1 {
      OfRemove(s.fl, id, x);
    }
  }

  lemma {:induction false} LaterHas(fl: seq<Entry>, now: nat)
    requires Ascending(fl)
    ensures forall e :: e in Later(fl, now) ==> e in fl && e.due > now
    decreases |fl|
  {
    if fl != [] && fl[0].due <= now {
      LaterHas(fl[1..], now);
      assert Later(fl, now) == Later(fl[1..], now);
    } else {
      HeadLeast(fl);
      assert Later(fl, now) == fl;
    }
  }

  /** A restarted timer, with the deadline it gets. */
  ghost predicate Restarted(e: Entry, fired: seq<Entry>, now: nat, mode: map<nat, Mode>) {
    && (exists f :: f in fired && f.id == e.id)
    && e.id in mode && mode[e.id].Periodic? && e.due == now + mode[e.id].init
  }

  lemma {:induction false} RelistHas(fl: seq<Entry>, fired: seq<Entry>, now: nat, stamp: nat, mode: map<nat, Mode>)
    ensures forall e :: e in Relist(fl, fired, now, stamp, mode).0 ==> e in fl || Restarted(e, fired, now, mode)
    decreases |fired|
  {
    if fired != [] {
      var id := fired[0].id;
      if id in mode && mode[id].Periodic? {
        var e := Entry(id, now + mode[id].init, stamp);
        InsertHas(fl, e);
        RelistHas(Insert(fl, e), fired[1..], now, stamp + 1, mode);
        assert fired[0] in fired && Restarted(e, fired, now, mode);
      } else {
        RelistHas(fl, fired[1..], now, stamp, mode);
      }
    }
  }

  lemma TickOnce(s: State)
    requires Inv(s)
    ensures Once(Settled(s.fl, s.now + 1, s.stamp, s.mode).0)
  {
    var now := s.now + 1;
    SortedAscends(s.fl);
    forall id: nat ensures |Of(Settled(s.fl, now, s.stamp, s.mode).0, id)| <= 1 {
      OfWhere(s.fl, id);
      OfDue(s.fl, now, id);
      OfLater(s.fl, now, id);
      OfRelist(Later(s.fl, now), Due(s.fl, now), now, s.stamp, s.mode, id);
    }
  }

  lemma TickSane(s: State)
    requires Inv(s) && Enabled(s, Tick)
    ensures forall e :: e in Next(s, Tick).fl ==> Sane(Next(s, Tick), e)
  {
    var now, t := s.now + 1, Next(s, Tick);
    SortedAscends(s.fl);
    LaterHas(s.fl, now);
    TickSorted(s);
    DueHas(s.fl, now);
    RelistHas(Later(s.fl, now), Due(s.fl, now), now, s.stamp, s.mode);
    forall e | e in t.fl ensures Sane(t, e) {
      if e in Later(s.fl, now) {
        assert Sane(s, e);
      } else {
        var f :| f in Due(s.fl, now) && f.id == e.id;
        assert f in s.fl && Sane(s, f) && Moves(f.id, s.mode);
      }
    }
  }

  lemma TickSorted(s: State)
    requires Inv(s)
    ensures var (g, n) := Settled(s.fl, s.now + 1, s.stamp, s.mode);
      Sorted(g) && forall x :: x in g ==> x.stamp < n
  {
    var now := s.now + 1;
    var later, k := Later(s.fl, now), |Due(s.fl, now)|;
    assert forall i :: 0 <= i < |later| ==> later[i] == s.fl[k + i];
    forall x | x in later ensures x.stamp < s.stamp {
      assert x in s.fl && Sane(s, x);
    }
    RelistSorted(later, Due(s.fl, now), now, s.stamp, s.mode);
  }

  lemma StepKeepsInv(s: State, step: Step)
    requires Inv(s) && Enabled(s, step)
    ensures Inv(Next(s, step))
  {
    match step
    case Start(id, init, periodic) =>
      StopKeepsInv(s, id);
      OfRemove(s.fl, id, id);
      LinkKeepsIff(Next(s, Stop(id)), id, init, periodic, s.now);
    case Link(id, init, periodic, read) => LinkKeepsIff(s, id, init, periodic, read);
    case Stop(id) => StopKeepsInv(s, id);
    case Tick =>
      TickOnce(s);
      TickSane(s);
      TickSorted(s);
  }

  /**
    In every run, and however starts are interrupted: each timer is listed at most
    once, in the order of deadlines and then of starts, and every deadline lies
    ahead and within reach of the wrapped comparison.
   */
  lemma {:induction false} EveryRun(s: State, steps: seq<Step>)
    requires Inv(s) && Possible(s, steps)
    ensures Inv(Run(s, steps))
    decreases |steps|
  {
    if steps != [] {
      StepKeepsInv(s, steps[0]);
      EveryRun(Next(s, steps[0]), steps[1..]);
    }
  }

  /** The due timers are the first ones of a sorted list. */
  lemma DueInOrder(fl: seq<Entry>, now: nat)
    requires Sorted(fl)
    ensures Sorted(Due(fl, now)) && forall e :: e in Due(fl, now) <==> e in fl && e.due <= now
  {
    var fired := Due(fl, now);
    DueAll(fl, now);
    assert forall i :: 0 <= i < |fired| ==> fired[i] == fl[i];
    forall e | e in fl && e.due <= now ensures e in fired {
      var i :| 0 <= i < |fl| && fl[i] == e;
      assert fired[i] == e;
    }
  }

  /** In every run a tick fires exactly the timers that are due, by deadline and, if those are equal, by start. */
  lemma TickFiresInOrder(s: State, steps: seq<Step>)
    requires Inv(s) && Possible(s, steps) && Enabled(Run(s, steps), Tick)
    ensures var t := Run(s, steps);
      var fired := Due(t.fl, t.now + 1);
      && Next(t, Tick).log == t.log + Logged(fired, t.now + 1)
      && Sorted(fired) && forall e :: e in fired <==> e in t.fl && e.due <= t.now + 1
  {
    EveryRun(s, steps);
    DueInOrder(Run(s, steps).fl, Run(s, steps).now + 1);
  }

  /** What callers can ensure: no start with a forbidden `init_tick`, or a periodic one with 0. */
  ghost predicate Guarded(steps: seq<Step>) {
    forall i :: 0 <= i < |steps| && (steps[i].Start? || steps[i].Link?) ==>
      steps[i].init < HalfTick && (steps[i].periodic ==> steps[i].init > 0)
  }

  /** And that the second sections of starts come in time, with nobody else starting the timer. */
  ghost predicate Timely(s: State, steps: seq<Step>)
    decreases |steps|
  {
    steps == [] ||
    ((steps[0].Link? ==> Enabled(s, steps[0])) && (Enabled(s, steps[0]) ==> Timely(Next(s, steps[0]), steps[1..])))
  }

  ghost predicate Moving(s: State) {
    forall e :: e in s.fl ==> Moves(e.id, s.mode)
  }

  lemma StepMoves(s: State, step: Step)
    requires Inv(s) && Moving(s) && Guarded([step]) && (step.Link? ==> Enabled(s, step))
    ensures Enabled(s, step) && Moving(Next(s, step))
  {
    assert [step][0] == step;
    DueHas(s.fl, s.now + 1);
    if step.Tick? {
      SortedAscends(s.fl);
      LaterHas(s.fl, s.now + 1);
      RelistHas(Later(s.fl, s.now + 1), Due(s.fl, s.now + 1), s.now + 1, s.stamp, s.mode);
    } else if step.Link? {
      InsertHas(s.fl, Entry(step.id, step.read + step.init, s.stamp));
    } else {
      RemoveHas(s.fl, step.id);
      if step.Start? {
        InsertHas(Remove(s.fl, step.id), Entry(step.id, s.now + step.init, s.stamp));
      }
    }
  }

  /** Then every check ends, and the whole run is possible. */
  lemma {:induction false} GuardedIsPossible(s: State, steps: seq<Step>)
    requires Inv(s) && Moving(s) && Guarded(steps) && Timely(s, steps)
    ensures Possible(s, steps) && Moving(Run(s, steps))
    decreases |steps|
  {
    if steps != [] {
      assert [steps[0]][0] == steps[0];
      StepMoves(s, steps[0]);
      StepKeepsInv(s, steps[0]);
      GuardedIsPossible(Next(s, steps[0]), steps[1..]);
    }
  }

  // -------------------------------------------------------------- the theorems

  /** The deadline of the one entry of `id`, if it is listed. */
  ghost predicate Pending(s: State, id: nat, due: nat) {
    Ascending(s.fl) && |Of(s.fl, id)| == 1 && Of(s.fl, id)[0].due == due
  }

  ghost predicate Idle(s: State, id: nat) {
    Ascending(s.fl) && Of(s.fl, id) == []
  }

  lemma LinkPends(s: State, id: nat, init: nat, periodic: bool, read: nat)
    requires Ascending(s.fl) && Enabled(s, Link(id, init, periodic, read))
    ensures var t := Next(s, Link(id, init, periodic, read));
      Pending(t, id, read + init) && t.log == s.log && t.now == s.now
  {
    var e := Entry(id, read + init, s.stamp);
    OfInsert(s.fl, e, id);
    InsertAscending(s.fl, e);
  }

  /** Steps on other timers leave this one's entry and log alone. */
  lemma OthersApart(s: State, step: Step, id: nat)
    requires Ascending(s.fl) && Enabled(s, step) && !step.Tick? && step.id != id
    ensures var t := Next(s, step);
      && Ascending(t.fl) && Of(t.fl, id) == Of(s.fl, id) && t.log == s.log && t.now == s.now
      && (id in s.mode ==> id in t.mode && t.mode[id] == s.mode[id])
  {
    if step.Link? {
      var e := Entry(step.id, step.read + step.init, s.stamp);
      OfInsert(s.fl, e, id);
      InsertAscending(s.fl, e);
      return;
    }
    var r := Remove(s.fl, step.id);
    assert Ascending(r) && Of(r, id) == Of(s.fl, id) by {
      OfRemove(s.fl, step.id, id);
      RemoveAscending(s.fl, step.id);
    }
    if step.Start? {
      var e := Entry(step.id, s.now + step.init, s.stamp);
      OfInsert(r, e, id);
      InsertAscending(r, e);
    }
  }

  lemma TickLog(s: State, id: nat)
    requires Ascending(s.fl) && |Of(s.fl, id)| <= 1 && Enabled(s, Tick)
    ensures Times(Next(s, Tick).log, id)
      == if Ripe(s.fl, s.now + 1, id) then Times(s.log, id) + [s.now + 1] else Times(s.log, id)
  {
    var now := s.now + 1;
    var due := Due(s.fl, now);
    OfDue(s.fl, now, id);
    TimesAppend(s.log, Logged(due, now), id);
    TimesLogged(due, now, id);
  }

  lemma TickList(s: State, id: nat)
    requires Ascending(s.fl) && |Of(s.fl, id)| <= 1 && id in s.mode
    ensures var g := Settled(s.fl, s.now + 1, s.stamp, s.mode).0;
      && Ascending(g)
      && (!Ripe(s.fl, s.now + 1, id) ==> Of(g, id) == Of(s.fl, id))
      && (Ripe(s.fl, s.now + 1, id) && s.mode[id].Periodic? ==>
            |Of(g, id)| == 1 && Of(g, id)[0].due == s.now + 1 + s.mode[id].init)
      && (Ripe(s.fl, s.now + 1, id) && s.mode[id].OneShot? ==> Of(g, id) == [])
  {
    var now := s.now + 1;
    OfDue(s.fl, now, id);
    OfLater(s.fl, now, id);
    OfRelist(Later(s.fl, now), Due(s.fl, now), now, s.stamp, s.mode, id);
  }

  /** A tick fires the timer exactly if its deadline has come. */
  lemma TickFires(s: State, id: nat)
    requires Ascending(s.fl) && |Of(s.fl, id)| <= 1 && id in s.mode && Enabled(s, Tick)
    ensures var t := Next(s, Tick);
      if Ripe(s.fl, s.now + 1, id)
      then
        && Times(t.log, id) == Times(s.log, id) + [s.now + 1]
        && (s.mode[id].Periodic? ==> Pending(t, id, s.now + 1 + s.mode[id].init))
        && (s.mode[id].OneShot? ==> Idle(t, id))
      else
        Times(t.log, id) == Times(s.log, id) && Ascending(t.fl) && Of(t.fl, id) == Of(s.fl, id)
  {
    assert Next(s, Tick).fl == Settled(s.fl, s.now + 1, s.stamp, s.mode).0;
    TickLog(s, id);
    TickList(s, id);
  }

  /** The `k`-th deadline of a timer started at `from` with period `d`. */
  ghost function Nth(from: nat, d: nat, k: nat): nat {
    if k == 0 then from else Nth(from, d, k - 1) + d
  }

  /** The first `k` deadlines. */
  ghost function Deadlines(from: nat, d: nat, k: nat): (r: seq<nat>)
    ensures |r| == k
  {
    if k == 0 then [] else Deadlines(from, d, k - 1) + [Nth(from, d, k)]
  }

  lemma {:induction false} NthIsMultiple(from: nat, d: nat, k: nat)
    ensures Nth(from, d, k) == from + k * d
    ensures forall i :: 0 <= i < k ==> Deadlines(from, d, k)[i] == from + (i + 1) * d
  {
    if k > 0 {
      NthIsMultiple(from, d, k - 1);
      assert (k - 1) * d + d == k * d;
    }
  }

  /** Where a periodic timer started at `from` stands after firing `k` times. */
  ghost predicate InPeriod(t: State, id: nat, from: nat, d: nat, past: seq<nat>, k: nat) {
    && id in t.mode && t.mode[id] == Periodic(d)
    && Nth(from, d, k) <= t.now < Nth(from, d, k + 1)
    && Times(t.log, id) == past + Deadlines(from, d, k)
    && Pending(t, id, Nth(from, d, k + 1))
  }

  /** One tick before or at the deadline, for what has fired so far. */
  lemma DeadlineTick(t: State, id: nat, due: nat, d: nat, times: seq<nat>)
    requires Enabled(t, Tick) && Times(t.log, id) == times && Pending(t, id, due) && t.now < due
    requires id in t.mode && t.mode[id] == Periodic(d)
    ensures var u := Next(t, Tick);
      && Times(u.log, id) == (if u.now == due then times + [due] else times)
      && Pending(u, id, if u.now == due then due + d else due)
      && u.now == t.now + 1 && u.mode == t.mode
  {
    TickFires(t, id);
  }

  lemma PeriodTick(t: State, id: nat, from: nat, d: nat, past: seq<nat>, k: nat)
    requires d > 0 && InPeriod(t, id, from, d, past, k) && Enabled(t, Tick)
    ensures var u := Next(t, Tick);
      InPeriod(u, id, from, d, past, if u.now == Nth(from, d, k + 1) then k + 1 else k)
  {
    DeadlineTick(t, id, Nth(from, d, k + 1), d, past + Deadlines(from, d, k));
    PeriodMore(t, Next(t, Tick), id, from, d, past, k);
  }

  lemma PeriodMore(t: State, u: State, id: nat, from: nat, d: nat, past: seq<nat>, k: nat)
    requires d > 0 && InPeriod(t, id, from, d, past, k)
    requires var due, times := Nth(from, d, k + 1), past + Deadlines(from, d, k);
      && Times(u.log, id) == (if u.now == due then times + [due] else times)
      && Pending(u, id, if u.now == due then due + d else due)
    requires u.now == t.now + 1 && u.mode == t.mode
    ensures InPeriod(u, id, from, d, past, if u.now == Nth(from, d, k + 1) then k + 1 else k)
  {
    assert past + Deadlines(from, d, k + 1) == past + Deadlines(from, d, k) + [Nth(from, d, k + 1)];
  }

  lemma {:induction false} PeriodicRun(t: State, id: nat, from: nat, d: nat, past: seq<nat>, k: nat, steps: seq<Step>)
      returns (n: nat)
    requires d > 0 && InPeriod(t, id, from, d, past, k) && Possible(t, steps) && Untouched(id, steps)
    ensures InPeriod(Run(t, steps), id, from, d, past, n)
    decreases |steps|
  {
    if steps == [] {
      n := k;
    } else {
      var u := Next(t, steps[0]);
      if steps[0].Tick? {
        PeriodTick(t, id, from, d, past, k);
        n := PeriodicRun(u, id, from, d, past, if u.now == Nth(from, d, k + 1) then k + 1 else k, steps[1..]);
      } else {
        OthersApart(t, steps[0], id);
        n := PeriodicRun(u, id, from, d, past, k, steps[1..]);
      }
    }
  }

  /**
    A periodic timer that reads tick T in its start with period d, is linked
    before T + d and then left alone, has fired exactly at T + d, T + 2d, ... up to
    the present, in every run, whatever came between the sections of its start.
   */
  lemma LinkedFiresOnTime(s: State, id: nat, d: nat, read: nat, steps: seq<Step>)
    requires Inv(s) && Enabled(s, Link(id, d, true, read)) && s.now < read + d
    requires Possible(Next(s, Link(id, d, true, read)), steps) && Untouched(id, steps)
    ensures var t := Run(Next(s, Link(id, d, true, read)), steps);
      && t.now >= read
      && var k := (t.now - read) / d;
      && InPeriod(t, id, read, d, Times(s.log, id), k)
      && Nth(read, d, k + 1) == read + (k + 1) * d
      && (forall i :: 0 <= i < k ==> Deadlines(read, d, k)[i] == read + (i + 1) * d)
  {
    SortedAscends(s.fl);
    LinkPends(s, id, d, true, read);
    var begun := Next(s, Link(id, d, true, read));
    var k := PeriodicRun(begun, id, read, d, Times(s.log, id), 0, steps);
    var t := Run(begun, steps);
    NthIsMultiple(read, d, k);
    NthIsMultiple(read, d, k + 1);
    DivBounds(t.now - read, d, k);
  }

  /** The same for a start without anything in between, at tick T. */
  lemma PeriodicFiresOnTime(s: State, id: nat, d: nat, steps: seq<Step>)
    requires Inv(s) && 0 < d < HalfTick
    requires Possible(Next(s, Start(id, d, true)), steps) && Untouched(id, steps)
    ensures var t := Run(Next(s, Start(id, d, true)), steps);
      && t.now >= s.now
      && var k := (t.now - s.now) / d;
      && InPeriod(t, id, s.now, d, Times(s.log, id), k)
      && Nth(s.now, d, k + 1) == s.now + (k + 1) * d
      && (forall i :: 0 <= i < k ==> Deadlines(s.now, d, k)[i] == s.now + (i + 1) * d)
  {
    StartIsSections(s, id, d, true);
    StopKeepsInv(s, id);
    LinkedFiresOnTime(Next(s, Stop(id)), id, d, s.now, steps);
  }

  /** Where a one-shot timer linked at tick `from` stands: it fires at `due`, or at the next tick if that has come. */
  ghost predicate InFlight(t: State, id: nat, from: nat, due: nat, past: seq<nat>) {
    var at := if due <= from then from + 1 else due;
    && t.now >= from && id in t.mode && t.mode[id] == OneShot
    && (if t.now >= at then Times(t.log, id) == past + [at] && Idle(t, id)
        else Times(t.log, id) == past && Pending(t, id, due))
  }

  lemma FlightTick(t: State, id: nat, from: nat, due: nat, past: seq<nat>)
    requires InFlight(t, id, from, due, past) && Enabled(t, Tick)
    ensures InFlight(Next(t, Tick), id, from, due, past)
  {
    TickFires(t, id);
  }

  lemma {:induction false} FlightRun(t: State, id: nat, from: nat, due: nat, past: seq<nat>, steps: seq<Step>)
    requires InFlight(t, id, from, due, past) && Possible(t, steps) && Untouched(id, steps)
    ensures InFlight(Run(t, steps), id, from, due, past)
    decreases |steps|
  {
    if steps != [] {
      if steps[0].Tick? {
        FlightTick(t, id, from, due, past);
      } else {
        OthersApart(t, steps[0], id);
      }
      FlightRun(Next(t, steps[0]), id, from, due, past, steps[1..]);
    }
  }

  /**
    A one-shot timer that reads tick T in its start with delay d and is then left
    alone fires once, at T + d, or at the next tick if it is linked only then.
   */
  lemma LinkedFiresOnce(s: State, id: nat, d: nat, read: nat, steps: seq<Step>)
    requires Inv(s) && Enabled(s, Link(id, d, false, read))
    requires Possible(Next(s, Link(id, d, false, read)), steps) && Untouched(id, steps)
    ensures InFlight(Run(Next(s, Link(id, d, false, read)), steps), id, s.now, read + d, Times(s.log, id))
  {
    SortedAscends(s.fl);
    LinkPends(s, id, d, false, read);
    FlightRun(Next(s, Link(id, d, false, read)), id, s.now, read + d, Times(s.log, id), steps);
  }

  /** The same for a start without anything in between: at T + d, or at T + 1 for a delay of 0. */
  lemma OneShotFiresOnce(s: State, id: nat, d: nat, steps: seq<Step>)
    requires Inv(s) && d < HalfTick
    requires Possible(Next(s, Start(id, d, false)), steps) && Untouched(id, steps)
    ensures InFlight(Run(Next(s, Start(id, d, false)), steps), id, s.now, s.now + d, Times(s.log, id))
  {
    StartIsSections(s, id, d, false);
    StopKeepsInv(s, id);
    LinkedFiresOnce(Next(s, Stop(id)), id, d, s.now, steps);
  }

  lemma {:induction false} IdleRun(t: State, id: nat, steps: seq<Step>)
    requires Idle(t, id) && id in t.mode && Possible(t, steps) && Untouched(id, steps)
    ensures var u := Run(t, steps);
      Times(u.log, id) == Times(t.log, id) && Idle(u, id) && id in u.mode
    decreases |steps|
  {
    if steps != [] {
      if steps[0].Tick? {
        TickFires(t, id);
      } else {
        OthersApart(t, steps[0], id);
      }
      IdleRun(Next(t, steps[0]), id, steps[1..]);
    }
  }

  /** A stopped timer stays silent until it is started again. */
  lemma StoppedStaysSilent(s: State, id: nat, steps: seq<Step>)
    requires Inv(s) && id in s.mode
    requires Possible(Next(s, Stop(id)), steps) && Untouched(id, steps)
    ensures var t := Run(Next(s, Stop(id)), steps);
      Times(t.log, id) == Times(s.log, id) && Idle(t, id)
  {
    OfRemove(s.fl, id, id);
    SortedAscends(s.fl);
    RemoveAscending(s.fl, id);
    IdleRun(Next(s, Stop(id)), id, steps);
  }
}
