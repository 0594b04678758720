/**
  The hard timer list of timer.c: a skip list with any number of rows, ordered
  by 32-bit timeout ticks that wrap around. The class refines the flat list of
  `TimerSpec`, whose deadlines are true, unbounded times, and its operations are
  the steps of the runs of `TimerRuns`.
 */
module TimerList {
  import opened TimerSpec
  import opened TimerRows
  import opened NodeList
  import opened Arithmetic
  import TimerRuns

  /** Where a timer is linked in a row; behind the last one if nowhere. */
  function IndexOf(row: seq<nat>, id: nat): (k: nat)
    ensures k <= |row| && (id in row <==> k < |row|)
    ensures k < |row| ==> row[k] == id
  {
    if row == [] || row[0] == id then 0 else 1 + IndexOf(row[1..], id)
  }

  /** `j` rounds of the height test succeed on the counter. */
  ghost predicate Tall(counter: nat, j: nat) {
    j == 0 || (counter % 4 == 0 && Tall(counter / 4, j - 1))
  }

  lemma {:induction false} TallDown(counter: nat, i: nat, j: nat)
    requires i <= j && Tall(counter, j)
    ensures Tall(counter, i)
    decreases j
  {
    if i > 0 {
      TallDown(counter / 4, i - 1, j - 1);
    }
  }

  lemma NotTallUp(counter: nat, i: nat, j: nat)
    requires i <= j && !Tall(counter, i)
    ensures !Tall(counter, j)
  {
    if Tall(counter, j) {
      TallDown(counter, i, j);
    }
  }

  ghost function Pow4(j: nat): (p: nat)
    ensures p > 0
  {
    if j == 0 then 1 else 4 * Pow4(j - 1)
  }

  /**
    A timer reaches the row `j` above the bottom exactly when four to the `j`
    divides the counter: of any 4^j successive starts, one does.
   */
  lemma {:induction false} TallIff(counter: nat, j: nat)
    ensures Tall(counter, j) <==> counter % Pow4(j) == 0
    decreases j
  {
    if j > 0 {
      TallIff(counter / 4, j - 1);
      Mod4(counter, Pow4(j - 1));
    } else {
      assert Pow4(0) == 1 && counter % 1 == 0;
    }
  }

  lemma Mod4(n: nat, p: nat)
    requires p > 0
    ensures n % (4 * p) == 0 <==> n % 4 == 0 && n / 4 % p == 0
  {
    var m := n / 4;
    var q, r := m / p, m % p;
    Quarter(n, p, q, r);
    DivModUnique(n, 4 * p, q, 4 * r + n % 4);
  }

  lemma Quarter(n: nat, p: nat, q: nat, r: nat)
    requires n / 4 == p * q + r
    ensures n == (4 * p) * q + (4 * r + n % 4)
  {
    assert (4 * p) * q == 4 * (p * q);
  }

  /** The rows the new timer enters: those from `top` down. */
  ghost predicate Height(levels: nat, top: nat, counter: nat) {
    forall j :: 0 <= j < levels ==> (levels - 1 - j >= top <==> Tall(counter, j))
  }

  lemma TallTop(counter: nat, k: nat, levels: nat)
    requires k < levels && Tall(counter, k) && (k + 1 < levels ==> !Tall(counter, k + 1))
    ensures Height(levels, levels - 1 - k, counter)
  {
    forall j | 0 <= j < levels ensures j <= k <==> Tall(counter, j) {
      if j <= k {
        TallDown(counter, j, k);
      } else {
        NotTallUp(counter, k + 1, j);
      }
    }
  }

  /** `m` tests of the counter have succeeded, and `tst` is what is left of it. */
  ghost predicate Shifted(counter: nat, tst: nat, m: nat) {
    forall j :: j >= m ==> (Tall(counter, j) <==> Tall(tst, j - m))
  }

  lemma ShiftMore(counter: nat, tst: nat, m: nat)
    requires Shifted(counter, tst, m)
    ensures Tall(counter, m) && (Tall(counter, m + 1) <==> tst % 4 == 0)
    ensures tst % 4 == 0 ==> Shifted(counter, tst / 4, m + 1)
  {
    assert Tall(tst, 0) && (Tall(tst, 1) <==> tst % 4 == 0);
    if tst % 4 == 0 {
      forall j | j >= m + 1 ensures Tall(counter, j) <==> Tall(tst / 4, j - (m + 1)) {
        assert Tall(counter, j) <==> Tall(tst, j - m);
      }
    }
  }

  class TimerList {
    var rows: seq<seq<nat>>
    var timeoutTick: map<nat, nat>
    var initTick: map<nat, nat>
    var periodic: set<nat>
    var activated: set<nat>
    var tick: nat
    var randomNr: nat

    ghost var now: nat               // ticks since start-up, not wrapped
    ghost var key: map<nat, Entry>   // the listed timers, with true deadlines
    ghost var stamp: nat             // starts so far
    ghost var log: seq<(nat, nat)>   // what fired so far, with its tick

    ghost predicate Linked()
      reads this`rows, this`key, this`now, this`stamp, this`tick, this`randomNr, this`initTick, this`timeoutTick
    {
      && RowsOk(rows, key) && KeysOk(key, now, stamp)
      && tick == now % TickSpan && randomNr < TickSpan
      && (forall id :: id in key ==> id in initTick && id in timeoutTick && timeoutTick[id] == key[id].due % TickSpan)
    }

    ghost predicate Valid()
      reads this
    {
      Linked() && activated == key.Keys
    }

    ghost function List(): (fl: seq<Entry>)
      reads this`rows, this`key
      requires rows != []
    {
      Flat(rows, key)
    }

    ghost function Modes(): (m: map<nat, Mode>)
      reads this`initTick, this`periodic
    {
      map id | id in initTick :: if id in periodic then Periodic(initTick[id]) else OneShot
    }

    /** The state of the run that the list is in. */
    ghost function View(): TimerRuns.State
      reads this`rows, this`key, this`now, this`stamp, this`initTick, this`periodic, this`log
      requires rows != []
    {
      TimerRuns.State(now, List(), stamp, Modes(), log)
    }

    /** The configured levels, all empty, at any initial tick. */
    constructor (levels: nat, start: nat)
      requires levels > 0 && start < TickSpan
      ensures Valid() && TimerRuns.Inv(View())
      ensures View() == TimerRuns.State(start, [], 0, map[], [])
    {
      rows := seq(levels, i => []);
      timeoutTick, initTick, periodic, activated := map[], map[], {}, {};
      tick, randomNr := start, 0;
      now, key, stamp, log := start, map[], 0, [];
    }

    /** _rt_timer_init of a timer that is not listed. */
    method Init(id: nat, time: nat, isPeriodic: bool)
      requires Valid() && id !in key
      modifies this`timeoutTick, this`initTick, this`periodic, this`activated
      ensures Valid() && initTick == old(initTick)[id := time]
      ensures periodic == if isPeriodic then old(periodic) + {id} else old(periodic) - {id}
      ensures Modes() == old(Modes())[id := if isPeriodic then Periodic(time) else OneShot]
    {
      timeoutTick, initTick := timeoutTick[id := 0], initTick[id := time];
      periodic := if isPeriodic then periodic + {id} else periodic - {id};
      activated := activated - {id};
    }

    /** _rt_timer_remove: out of every row. */
    method Unlink(id: nat)
      requires Linked()
      modifies this`rows, this`key
      ensures Linked() && key == old(key) - {id} && |rows| == old(|rows|)
      ensures List() == Remove(old(List()), id)
    {
      ghost var rows0, key0 := rows, key;
      for i := 0 to |rows|
        invariant |rows| == |rows0| && key == key0
        invariant forall r :: 0 <= r < i ==> rows[r] == Without(rows0[r], id)
        invariant forall r :: i <= r < |rows| ==> rows[r] == rows0[r]
      {
        rows := rows[i := Without(rows[i], id)];
      }
      key := key - {id};
      RemoveOk(rows0, key0, id, rows);
      RemoveFlat(rows0, key0, now, stamp, id, rows);
    }

    /** The inner search loop, from the position `from` of one row. */
    method SearchRow(row: seq<nat>, from: nat, x: nat, ghost due: nat) returns (k: nat)
      requires Linked() && Within(row, rows[|rows| - 1])
      requires now <= due < now + HalfTick && x == due % TickSpan
      requires from <= |row| && forall i :: 0 <= i < from ==> At(key, row[i]).due <= due
      ensures Splits(row, key, due, k)
    {
      k := from;
      while k < |row|
        invariant k <= |row| && forall i :: 0 <= i < k ==> At(key, row[i]).due <= due
      {
        var t := row[k];
        assert t in row;
        TickOrderIff(key[t].due, due);
        if TickSub(timeoutTick[t], x) == 0 {
          k := k + 1;
          continue;
        } else if TickSub(timeoutTick[t], x) < HalfTick {
          break;
        }
        k := k + 1;
      }
    }

    /** All rows, each search starting where the one above stopped. */
    method Search(x: nat, ghost due: nat) returns (pos: seq<nat>)
      requires Linked() && now <= due < now + HalfTick && x == due % TickSpan
      ensures SplitsAll(rows, key, due, pos)
    {
      pos := [];
      var k: nat := 0;
      for r := 0 to |rows|
        invariant |pos| == r
        invariant forall q :: 0 <= q < r ==> Splits(rows[q], key, due, pos[q])
        invariant r < |rows| ==> k <= |rows[r]| && forall i :: 0 <= i < k ==> At(key, rows[r][i]).due <= due
      {
        assert Within(rows[r], rows[|rows| - 1]);
        k := SearchRow(rows[r], k, x, due);
        pos := pos + [k];
        if r + 1 < |rows| {
          if k > 0 {
            Below(r, k, due);
            k := IndexOf(rows[r + 1], rows[r][k - 1]) + 1;
          } else {
            k := 0;
          }
        }
      }
    }

    /** Going down one row at the same timer skips only timers due no later. */
    lemma Below(r: nat, k: nat, due: nat)
      requires Linked() && r + 1 < |rows| && 0 < k <= |rows[r]|
      requires At(key, rows[r][k - 1]).due <= due
      ensures var row := rows[r + 1];
        var j := IndexOf(row, rows[r][k - 1]);
        j < |row| && forall i :: 0 <= i <= j ==> At(key, row[i]).due <= due
    {
      var q := r + 1;
      var row := rows[q];
      var j := IndexOf(row, rows[r][k - 1]);
      assert Within(rows[r], row) && rows[r][k - 1] in rows[r];
      assert RowSorted(row, key);
      assert forall i :: 0 <= i < j ==> Before(At(key, row[i]), At(key, row[j]));
    }

    /** The insertion loop: the bottom row, then upwards as the counter allows. */
    method Link(id: nat, pos: seq<nat>) returns (ghost top: nat)
      requires rows != [] && Positions(rows, pos)
      modifies this`rows, this`randomNr
      ensures randomNr == (old(randomNr) + 1) % TickSpan
      ensures PutFrom(old(rows), pos, id, top, rows)
      ensures Height(|rows|, top, randomNr)
    {
      ghost var rows0 := rows;
      randomNr := (randomNr + 1) % TickSpan;
      var tst, levels := randomNr, |rows|;
      rows := rows[levels - 1 := Put(rows[levels - 1], pos[levels - 1], id)];
      var lvl := 2;
      while lvl <= levels
        invariant 2 <= lvl <= levels + 1 && randomNr == (old(randomNr) + 1) % TickSpan
        invariant PutFrom(rows0, pos, id, levels - lvl + 1, rows)
        invariant Shifted(randomNr, tst, lvl - 2)
      {
        ShiftMore(randomNr, tst, lvl - 2);
        if tst % 4 == 0 {
          PutOneMore(rows0, pos, id, levels - lvl + 1, rows);
          rows := rows[levels - lvl := Put(rows[levels - lvl], pos[levels - lvl], id)];
        } else {
          break;
        }
        tst := tst / 4;
        lvl := lvl + 1;
      }
      top := levels - lvl + 1;
      ShiftMore(randomNr, tst, lvl - 2);
      TallTop(randomNr, lvl - 2, levels);
    }

    /**
      rt_timer_start: the bottom row becomes plain sorted insertion of the new
      deadline, whatever the rows above, and whether or not the timer was listed.
     */
    method Start(id: nat, ghost e: Entry) returns (ghost top: nat)
      requires Valid() && id in initTick && initTick[id] < HalfTick
      requires e == Entry(id, now + initTick[id], stamp)
      modifies this`rows, this`timeoutTick, this`activated, this`randomNr, this`key, this`stamp
      ensures Valid() && List() == Insert(Remove(old(List()), id), e)
      ensures key == (old(key) - {id})[id := e]
      ensures stamp == old(stamp) + 1 && randomNr == (old(randomNr) + 1) % TickSpan
      ensures |rows| == old(|rows|) && Height(|rows|, top, randomNr)
      ensures forall r :: 0 <= r < |rows| ==> (id in rows[r] <==> r >= top)
    {
      Unlink(id);
      activated := activated - {id};
      timeoutTick := timeoutTick[id := (tick + initTick[id]) % TickSpan];
      WrapAdd(now, initTick[id]);
      top := Place(id, e);
      activated := activated + {id};
    }

    /** The second critical section: search, then link. */
    method Place(id: nat, ghost e: Entry) returns (ghost top: nat)
      requires Linked() && id !in key && id in initTick
      requires e.id == id && now <= e.due < now + HalfTick && e.stamp == stamp
      requires id in timeoutTick && timeoutTick[id] == e.due % TickSpan
      modifies this`rows, this`randomNr, this`key, this`stamp
      ensures Linked()
      ensures List() == Insert(old(List()), e)
      ensures key == old(key)[id := e]
      ensures stamp == old(stamp) + 1 && randomNr == (old(randomNr) + 1) % TickSpan
      ensures |rows| == old(|rows|) && Height(|rows|, top, randomNr)
      ensures forall r :: 0 <= r < |rows| ==> (id in rows[r] <==> r >= top)
    {
      var pos := Search(timeoutTick[id], e.due);
      top := Enter(id, e, pos);
    }

    /** Its insertion, at the positions found. */
    method Enter(id: nat, ghost e: Entry, pos: seq<nat>) returns (ghost top: nat)
      requires Linked() && id !in key && id in initTick && SplitsAll(rows, key, e.due, pos)
      requires e.id == id && now <= e.due < now + HalfTick && e.stamp == stamp
      requires id in timeoutTick && timeoutTick[id] == e.due % TickSpan
      modifies this`rows, this`randomNr, this`key, this`stamp
      ensures Linked()
      ensures List() == Insert(old(List()), e)
      ensures key == old(key)[id := e]
      ensures stamp == old(stamp) + 1 && randomNr == (old(randomNr) + 1) % TickSpan
      ensures |rows| == old(|rows|) && Height(|rows|, top, randomNr)
      ensures forall r :: 0 <= r < |rows| ==> (id in rows[r] <==> r >= top)
    {
      ghost var rows0, key0 := rows, key;
      SplitsBound(rows, key, e.due, pos);
      top := Link(id, pos);
      Placed(rows0, key0, e, pos, top, rows, now);
      Entered(rows0, key0, e.id, pos, top, rows);
      key := key0[id := e];
      stamp := stamp + 1;
    }

    static lemma WrapAdd(n: nat, d: nat)
      ensures (n % TickSpan + d) % TickSpan == (n + d) % TickSpan
    {
      assert n + d == (n % TickSpan + d) + (n / TickSpan) * TickSpan;
      ModShift(n % TickSpan + d, n / TickSpan);
    }

    static lemma Placed(rows: seq<seq<nat>>, key: map<nat, Entry>, e: Entry, pos: seq<nat>, top: nat,
        rows': seq<seq<nat>>, now: nat)
      requires RowsOk(rows, key) && KeysOk(key, now, e.stamp) && e.id !in key && PutFrom(rows, pos, e.id, top, rows')
      requires SplitsAll(rows, key, e.due, pos) && now <= e.due < now + HalfTick
      ensures RowsOk(rows', key[e.id := e]) && KeysOk(key[e.id := e], now, e.stamp + 1)
      ensures Flat(rows', key[e.id := e]) == Insert(Flat(rows, key), e)
    {
      InsertOk(rows, key, e, pos, top, rows');
      assert Splits(rows[|rows| - 1], key, e.due, pos[|rows| - 1]);
      InsertFlat(rows, key, e, pos[|rows| - 1], rows');
    }

    static lemma Entered(rows: seq<seq<nat>>, key: map<nat, Entry>, id: nat, pos: seq<nat>, top: nat,
        rows': seq<seq<nat>>)
      requires RowsOk(rows, key) && id !in key && PutFrom(rows, pos, id, top, rows')
      ensures forall r :: 0 <= r < |rows'| ==> (id in rows'[r] <==> r >= top)
    {
      forall r | 0 <= r < |rows'| ensures id in rows'[r] <==> r >= top {
        assert Within(rows[r], rows[|rows| - 1]);
        PutHas(rows[r], pos[r], id);
      }
    }

    /** rt_timer_stop: refused for a timer that is not active, and then nothing changes. */
    method Stop(id: nat) returns (ok: bool)
      requires Valid()
      modifies this`rows, this`activated, this`key
      ensures Valid() && key == old(key) - {id}
      ensures ok <==> id in old(key)
      ensures List() == Remove(old(List()), id)
      ensures !ok ==> rows == old(rows)
    {
      if id !in activated {
        AbsentList(id);
        return false;
      }
      Unlink(id);
      activated := activated - {id};
      return true;
    }

    lemma AbsentList(id: nat)
      requires Linked() && id !in key
      ensures Remove(List(), id) == List() && key - {id} == key
    {
      var row := rows[|rows| - 1];
      assert forall i :: 0 <= i < |row| ==> row[i] in row;
      RemoveAbsent(List(), id);
    }

    /** The timer is not periodic, or a restart is allowed and makes progress. */
    ghost predicate Restarts(id: nat)
      reads this`initTick, this`periodic
    {
      id in initTick && id in periodic ==> 0 < initTick[id] < HalfTick
    }

    /** This holds of every timer that is due. */
    ghost predicate DueRestart()
      reads this`rows, this`key, this`now, this`initTick, this`periodic
      requires rows != []
    {
      forall e :: e in Due(List(), now) ==> Restarts(e.id)
    }

    /** While its callback runs, a timer is unlinked but still active. */
    ghost predicate Fired(id: nat)
      reads this
    {
      Linked() && activated == key.Keys + {id} && id !in key && id in initTick
    }

    /** What the check loop does with a timer after its callback. */
    method Rearm(id: nat, ghost fl: seq<Entry>, ghost n: nat, ghost mode: map<nat, Mode>)
      requires Fired(id) && Restarts(id)
      requires fl != [] && List() == fl[1..] && fl[0].id == id && n == stamp && mode == Modes()
      modifies this`rows, this`timeoutTick, this`activated, this`randomNr, this`key, this`stamp
      ensures Valid()
      ensures List() == Fire(fl, now, n, mode).0
      ensures stamp == Fire(fl, now, n, mode).1
    {
      if id in periodic && id in activated {
        activated := activated - {id};
        AbsentList(id);
        ghost var e := Entry(id, now + initTick[id], stamp);
        assert Fire(fl, now, n, mode) == (Insert(List(), e), n + 1);
        var _ := Start(id, e);
      } else {
        activated := activated - {id};
      }
    }

    method TakeFirst(ghost fl: seq<Entry>) returns (id: nat)
      requires Valid() && fl == List() != []
      modifies this`rows, this`key
      ensures Fired(id) && id == fl[0].id && List() == fl[1..]
    {
      id := rows[|rows| - 1][0];
      HeadList();
      Unlink(id);
    }

    lemma HeadList()
      requires Linked() && List() != []
      ensures Remove(List(), List()[0].id) == List()[1..]
      ensures List()[0].id == rows[|rows| - 1][0] && List()[0].id in key
    {
      var row, fl := rows[|rows| - 1], List();
      assert RowSorted(row, key) && row[0] in row;
      forall i | 0 < i < |fl| ensures fl[i].id != fl[0].id {
        assert row[i] in row && Before(At(key, row[0]), At(key, row[i]));
      }
      RemoveAbsent(fl[1..], fl[0].id);
    }

    /** Where the check loop stands: what has fired, what still will, and what comes of it. */
    ghost predicate Checking(fired: seq<nat>, all: seq<nat>, final: (seq<Entry>, nat), mode: map<nat, Mode>)
      reads this
    {
      && Valid() && DueRestart() && mode == Modes()
      && fired + Ids(Due(List(), now)) == all && Settled(List(), now, stamp, mode) == final
    }

    /**
      rt_timer_check, for callbacks that leave the timers alone: it ends, the
      timers due when it starts fire once each in deadline-then-start order, the
      periodic ones are listed again at now + init_tick, and nothing is left due.
     */
    method Check() returns (fired: seq<nat>)
      requires Valid() && DueRestart()
      modifies this`rows, this`timeoutTick, this`activated, this`randomNr, this`key, this`stamp
      ensures Valid()
      ensures fired == Ids(Due(old(List()), now))
      ensures Sorted(old(List()))
      ensures forall i :: 0 <= i < |old(List())| ==> (old(List())[i].due <= now <==> i < |fired|)
      ensures (List(), stamp) == Settled(old(List()), now, old(stamp), Modes())
      ensures Due(List(), now) == []
    {
      ghost var fl := List();
      FlatSorted(rows, key);
      DueAll(fl, now);
      fired := FireDue(fl, stamp);
    }

    /** Its loop. */
    method FireDue(ghost fl: seq<Entry>, ghost n: nat) returns (fired: seq<nat>)
      requires Valid() && DueRestart() && fl == List() && n == stamp
      modifies this`rows, this`timeoutTick, this`activated, this`randomNr, this`key, this`stamp
      ensures Valid()
      ensures fired == Ids(Due(fl, now))
      ensures (List(), stamp) == Settled(fl, now, n, Modes())
      ensures Due(List(), now) == []
    {
      fired := [];
      ghost var mode, all, final := Modes(), Ids(Due(List(), now)), Settled(List(), now, stamp, Modes());
      while rows[|rows| - 1] != []
        invariant Checking(fired, all, final, mode)
        decreases |Due(List(), now)|
      {
        var dueNow := FirstDue();
        if dueNow {
          fired := Round(fired, all, final, mode, List());
        } else {
          break;
        }
      }
      AllFired(fired, all, final, mode);
    }

    lemma AllFired(fired: seq<nat>, all: seq<nat>, final: (seq<Entry>, nat), mode: map<nat, Mode>)
      requires Checking(fired, all, final, mode) && Due(List(), now) == []
      ensures fired == all && (List(), stamp) == final
    {
      assert Later(List(), now) == List();
    }

    /** One round of the loop, on a list whose first timer is due. */
    method Round(before: seq<nat>, ghost all: seq<nat>, ghost final: (seq<Entry>, nat), ghost mode: map<nat, Mode>,
        ghost fl: seq<Entry>) returns (fired: seq<nat>)
      requires Checking(before, all, final, mode) && fl == List() != [] && fl[0].due <= now
      modifies this`rows, this`timeoutTick, this`activated, this`randomNr, this`key, this`stamp
      ensures Checking(fired, all, final, mode)
      ensures |Due(List(), now)| < |Due(fl, now)|
    {
      ghost var n := stamp;
      FirstMoves();
      FireThenRest(fl, now, n, mode);
      var id := TakeFirst(fl);
      Rearm(id, fl, n, mode);
      fired := before + [id];
      Fewer(before, id, all, fl);
    }

    lemma Fewer(before: seq<nat>, id: nat, all: seq<nat>, fl: seq<Entry>)
      requires Linked() && fl != [] && fl[0].id == id && Due(fl, now) == [fl[0]] + Due(List(), now)
      requires before + Ids(Due(fl, now)) == all && forall e :: e in Due(fl, now) ==> Restarts(e.id)
      ensures DueRestart() && before + [id] + Ids(Due(List(), now)) == all
    {
      IdsFirst(fl[0], Due(List(), now));
    }

    /** The loop's wrapped comparison on the first timer. */
    method FirstDue() returns (b: bool)
      requires Linked() && List() != []
      ensures b <==> List()[0].due <= now
    {
      var t := rows[|rows| - 1][0];
      assert t in rows[|rows| - 1];
      TickOrderIff(now, key[t].due);
      b := TickSub(tick, timeoutTick[t]) < HalfTick;
    }

    lemma FirstMoves()
      requires Linked() && List() != [] && List()[0].due <= now && DueRestart()
      ensures Moves(List()[0].id, Modes()) && Restarts(List()[0].id)
    {
      assert List()[0] in Due(List(), now);
    }

    /** What a tick needs: deadlines ahead, and due timers that can be restarted. */
    ghost predicate TickReady()
      reads this`rows, this`key, this`now, this`initTick, this`periodic
      requires rows != []
    {
      && (forall id :: id in key ==> now <= key[id].due)
      && (forall e :: e in Due(List(), now + 1) ==> Restarts(e.id))
    }

    /** In a run the listed deadlines lie ahead, and due timers can be restarted if they move. */
    lemma Ahead()
      requires Linked() && TimerRuns.Inv(View())
      ensures DueMove(List(), now + 1, Modes()) ==> TickReady()
    {
      var row := rows[|rows| - 1];
      forall id | id in key ensures now <= key[id].due {
        var i :| 0 <= i < |row| && row[i] == id;
        assert List()[i] == key[id] && TimerRuns.Sane(View(), List()[i]);
      }
      DueHas(List(), now + 1);
      forall e | e in Due(List(), now + 1) && Moves(e.id, Modes()) ensures Restarts(e.id) {
        assert e in List() && TimerRuns.Sane(View(), e);
      }
    }

    /**
      The timer part of rt_tick_increase. With one check per tick every listed
      deadline stays within reach of the wrapping comparison.
     */
    method TickIncrease(ghost fl: seq<Entry>, ghost n: nat, ghost mode: map<nat, Mode>) returns (fired: seq<nat>)
      requires Valid() && TickReady() && fl == List() && n == stamp && mode == Modes()
      modifies this`tick, this`now, this`rows, this`timeoutTick, this`activated, this`randomNr, this`key, this`stamp
      ensures Valid() && now == old(now) + 1 && Modes() == mode
      ensures fired == Ids(Due(fl, now))
      ensures (List(), stamp) == Settled(fl, now, n, mode)
    {
      WrapAdd(now, 1);
      tick := (tick + 1) % TickSpan;
      now := now + 1;
      fired := Check();
    }

    // --------------------------------------------------------- steps of the run

    /** A start, of a listed timer or not, is a step of the run. */
    method StartStep(id: nat, ghost s: TimerRuns.State)
      requires Valid() && id in initTick && initTick[id] < HalfTick && s == View()
      modifies this`rows, this`timeoutTick, this`activated, this`randomNr, this`key, this`stamp
      ensures Valid() && View() == TimerRuns.Next(s, TimerRuns.Step.Start(id, initTick[id], id in periodic))
    {
      ghost var e := Entry(id, now + initTick[id], stamp);
      var _ := Start(id, e);
      TimerRuns.RestartIs(s, id, initTick[id], id in periodic, e, List());
    }

    /** So is setting up an unlisted timer and starting it. */
    method InitStartStep(id: nat, time: nat, isPeriodic: bool, ghost s: TimerRuns.State)
      requires Valid() && id !in key && time < HalfTick && s == View()
      modifies this
      ensures Valid() && View() == TimerRuns.Next(s, TimerRuns.Step.Start(id, time, isPeriodic))
    {
      Init(id, time, isPeriodic);
      ghost var e := Entry(id, now + time, stamp);
      var _ := Start(id, e);
      TimerRuns.StartIs(s, id, time, isPeriodic, e, List(), Modes());
    }

    /** The first section of rt_timer_start is a stop step: the timer is unlinked, active or not. */
    method FirstSection(id: nat, ghost s: TimerRuns.State)
      requires Valid() && s == View()
      modifies this`rows, this`activated, this`key
      ensures Valid() && View() == TimerRuns.Next(s, TimerRuns.Step.Stop(id))
      ensures id !in key
    {
      Unlink(id);
      activated := activated - {id};
    }

    /** Between the sections the deadline is computed from the tick at that moment. */
    method SetTimeout(id: nat)
      requires Valid() && id in initTick && id !in key
      modifies this`timeoutTick
      ensures Valid() && id in timeoutTick && timeoutTick[id] == (now + initTick[id]) % TickSpan
    {
      WrapAdd(now, initTick[id]);
      timeoutTick := timeoutTick[id := (tick + initTick[id]) % TickSpan];
    }

    /** The second section is a link step, `read` being the tick from which the deadline was computed. */
    method SecondSection(id: nat, ghost read: nat, ghost s: TimerRuns.State)
      requires Valid() && s == View() && id in initTick && id in timeoutTick
      requires timeoutTick[id] == (read + initTick[id]) % TickSpan
      requires TimerRuns.Enabled(s, TimerRuns.Step.Link(id, initTick[id], id in periodic, read))
      modifies this`rows, this`activated, this`randomNr, this`key, this`stamp
      ensures Valid() && View() == TimerRuns.Next(s, TimerRuns.Step.Link(id, initTick[id], id in periodic, read))
    {
      Unlisted(id);
      ghost var e := Entry(id, read + initTick[id], stamp);
      PlaceActive(id, e, s.fl);
      TimerRuns.LinkIs(s, id, initTick[id], id in periodic, read, List());
    }

    /** Its body. */
    method PlaceActive(id: nat, ghost e: Entry, ghost fl: seq<Entry>)
      requires Valid() && fl == List() && id !in key && id in initTick && id in timeoutTick
      requires timeoutTick[id] == e.due % TickSpan
      requires e.id == id && now <= e.due < now + HalfTick && e.stamp == stamp
      modifies this`rows, this`activated, this`randomNr, this`key, this`stamp
      ensures Valid() && List() == Insert(fl, e) && stamp == e.stamp + 1
    {
      var _ := Place(id, e);
      activated := activated + {id};
    }

    lemma Unlisted(id: nat)
      requires Linked() && TimerRuns.Of(List(), id) == []
      ensures id !in key
    {
      var row := rows[|rows| - 1];
      if id in key {
        var i :| 0 <= i < |row| && row[i] == id;
        assert List()[i] == key[id] && key[id] in List();
        TimerRuns.OfSome(List(), key[id]);
      }
    }

    /** So is a stop, whether or not it is refused. */
    method StopStep(id: nat, ghost s: TimerRuns.State) returns (ok: bool)
      requires Valid() && s == View()
      modifies this`rows, this`activated, this`key
      ensures Valid() && View() == TimerRuns.Next(s, TimerRuns.Step.Stop(id))
    {
      ok := Stop(id);
    }

    /** And so is a tick, with the fired timers logged. */
    method TickStep(ghost s: TimerRuns.State) returns (fired: seq<nat>)
      requires Valid() && s == View() && TimerRuns.Inv(s) && TimerRuns.Enabled(s, TimerRuns.Step.Tick)
      modifies this
      ensures Valid() && View() == TimerRuns.Next(s, TimerRuns.Step.Tick)
      ensures fired == Ids(Due(s.fl, s.now + 1))
    {
      Ahead();
      fired := ReadyStep(s);
    }

    method ReadyStep(ghost s: TimerRuns.State) returns (fired: seq<nat>)
      requires Valid() && s == View() && TickReady() && TimerRuns.Enabled(s, TimerRuns.Step.Tick)
      modifies this
      ensures Valid() && View() == TimerRuns.Next(s, TimerRuns.Step.Tick)
      ensures fired == Ids(Due(s.fl, s.now + 1))
    {
      log := log + TimerRuns.Logged(Due(s.fl, s.now + 1), s.now + 1);
      fired := TickIncrease(s.fl, s.stamp, s.mode);
      TimerRuns.TickIs(s, List(), stamp);
    }
  }
}
