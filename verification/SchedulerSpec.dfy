/**
  The ready queues, one for each of 256 priorities, and the running thread. A
  scheduling decision is given the least priority that has a queue; how that is
  found from the bitmaps is the business of `ReadyIndex`.
 */
module SchedulerSpec {
  import opened NodeList
  import opened WaitList

  datatype Stat = Init | Ready | Suspend

  datatype Sched = Sched(
    current: nat,
    stat: map<nat, Stat>,
    prio: map<nat, nat>,       // current priorities
    init: map<nat, nat>,       // the priorities given at creation
    queues: seq<seq<nat>>)

  ghost predicate IsReady(s: Sched, t: nat) {
    t in s.stat && s.stat[t] == Ready
  }

  /** The ready threads that do not run. */
  ghost function Queued(s: Sched): set<nat> {
    set t | t in s.stat && s.stat[t] == Ready && t != s.current
  }

  /** Exactly the threads `listed` are queued, each once, at its current priority. */
  ghost predicate Placed(queues: seq<seq<nat>>, prio: map<nat, nat>, listed: set<nat>) {
    && |queues| == 256
    && (forall p :: 0 <= p < 256 ==> NoDup(queues[p]))
    && (forall p, t :: 0 <= p < 256 ==> (t in queues[p] <==> t in listed && Rank(prio, t) == p))
    && (forall t :: t in listed ==> Rank(prio, t) < 256)
  }

  ghost predicate Good(s: Sched) {
    && Placed(s.queues, s.prio, Queued(s))
    && s.current in s.stat
    && (forall t :: t in s.stat ==> Rank(s.prio, t) < 256 && Rank(s.init, t) < 256)
  }

  /** The priorities that have a queue. */
  ghost function Busy(queues: seq<seq<nat>>): set<nat> {
    set p | 0 <= p < |queues| && queues[p] != []
  }

  // -------------------------------------------------------------------- queueing

  ghost function Append(queues: seq<seq<nat>>, p: nat, t: nat): seq<seq<nat>>
    requires p < |queues|
  {
    queues[p := queues[p] + [t]]
  }

  ghost function Unlink(queues: seq<seq<nat>>, p: nat, t: nat): seq<seq<nat>>
    requires p < |queues|
  {
    queues[p := Without(queues[p], t)]
  }

  lemma AppendPlaced(queues: seq<seq<nat>>, prio: map<nat, nat>, listed: set<nat>, t: nat)
    requires Placed(queues, prio, listed) && t !in listed && Rank(prio, t) < 256
    ensures Placed(Append(queues, Rank(prio, t), t), prio, listed + {t})
  {
    NoDupPush(queues[Rank(prio, t)], t);
  }

  lemma UnlinkPlaced(queues: seq<seq<nat>>, prio: map<nat, nat>, listed: set<nat>, t: nat)
    requires Placed(queues, prio, listed) && Rank(prio, t) < 256
    ensures Placed(Unlink(queues, Rank(prio, t), t), prio, listed - {t})
  {
    WithoutNoDup(queues[Rank(prio, t)], t);
  }

  lemma RankPlaced(queues: seq<seq<nat>>, prio: map<nat, nat>, listed: set<nat>, t: nat, p: nat)
    requires Placed(queues, prio, listed) && t !in listed
    ensures Placed(queues, prio[t := p], listed)
  {
    forall q, x | 0 <= q < 256 ensures x in queues[q] <==> x in listed && Rank(prio[t := p], x) == q {
      assert x in queues[q] <==> x in listed && Rank(prio, x) == q;
    }
    forall x | x in listed ensures Rank(prio[t := p], x) < 256 {
      assert Rank(prio[t := p], x) == Rank(prio, x);
    }
  }

  lemma BusyAppend(queues: seq<seq<nat>>, p: nat, t: nat)
    requires p < |queues|
    ensures Busy(Append(queues, p, t)) == Busy(queues) + {p}
  {
  }

  lemma BusyUnlink(queues: seq<seq<nat>>, p: nat, t: nat)
    requires p < |queues|
    ensures Busy(Unlink(queues, p, t)) == if Without(queues[p], t) == [] then Busy(queues) - {p} else Busy(queues)
  {
    var q := Unlink(queues, p, t);
    forall r ensures r in Busy(q) <==> r in Busy(queues) && (r != p || Without(queues[p], t) != []) {
      if r == p && queues[p] == [] {
        assert Without(queues[p], t) == [];
      }
    }
  }

  // ------------------------------------------------------------------------ steps

  /** rt_schedule_insert_thread: ready, and queued unless it is running. */
  ghost function Insert(s: Sched, t: nat): Sched
    requires |s.queues| == 256 && Rank(s.prio, t) < 256
  {
    var r := s.(stat := s.stat[t := Ready]);
    if t == s.current then r else r.(queues := Append(s.queues, Rank(s.prio, t), t))
  }

  lemma InsertKeeps(s: Sched, t: nat)
    requires Good(s) && t in s.stat && s.stat[t] != Ready
    ensures Good(Insert(s, t))
  {
    var r := Insert(s, t);
    if t != s.current {
      AppendPlaced(s.queues, s.prio, Queued(s), t);
      assert Queued(r) == Queued(s) + {t};
    } else {
      assert Queued(r) == Queued(s);
    }
  }

  /** rt_thread_startup: at its initial priority, whatever was set since. */
  ghost function Begin(s: Sched, t: nat): Sched
    requires |s.queues| == 256 && Rank(s.init, t) < 256
  {
    Insert(s.(prio := s.prio[t := Rank(s.init, t)]), t)
  }

  lemma BeginKeeps(s: Sched, t: nat)
    requires Good(s) && t in s.stat && s.stat[t] == Init
    ensures Good(Begin(s, t))
  {
    var r := s.(prio := s.prio[t := Rank(s.init, t)]);
    RankPlaced(s.queues, s.prio, Queued(s), t, Rank(s.init, t));
    assert Queued(r) == Queued(s);
    InsertKeeps(r, t);
  }

  /** rt_thread_suspend of the running thread. */
  ghost function SuspendSelf(s: Sched): Sched {
    s.(stat := s.stat[s.current := Suspend])
  }

  lemma SuspendKeeps(s: Sched)
    requires Good(s)
    ensures Good(SuspendSelf(s))
  {
    assert Queued(SuspendSelf(s)) == Queued(s);
  }

  /** RT_THREAD_CTRL_CHANGE_PRIORITY: a queued thread moves to the end of its new queue. */
  ghost function ChangePriority(s: Sched, t: nat, p: nat): Sched
    requires |s.queues| == 256 && p < 256
  {
    var r := s.(prio := s.prio[t := p]);
    if t in Queued(s) && Rank(s.prio, t) < 256 then
      r.(queues := Append(Unlink(s.queues, Rank(s.prio, t), t), p, t))
    else r
  }

  lemma ChangeKeeps(s: Sched, t: nat, p: nat)
    requires Good(s) && t in s.stat && p < 256
    ensures Good(ChangePriority(s, t, p))
  {
    var r := ChangePriority(s, t, p);
    assert Queued(r) == Queued(s);
    if t in Queued(s) {
      var q := Unlink(s.queues, Rank(s.prio, t), t);
      UnlinkPlaced(s.queues, s.prio, Queued(s), t);
      RankPlaced(q, s.prio, Queued(s) - {t}, t, p);
      AppendPlaced(q, r.prio, Queued(s) - {t}, t);
      assert Queued(s) - {t} + {t} == Queued(s);
    } else {
      RankPlaced(s.queues, s.prio, Queued(s), t, p);
    }
  }

  /** `p` is the least priority with a queue. */
  ghost predicate IsLeast(queues: seq<seq<nat>>, p: nat) {
    p < |queues| && queues[p] != [] && forall r :: 0 <= r < |queues| && queues[r] != [] ==> p <= r
  }

  lemma LeastBusy(queues: seq<seq<nat>>, p: nat)
    requires p in Busy(queues) && forall r :: r in Busy(queues) ==> p <= r
    ensures IsLeast(queues, p)
  {
    forall r | 0 <= r < |queues| && queues[r] != [] ensures p <= r {
      assert r in Busy(queues);
    }
  }

  /** rt_schedule, when the least queued priority is `p`. */
  ghost function ScheduleAt(s: Sched, p: nat): Sched
    requires p < |s.queues| == 256 && s.queues[p] != [] && Rank(s.prio, s.current) < 256
  {
    var c := s.current;
    if IsReady(s, c) && Rank(s.prio, c) < p then s
    else
      var to := s.queues[p][0];
      var q := if IsReady(s, c) then Append(s.queues, Rank(s.prio, c), c) else s.queues;
      s.(current := to, queues := Unlink(q, p, to))
  }

  lemma FirstQueued(s: Sched, p: nat)
    requires Good(s) && p < 256 && s.queues[p] != []
    ensures s.queues[p][0] in Queued(s) && Rank(s.prio, s.queues[p][0]) == p
  {
    assert s.queues[p][0] in s.queues[p];
  }

  lemma ScheduleKeeps(s: Sched, p: nat)
    requires Good(s) && p < 256 && s.queues[p] != []
    ensures Good(ScheduleAt(s, p))
  {
    var c := s.current;
    if !(IsReady(s, c) && Rank(s.prio, c) < p) {
      var to := s.queues[p][0];
      FirstQueued(s, p);
      var r := ScheduleAt(s, p);
      if IsReady(s, c) {
        AppendPlaced(s.queues, s.prio, Queued(s), c);
        UnlinkPlaced(Append(s.queues, Rank(s.prio, c), c), s.prio, Queued(s) + {c}, to);
        assert Queued(r) == Queued(s) + {c} - {to};
      } else {
        UnlinkPlaced(s.queues, s.prio, Queued(s), to);
        assert Queued(r) == Queued(s) - {to};
      }
    }
  }

  /** After scheduling, a ready thread runs and no ready thread is more urgent. */
  ghost predicate BestRuns(s: Sched) {
    IsReady(s, s.current) && forall t :: IsReady(s, t) ==> Rank(s.prio, s.current) <= Rank(s.prio, t)
  }

  lemma ScheduleBest(s: Sched, p: nat)
    requires Good(s) && p < 256 && IsLeast(s.queues, p)
    ensures BestRuns(ScheduleAt(s, p))
  {
    FirstQueued(s, p);
    forall t | t in Queued(s) ensures p <= Rank(s.prio, t) {
      assert t in s.queues[Rank(s.prio, t)];
    }
  }

  /** With no queue at all nothing changes, and that is right exactly if the running thread is ready. */
  lemma NothingQueued(s: Sched)
    requires Good(s) && Busy(s.queues) == {}
    ensures BestRuns(s) <==> IsReady(s, s.current)
    ensures IsReady(s, s.current) <==> exists t :: IsReady(s, t)
  {
    forall t | IsReady(s, t) ensures t == s.current {
      if t != s.current {
        QueuedBusy(s, t);
      }
    }
  }

  lemma QueuedBusy(s: Sched, t: nat)
    requires Good(s) && t in Queued(s)
    ensures Rank(s.prio, t) in Busy(s.queues)
  {
    assert t in s.queues[Rank(s.prio, t)];
  }

  // ------------------------------------------------------------ what each step does

  /** `t` has left the queues, and `enters` has gone to the end of that of `p`. */
  ghost predicate Requeued(before: seq<seq<nat>>, after: seq<seq<nat>>, t: nat, p: nat, enters: seq<nat>) {
    && |before| == |after| == 256
    && forall q :: 0 <= q < 256 ==> after[q] == Without(before[q], t) + (if q == p then enters else [])
  }

  /** Nothing but the queues and what is named differs. */
  ghost predicate SameThreads(s: Sched, r: Sched) {
    r.stat == s.stat && r.prio == s.prio && r.init == s.init
  }

  lemma NotInQueues(s: Sched, t: nat)
    requires Good(s) && t !in Queued(s)
    ensures Requeued(s.queues, s.queues, t, 0, [])
  {
    forall q | 0 <= q < 256 ensures s.queues[q] == Without(s.queues[q], t) + [] {
      WithoutAbsent(s.queues[q], t);
    }
  }

  /**
    A change of priority gives the thread its new priority and no other thread
    one; a queued thread leaves its queue for the end of the new one, and for any
    other thread no queue changes.
   */
  lemma ChangeDoes(s: Sched, t: nat, p: nat)
    requires Good(s) && t in s.stat && p < 256
    ensures var r := ChangePriority(s, t, p);
      && Rank(r.prio, t) == p && (forall u :: u != t ==> Rank(r.prio, u) == Rank(s.prio, u))
      && r.stat == s.stat && r.init == s.init && r.current == s.current
      && (IsReady(s, t) && t != s.current ==> Requeued(s.queues, r.queues, t, p, [t]))
      && (!(IsReady(s, t) && t != s.current) ==> r.queues == s.queues)
  {
    var r := ChangePriority(s, t, p);
    if t in Queued(s) {
      forall q | 0 <= q < 256 ensures r.queues[q] == Without(s.queues[q], t) + (if q == p then [t] else []) {
        if q != Rank(s.prio, t) {
          WithoutAbsent(s.queues[q], t);
        }
      }
    }
  }

  /** A thread that becomes ready enters the end of its queue, unless it is running. */
  lemma InsertDoes(s: Sched, t: nat)
    requires Good(s) && t in s.stat && s.stat[t] != Ready
    ensures var r := Insert(s, t);
      && IsReady(r, t) && (forall u :: u != t ==> (u in r.stat <==> u in s.stat))
      && (forall u :: u != t && u in s.stat ==> r.stat[u] == s.stat[u])
      && r.prio == s.prio && r.init == s.init && r.current == s.current
      && (t != s.current ==> Requeued(s.queues, r.queues, t, Rank(s.prio, t), [t]))
      && (t == s.current ==> r.queues == s.queues)
  {
    NotInQueues(s, t);
    var r := Insert(s, t);
    if t != s.current {
      forall q | 0 <= q < 256
        ensures r.queues[q] == Without(s.queues[q], t) + (if q == Rank(s.prio, t) then [t] else [])
      {
        WithoutAbsent(s.queues[q], t);
      }
    }
  }

  /** A started thread has its initial priority, and the others theirs. */
  lemma BeginDoes(s: Sched, t: nat)
    requires Good(s) && t in s.stat && s.stat[t] == Init
    ensures var r := Begin(s, t);
      && Rank(r.prio, t) == Rank(s.init, t) && (forall u :: u != t ==> Rank(r.prio, u) == Rank(s.prio, u))
      && IsReady(r, t) && r.current == s.current && r.init == s.init
      && (t != s.current ==> Requeued(s.queues, r.queues, t, Rank(s.init, t), [t]))
  {
    var b := s.(prio := s.prio[t := Rank(s.init, t)]);
    RankPlaced(s.queues, s.prio, Queued(s), t, Rank(s.init, t));
    assert Queued(b) == Queued(s);
    InsertDoes(b, t);
  }

  /** A suspended thread is not ready, can be resumed, and a resume at once takes the suspension back. */
  lemma SuspendThenResume(s: Sched)
    requires Good(s) && IsReady(s, s.current)
    ensures var r := SuspendSelf(s);
      && !IsReady(r, s.current) && Enabled(r, Resume(s.current))
      && (forall u :: u != s.current ==> (IsReady(r, u) <==> IsReady(s, u)))
      && r.queues == s.queues && r.prio == s.prio && r.init == s.init && r.current == s.current
      && Next(r, Resume(s.current)) == s
  {
    SuspendKeeps(s);
    assert s.stat[s.current := Suspend][s.current := Ready] == s.stat;
  }

  /**
    Scheduling leaves the running thread alone if it is more urgent than all
    queued ones; else the first of the least queue runs, and a running thread that
    was ready goes to the end of its queue.
   */
  lemma ScheduleDoes(s: Sched, p: nat)
    requires Good(s) && p < 256 && IsLeast(s.queues, p)
    ensures var c, r := s.current, ScheduleAt(s, p);
      && SameThreads(s, r)
      && (IsReady(s, c) && Rank(s.prio, c) < p ==> r == s)
      && (!(IsReady(s, c) && Rank(s.prio, c) < p) ==>
            && r.current == s.queues[p][0]
            && Requeued(s.queues, r.queues, r.current, Rank(s.prio, c), if IsReady(s, c) then [c] else []))
  {
    var c, r, to := s.current, ScheduleAt(s, p), s.queues[p][0];
    FirstQueued(s, p);
    if !(IsReady(s, c) && Rank(s.prio, c) < p) {
      var enters := if IsReady(s, c) then [c] else [];
      forall q | 0 <= q < 256
        ensures r.queues[q] == Without(s.queues[q], to) + (if q == Rank(s.prio, c) then enters else [])
      {
        WithoutAppend(s.queues[q], c, to);
        if q != p {
          WithoutAbsent(s.queues[q], to);
        }
      }
    }
  }

  lemma {:induction false} WithoutAppend(list: seq<nat>, c: nat, t: nat)
    requires c != t
    ensures Without(list + [c], t) == Without(list, t) + [c]
    decreases |list|
  {
    if list == [] {
      assert list + [c] == [c];
    } else {
      WithoutAppend(list[1..], c, t);
      assert (list + [c])[1..] == list[1..] + [c];
    }
  }

  // ------------------------------------------------------------------------- runs

  datatype Step =
    | Create(t: nat, p: nat)
    | Startup(t: nat)
    | SuspendStep
    | Resume(t: nat)
    | Change(t: nat, p: nat)
    | Schedule(p: nat)

  ghost predicate Enabled(s: Sched, step: Step) {
    match step
    case Create(t, p) => t !in s.stat && p < 256
    case Startup(t) => t in s.stat && s.stat[t] == Init
    case SuspendStep => IsReady(s, s.current)
    case Resume(t) => t in s.stat && s.stat[t] == Suspend
    case Change(t, p) => t in s.stat && p < 256
    case Schedule(p) => p < 256 && IsLeast(s.queues, p)
  }

  ghost function Next(s: Sched, step: Step): Sched {
    if !Good(s) || !Enabled(s, step) then s
    else match step
      case Create(t, p) => s.(stat := s.stat[t := Init], prio := s.prio[t := p], init := s.init[t := p])
      case Startup(t) => Begin(s, t)
      case SuspendStep => SuspendSelf(s)
      case Resume(t) => Insert(s, t)
      case Change(t, p) => ChangePriority(s, t, p)
      case Schedule(p) => ScheduleAt(s, p)
  }

  ghost function Exec(s: Sched, steps: seq<Step>): Sched {
    if steps == [] then s else Next(Exec(s, steps[..|steps| - 1]), steps[|steps| - 1])
  }

  ghost function Start(first: nat, p: nat): Sched {
    Sched(first, map[first := Ready], map[first := p], map[first := p], seq(256, i => []))
  }

  lemma StepKeeps(s: Sched, step: Step)
    requires Good(s)
    ensures Good(Next(s, step))
  {
    if Enabled(s, step) {
      match step
      case Create(t, p) =>
        RankPlaced(s.queues, s.prio, Queued(s), t, p);
        assert Queued(Next(s, step)) == Queued(s);
      case Startup(t) => BeginKeeps(s, t);
      case SuspendStep => SuspendKeeps(s);
      case Resume(t) => InsertKeeps(s, t);
      case Change(t, p) => ChangeKeeps(s, t, p);
      case Schedule(p) => ScheduleKeeps(s, p);
    }
  }

  /**
    In every run, every ready thread but the running one is in the queue of its
    current priority and in no other, and the running one is in none.
   */
  lemma {:induction false} EveryRun(first: nat, p: nat, steps: seq<Step>)
    requires p < 256
    ensures Good(Exec(Start(first, p), steps))
    decreases |steps|
  {
    if steps == [] {
      assert Queued(Start(first, p)) == {};
    } else {
      EveryRun(first, p, steps[..|steps| - 1]);
      StepKeeps(Exec(Start(first, p), steps[..|steps| - 1]), steps[|steps| - 1]);
    }
  }

  /** A created thread can be started, with the priority it was given, and changes nothing for the others. */
  lemma CreateDoes(s: Sched, t: nat, p: nat)
    requires Good(s) && t !in s.stat && p < 256
    ensures var r := Next(s, Create(t, p));
      && Enabled(r, Startup(t)) && !IsReady(r, t) && Rank(r.prio, t) == p && Rank(r.init, t) == p
      && (forall u :: u != t ==> (u in r.stat <==> u in s.stat) && (u in s.stat ==> r.stat[u] == s.stat[u]))
      && (forall u :: u != t ==> Rank(r.prio, u) == Rank(s.prio, u) && Rank(r.init, u) == Rank(s.init, u))
      && r.queues == s.queues && r.current == s.current
  {
  }

  // ------------------------------------------------------------------ round robin

  ghost function Rotate(r: seq<nat>): seq<nat>
    requires r != []
  {
    r[1..] + [r[0]]
  }

  ghost function RotateBy(r: seq<nat>, k: nat): (q: seq<nat>)
    requires r != []
    ensures |q| == |r|
  {
    if k == 0 then r else Rotate(RotateBy(r, k - 1))
  }

  lemma {:induction false} RotateByAt(r: seq<nat>, k: nat)
    requires r != [] && k <= |r|
    ensures RotateBy(r, k) == r[k..] + r[..k]
  {
    if k > 0 {
      RotateByAt(r, k - 1);
    }
  }

  /** The running thread and its equals, in the order in which they will run. */
  ghost function Ring(s: Sched, p: nat): seq<nat>
    requires p < |s.queues|
  {
    [s.current] + s.queues[p]
  }

  /** A ready thread runs at the least queued priority, shared with others. */
  ghost predicate Sharing(s: Sched, p: nat) {
    Good(s) && p < 256 && IsLeast(s.queues, p) && IsReady(s, s.current) && Rank(s.prio, s.current) == p
  }

  ghost predicate OthersSame(s: Sched, r: Sched, p: nat) {
    && s.stat == r.stat && s.prio == r.prio && s.init == r.init && |s.queues| == |r.queues|
    && forall q :: 0 <= q < |s.queues| && q != p ==> r.queues[q] == s.queues[q]
  }

  /** The running thread goes to the end of its queue and the first of it runs. */
  lemma YieldQueue(s: Sched, p: nat)
    requires Sharing(s, p)
    ensures var r := ScheduleAt(s, p);
      && OthersSame(s, r, p) && r.current == s.queues[p][0] && r.queues[p] == s.queues[p][1..] + [s.current]
      && r.current != s.current && Rank(s.prio, r.current) == p && IsReady(s, r.current)
  {
    FirstQueued(s, p);
    var q := s.queues[p];
    NoDupPush(q, s.current);
    WithoutHead(q + [s.current]);
    assert (q + [s.current])[1..] == q[1..] + [s.current];
  }

  lemma YieldRotates(s: Sched, p: nat)
    requires Sharing(s, p)
    ensures var r := ScheduleAt(s, p);
      Sharing(r, p) && OthersSame(s, r, p) && Ring(r, p) == Rotate(Ring(s, p))
  {
    var r := ScheduleAt(s, p);
    assert Good(r) by {
      ScheduleKeeps(s, p);
    }
    YieldQueue(s, p);
    assert IsLeast(r.queues, p);
  }

  /** rt_thread_yield when the least queued priority is `p`. */
  ghost function Yield(s: Sched, p: nat): Sched {
    if p < |s.queues| == 256 && s.queues[p] != [] && Rank(s.prio, s.current) < 256 then ScheduleAt(s, p) else s
  }

  ghost function Yields(s: Sched, p: nat, k: nat): Sched {
    if k == 0 then s else Yield(Yields(s, p, k - 1), p)
  }

  lemma OthersSameTrans(a: Sched, b: Sched, c: Sched, p: nat)
    requires OthersSame(a, b, p) && OthersSame(b, c, p)
    ensures OthersSame(a, c, p)
  {
    forall q | 0 <= q < |a.queues| && q != p ensures c.queues[q] == a.queues[q] {
      assert b.queues[q] == a.queues[q];
    }
  }

  /** What `k` yields keep, and what they do to the ring. */
  ghost predicate Turned(s: Sched, r: Sched, p: nat, k: nat) {
    p < |s.queues| && OthersSame(s, r, p) && Ring(r, p) == RotateBy(Ring(s, p), k)
  }

  lemma TurnedMore(s: Sched, r: Sched, p: nat, k: nat)
    requires Sharing(r, p) && Turned(s, r, p, k)
    ensures Sharing(Yield(r, p), p) && Turned(s, Yield(r, p), p, k + 1)
  {
    YieldRotates(r, p);
    OthersSameTrans(s, r, Yield(r, p), p);
  }

  lemma {:induction false} YieldsRotate(s: Sched, p: nat, k: nat)
    requires Sharing(s, p)
    ensures Sharing(Yields(s, p, k), p) && Turned(s, Yields(s, p, k), p, k)
  {
    if k > 0 {
      YieldsRotate(s, p, k - 1);
      TurnedMore(s, Yields(s, p, k - 1), p, k - 1);
    }
  }

  lemma TurnedCurrent(s: Sched, r: Sched, p: nat, k: nat)
    requires Turned(s, r, p, k) && k <= |s.queues[p]|
    ensures r.current == Ring(s, p)[k]
  {
    RotateByAt(Ring(s, p), k);
    assert Ring(r, p)[0] == r.current;
  }

  lemma AfterYields(s: Sched, p: nat, k: nat)
    requires Sharing(s, p) && k <= |s.queues[p]|
    ensures Yields(s, p, k).current == Ring(s, p)[k] && OthersSame(s, Yields(s, p, k), p)
  {
    YieldsRotate(s, p, k);
    TurnedCurrent(s, Yields(s, p, k), p, k);
  }

  /**
    Bounded round robin: under yields alone the thread at position `i` of the
    queue runs after exactly `i` + 1 yields and not before; less urgent queues
    are never touched.
   */
  lemma RoundRobin(s: Sched, p: nat, i: nat, j: nat)
    requires Sharing(s, p) && i < |s.queues[p]| && j <= i
    ensures Yields(s, p, i + 1).current == s.queues[p][i]
    ensures Yields(s, p, j).current != s.queues[p][i]
    ensures OthersSame(s, Yields(s, p, i + 1), p)
  {
    AfterYields(s, p, i + 1);
    AfterYields(s, p, j);
    RingDistinct(s, p, i, j);
  }

  lemma RingDistinct(s: Sched, p: nat, i: nat, j: nat)
    requires Sharing(s, p) && i < |s.queues[p]| && j <= i
    ensures Ring(s, p)[j] != s.queues[p][i]
  {
    assert s.queues[p][i] in s.queues[p];
    if j > 0 {
      DistinctAt(s.queues[p], j - 1, i);
    }
  }

  lemma {:induction false} DistinctAt(list: seq<nat>, i: nat, j: nat)
    requires NoDup(list) && i < j < |list|
    ensures list[i] != list[j]
    decreases |list|
  {
    if i > 0 {
      DistinctAt(list[1..], i - 1, j - 1);
    } else {
      assert list[j] == list[1..][j - 1];
    }
  }

  /** And after a full turn everything is as before. */
  lemma FullTurn(s: Sched, p: nat)
    requires Sharing(s, p)
    ensures var r := Yields(s, p, |Ring(s, p)|); p < |r.queues| && Ring(r, p) == Ring(s, p)
  {
    YieldsRotate(s, p, |Ring(s, p)|);
    RotateByAt(Ring(s, p), |Ring(s, p)|);
  }
}
