/**
  The recursive mutex with priority inheritance as a step system: takes,
  releases and timeouts of any threads in any interleaving. Threads use this one
  mutex and nothing else changes their priorities.
 */
module MutexSpec {
  import opened NodeList
  import opened WaitList

  const HoldSpan: nat := 0x100 // the hold field has 8 bits

  datatype Owner = Free | By(t: nat)

  datatype Mutex = Mutex(
    flag: Flag,
    value: nat,
    owner: Owner,
    original: nat,            // the owner's priority to go back to
    hold: nat,
    waiters: seq<nat>,
    timed: set<nat>,          // threads whose timer is running
    resumed: map<nat, int>,   // woken threads that have not returned yet, with their error code
    prio: map<nat, nat>,      // current priorities
    asked: set<nat>)          // threads that blocked since the owner took the mutex

  datatype Step = Take(t: nat, wait: Wait) | Release(t: nat) | Timeout(t: nat) | Return(t: nat)

  datatype TakeResult = Taken | Refused | Blocked

  ghost predicate Running(m: Mutex, t: nat) {
    t !in m.waiters && t !in m.resumed
  }

  ghost predicate Enabled(m: Mutex, step: Step) {
    match step
    case Take(t, _) => Running(m, t)
    case Release(t) => Running(m, t)
    case Timeout(t) => t in m.timed
    case Return(t) => t in m.resumed
  }

  ghost predicate Owns(m: Mutex, t: nat) {
    m.owner == By(t)
  }

  ghost function Acquire(m: Mutex, t: nat): Mutex
    requires m.value > 0
  {
    m.(value := m.value - 1, owner := By(t), original := Rank(m.prio, t), hold := (m.hold + 1) % HoldSpan, asked := {})
  }

  /** A blocking thread lends its priority to the owner if it is more urgent. */
  ghost function Inherit(m: Mutex, t: nat): map<nat, nat>
    requires m.owner.By?
  {
    if Rank(m.prio, t) < Rank(m.prio, m.owner.t) then m.prio[m.owner.t := Rank(m.prio, t)] else m.prio
  }

  ghost function Block(m: Mutex, t: nat, wait: Wait): Mutex
    requires m.owner.By?
  {
    var prio := Inherit(m, t);
    m.(prio := prio, waiters := Enqueue(m.waiters, t, prio, m.flag),
    timed := if wait.Ticks? then m.timed + {t} else m.timed, asked := m.asked + {t})
  }

  ghost function TakeStep(m: Mutex, t: nat, wait: Wait): Mutex {
    if Owns(m, t) then m.(hold := (m.hold + 1) % HoldSpan)
    else if m.value > 0 then Acquire(m, t)
    else if wait.NoWait? || m.owner.Free? then m
    else Block(m, t, wait)
  }

  ghost function TakeOutcome(m: Mutex, t: nat, wait: Wait): TakeResult {
    if Owns(m, t) || m.value > 0 then Taken else if wait.NoWait? then Refused else Blocked
  }

  /** The mutex passes to the first waiter, which is woken. */
  ghost function Handover(m: Mutex): Mutex
    requires m.waiters != []
  {
    var t := m.waiters[0];
    m.(owner := By(t), original := Rank(m.prio, t), hold := 1,
    waiters := m.waiters[1..], timed := m.timed - {t}, resumed := m.resumed[t := RT_EOK], asked := {})
  }

  ghost function Restore(m: Mutex, t: nat): Mutex {
    if m.original == Rank(m.prio, t) then m else m.(prio := m.prio[t := m.original])
  }

  /** The last release, up to the handover: all priorities are the threads' own again. */
  ghost function Relinquish(m: Mutex, t: nat): Mutex {
    Restore(m, t).(hold := 0)
  }

  ghost function ReleaseStep(m: Mutex, t: nat): Mutex {
    var hold := (m.hold - 1) % HoldSpan;
    if !Owns(m, t) then m
    else if hold != 0 then m.(hold := hold)
    else
      var r := Relinquish(m, t);
      if r.waiters != [] then Handover(r)
      else r.(value := r.value + 1, owner := Free, original := 0xff, asked := {})
  }

  ghost function TimeoutStep(m: Mutex, t: nat): Mutex {
    m.(waiters := Without(m.waiters, t), timed := m.timed - {t}, resumed := m.resumed[t := RT_ETIMEOUT])
  }

  ghost function Next(m: Mutex, step: Step): Mutex {
    if !Enabled(m, step) then m
    else match step
      case Take(t, wait) => TakeStep(m, t, wait)
      case Release(t) => ReleaseStep(m, t)
      case Timeout(t) => TimeoutStep(m, t)
      case Return(t) => m.(resumed := m.resumed - {t})
  }

  ghost function Exec(m: Mutex, steps: seq<Step>): Mutex {
    if steps == [] then m else Next(Exec(m, steps[..|steps| - 1]), steps[|steps| - 1])
  }

  ghost function Init(flag: Flag, base: map<nat, nat>): Mutex {
    Mutex(flag, 1, Free, 0xff, 0, [], {}, map[], base, {})
  }

  // ---------------------------------------------------------------- invariants

  /** Value, owner and hold count tell the same story, and waiters mean an owner. */
  ghost predicate Law(m: Mutex) {
    && m.value <= 1 && m.hold < HoldSpan
    && (m.value == 1 <==> m.owner.Free?)
    && (m.owner.Free? <==> m.hold == 0)
    && (m.waiters != [] ==> m.owner.By?)
  }

  /** Threads are in one place; the timer runs only while suspended; success means ownership. */
  ghost predicate Threads(m: Mutex) {
    && NoDup(m.waiters)
    && (forall t :: t in m.waiters ==> !Owns(m, t) && t !in m.resumed)
    && (forall t :: t in m.timed ==> t in m.waiters)
    && (forall t :: t in m.resumed && m.resumed[t] == RT_EOK ==> Owns(m, t))
  }

  /**
    Only the owner's priority may differ from its own. It is the most urgent one
    among its own and those of the threads that blocked since it took the mutex.
   */
  ghost predicate Priorities(m: Mutex, base: map<nat, nat>) {
    && (forall t :: !Owns(m, t) ==> Rank(m.prio, t) == Rank(base, t))
    && (m.owner.By? ==>
          && m.original == Rank(base, m.owner.t)
          && (Rank(m.prio, m.owner.t) == Rank(base, m.owner.t) ||
              exists u :: u in m.asked && Rank(m.prio, m.owner.t) == Rank(base, u))
          && Rank(m.prio, m.owner.t) <= Rank(base, m.owner.t)
          && forall u :: u in m.asked ==> Rank(m.prio, m.owner.t) <= Rank(base, u))
  }

  /** Nobody waits for an owner less urgent than itself. */
  ghost predicate OwnerUrgent(m: Mutex) {
    m.owner.By? ==> forall t :: t in m.waiters ==> Rank(m.prio, m.owner.t) <= Rank(m.prio, t)
  }

  ghost predicate Good(m: Mutex, base: map<nat, nat>) {
    Law(m) && Threads(m) && Priorities(m, base)
  }

  /** The recursion depth still fits its 8 bits. */
  ghost predicate Fits(m: Mutex, step: Step) {
    step.Take? && Owns(m, step.t) && Enabled(m, step) ==> m.hold < HoldSpan - 1
  }

  lemma TakeKeeps(m: Mutex, t: nat, wait: Wait, base: map<nat, nat>)
    requires Good(m, base) && Running(m, t) && Fits(m, Take(t, wait))
    ensures Good(TakeStep(m, t, wait), base)
  {
    if !Owns(m, t) && m.value == 0 && !wait.NoWait? {
      EnqueueNoDup(m.waiters, t, Inherit(m, t), m.flag);
      var r := Block(m, t, wait);
      assert t in r.asked;
      assert Rank(m.prio, t) == Rank(base, t);
    }
  }

  lemma RestoreGood(m: Mutex, t: nat, base: map<nat, nat>)
    requires Good(m, base) && Owns(m, t)
    ensures forall u :: Rank(Restore(m, t).prio, u) == Rank(base, u)
  {
  }

  lemma HandoverKeeps(m: Mutex, base: map<nat, nat>)
    requires Threads(m) && m.waiters != [] && m.value == 0
    requires forall t :: t in m.resumed ==> m.resumed[t] != RT_EOK
    requires forall u :: Rank(m.prio, u) == Rank(base, u)
    ensures Good(Handover(m), base)
  {
    HeadTail(m.waiters);
  }

  lemma FreeKeeps(m: Mutex, base: map<nat, nat>)
    requires Threads(m) && m.waiters == [] && m.value == 0 && m.hold == 0
    requires forall t :: t in m.resumed ==> m.resumed[t] != RT_EOK
    requires forall u :: Rank(m.prio, u) == Rank(base, u)
    ensures Good(m.(value := 1, owner := Free, original := 0xff, asked := {}), base)
  {
  }

  lemma LastRelease(m: Mutex, t: nat, base: map<nat, nat>)
    requires Good(m, base) && Running(m, t) && Owns(m, t) && m.hold == 1
    ensures Good(ReleaseStep(m, t), base)
  {
    RestoreGood(m, t, base);
    var r := Relinquish(m, t);
    assert Threads(r);
    if r.waiters != [] {
      HandoverKeeps(r, base);
    } else {
      FreeKeeps(r, base);
    }
  }

  lemma ReleaseKeeps(m: Mutex, t: nat, base: map<nat, nat>)
    requires Good(m, base) && Running(m, t)
    ensures Good(ReleaseStep(m, t), base)
  {
    if Owns(m, t) && m.hold == 1 {
      LastRelease(m, t, base);
    } else if Owns(m, t) {
      var r := m.(hold := m.hold - 1);
      assert ReleaseStep(m, t) == r;
    }
  }

  lemma TimeoutKeeps(m: Mutex, t: nat, base: map<nat, nat>)
    requires Good(m, base) && t in m.timed
    ensures Good(TimeoutStep(m, t), base)
  {
    WithoutNoDup(m.waiters, t);
  }

  lemma StepKeepsGood(m: Mutex, step: Step, base: map<nat, nat>)
    requires Good(m, base) && Fits(m, step)
    ensures Good(Next(m, step), base)
  {
    if Enabled(m, step) {
      match step
      case Take(t, wait) => TakeKeeps(m, t, wait, base);
      case Release(t) => ReleaseKeeps(m, t, base);
      case Timeout(t) => TimeoutKeeps(m, t, base);
      case Return(_) =>
    }
  }

  /** A step breaks the law exactly if it is a recursive take at the largest hold count. */
  lemma LawIff(m: Mutex, step: Step, base: map<nat, nat>)
    requires Good(m, base)
    ensures Law(Next(m, step)) <==> Fits(m, step)
  {
    if Fits(m, step) {
      StepKeepsGood(m, step, base);
    }
  }

  /** No step of the run takes the mutex recursively at hold 255. */
  ghost predicate AllFit(init: Mutex, steps: seq<Step>) {
    forall i :: 0 <= i < |steps| ==> Fits(Exec(init, steps[..i]), steps[i])
  }

  lemma AllFitFront(init: Mutex, steps: seq<Step>)
    requires AllFit(init, steps) && steps != []
    ensures var n := |steps| - 1; AllFit(init, steps[..n]) && Fits(Exec(init, steps[..n]), steps[n])
  {
    var n := |steps| - 1;
    assert forall i :: 0 <= i < n ==> steps[..n][..i] == steps[..i] && steps[..n][i] == steps[i];
  }

  lemma AllFitMore(init: Mutex, steps: seq<Step>, step: Step)
    requires AllFit(init, steps) && Fits(Exec(init, steps), step)
    ensures AllFit(init, steps + [step])
    ensures Exec(init, steps + [step]) == Next(Exec(init, steps), step)
  {
    var n := |steps|;
    var more := steps + [step];
    assert more[..n] == steps;
    assert forall i :: 0 <= i < n ==> more[..i] == steps[..i] && more[i] == steps[i];
  }

  /**
    In every run of every thread, for either queueing discipline: value, owner
    and hold agree; whoever is told that it has the mutex owns it; and every
    thread that does not own the mutex has its own priority, so the last release
    has restored it.
   */
  lemma {:induction false} EveryRun(flag: Flag, base: map<nat, nat>, steps: seq<Step>)
    requires AllFit(Init(flag, base), steps)
    ensures Good(Exec(Init(flag, base), steps), base)
    ensures Exec(Init(flag, base), steps).flag == flag
    decreases |steps|
  {
    if steps != [] {
      var n := |steps| - 1;
      var front := steps[..n];
      AllFitFront(Init(flag, base), steps);
      EveryRun(flag, base, front);
      StepKeepsGood(Exec(Init(flag, base), front), steps[n], base);
    }
  }

  /** One thread taking the mutex `n` times: 256 of them leave an owned mutex with hold 0. */
  lemma {:induction false} HoldWraps(flag: Flag, base: map<nat, nat>, steps: seq<Step>)
    requires steps != [] && forall i :: 0 <= i < |steps| ==> steps[i] == Take(1, Forever)
    ensures var m := Exec(Init(flag, base), steps);
      m.owner == By(1) && m.value == 0 && m.hold == |steps| % HoldSpan && m.waiters == [] && m.resumed == map[]
    decreases |steps|
  {
    var n := |steps| - 1;
    if n > 0 {
      HoldWraps(flag, base, steps[..n]);
      var m := Exec(Init(flag, base), steps[..n]);
      assert steps[n] == Take(1, Forever);
      assert Next(m, steps[n]) == m.(hold := (m.hold + 1) % HoldSpan);
      assert (n % HoldSpan + 1) % HoldSpan == (n + 1) % HoldSpan;
    } else {
      assert steps[..n] == [];
    }
  }

  // ------------------------------------------------------- priority inheritance

  lemma TakeUrgent(m: Mutex, t: nat, wait: Wait, base: map<nat, nat>)
    requires Good(m, base) && Running(m, t) && OwnerUrgent(m)
    ensures OwnerUrgent(TakeStep(m, t, wait))
  {
    if !Owns(m, t) && m.value == 0 && !wait.NoWait? {
      var r := Block(m, t, wait);
      assert forall u :: u in r.waiters ==> u == t || u in m.waiters;
    }
  }

  /**
    A handover keeps the owner at least as urgent as every waiter exactly if the
    first waiter is a most urgent one.
   */
  lemma HandoverUrgentIff(m: Mutex, t: nat, base: map<nat, nat>)
    requires Good(m, base) && Running(m, t) && Owns(m, t) && m.hold == 1 && m.waiters != []
    ensures OwnerUrgent(ReleaseStep(m, t))
      <==> forall u :: u in m.waiters ==> Rank(base, m.waiters[0]) <= Rank(base, u)
  {
    RestoreGood(m, t, base);
    HeadTail(m.waiters);
    var r := ReleaseStep(m, t);
    assert forall u :: Rank(r.prio, u) == Rank(base, u);
  }

  lemma ReleaseUrgent(m: Mutex, t: nat, base: map<nat, nat>)
    requires Good(m, base) && Running(m, t) && OwnerUrgent(m) && ByPrio(m.waiters, base)
    ensures OwnerUrgent(ReleaseStep(m, t))
  {
    if Owns(m, t) && m.hold == 1 && m.waiters != [] {
      HeadLeast(m.waiters, base);
      HandoverUrgentIff(m, t, base);
    }
  }

  lemma StepKeepsUrgent(m: Mutex, step: Step, base: map<nat, nat>)
    requires Good(m, base) && OwnerUrgent(m) && ByPrio(m.waiters, base)
    ensures OwnerUrgent(Next(m, step))
  {
    if Enabled(m, step) {
      match step
      case Take(t, wait) => TakeUrgent(m, t, wait, base);
      case Release(t) => ReleaseUrgent(m, t, base);
      case Timeout(_) =>
      case Return(_) =>
    }
  }

  lemma {:induction false} EnqueueSamePrio(list: seq<nat>, t: nat, p: map<nat, nat>, q: map<nat, nat>)
    requires Rank(p, t) == Rank(q, t) && forall x :: x in list ==> Rank(p, x) == Rank(q, x)
    ensures EnqueuePrio(list, t, p) == EnqueuePrio(list, t, q)
    decreases |list|
  {
    if list != [] {
      assert list[0] in list;
      EnqueueSamePrio(list[1..], t, p, q);
    }
  }

  lemma BlockSorted(m: Mutex, t: nat, wait: Wait, base: map<nat, nat>)
    requires Good(m, base) && m.owner.By? && !Owns(m, t) && m.flag.Prio? && ByPrio(m.waiters, base)
    ensures ByPrio(Block(m, t, wait).waiters, base)
  {
    EnqueueSamePrio(m.waiters, t, Inherit(m, t), base);
    EnqueueByPrio(m.waiters, t, base);
  }

  lemma StepKeepsSorted(m: Mutex, step: Step, base: map<nat, nat>)
    requires Good(m, base) && m.flag.Prio? && ByPrio(m.waiters, base)
    ensures ByPrio(Next(m, step).waiters, base)
  {
    if Enabled(m, step) {
      match step
      case Take(t, wait) =>
        if !Owns(m, t) && m.value == 0 && !wait.NoWait? {
          BlockSorted(m, t, wait, base);
        }
      case Release(t) =>
      case Timeout(t) => WithoutByPrio(m.waiters, t, base);
      case Return(_) =>
    }
  }

  ghost predicate Inherited(m: Mutex, base: map<nat, nat>) {
    Good(m, base) && m.flag == Prio && ByPrio(m.waiters, base) && OwnerUrgent(m)
  }

  lemma StepKeepsInherited(m: Mutex, step: Step, base: map<nat, nat>)
    requires Inherited(m, base) && Fits(m, step)
    ensures Inherited(Next(m, step), base)
  {
    StepKeepsGood(m, step, base);
    StepKeepsUrgent(m, step, base);
    StepKeepsSorted(m, step, base);
  }

  /**
    In every run of a mutex that queues by priority, the waiters are sorted by
    priority and the owner is at least as urgent as each of them: no thread waits
    behind a less urgent one.
   */
  lemma {:induction false} NoPriorityInversion(base: map<nat, nat>, steps: seq<Step>)
    requires AllFit(Init(Prio, base), steps)
    ensures Inherited(Exec(Init(Prio, base), steps), base)
    decreases |steps|
  {
    if steps != [] {
      var n := |steps| - 1;
      AllFitFront(Init(Prio, base), steps);
      NoPriorityInversion(base, steps[..n]);
      StepKeepsInherited(Exec(Init(Prio, base), steps[..n]), steps[n], base);
    }
  }

  /** A run to one owner and two waiters, the second more urgent than the first. */
  lemma FifoQueue(base: map<nat, nat>, steps: seq<Step>)
    requires base == map[1 := 5, 2 := 9, 3 := 7]
    requires steps == [Take(1, Forever), Take(2, Forever), Take(3, Forever)]
    ensures AllFit(Init(Fifo, base), steps)
    ensures Exec(Init(Fifo, base), steps) == Mutex(Fifo, 0, By(1), 5, 1, [2, 3], {}, map[], base, {2, 3})
  {
    var init := Init(Fifo, base);
    var s1, s2: seq<Step> := [Take(1, Forever)], [Take(1, Forever), Take(2, Forever)];
    AllFitMore(init, [], Take(1, Forever));
    assert [] + [Take(1, Forever)] == s1;
    assert Exec(init, s1) == Mutex(Fifo, 0, By(1), 5, 1, [], {}, map[], base, {});
    AllFitMore(init, s1, Take(2, Forever));
    assert s1 + [Take(2, Forever)] == s2;
    assert Exec(init, s2) == Mutex(Fifo, 0, By(1), 5, 1, [2], {}, map[], base, {2});
    AllFitMore(init, s2, Take(3, Forever));
    assert s2 + [Take(3, Forever)] == steps;
  }

  lemma FifoHandover(m: Mutex, base: map<nat, nat>)
    requires base == map[1 := 5, 2 := 9, 3 := 7]
    requires m == Mutex(Fifo, 0, By(1), 5, 1, [2, 3], {}, map[], base, {2, 3})
    ensures !OwnerUrgent(Next(m, Release(1)))
  {
    var r := Next(m, Release(1));
    assert r.owner == By(2) && r.waiters == [3] && r.prio == base;
    assert 3 in r.waiters && Rank(base, 3) < Rank(base, 2);
  }

  /** A FIFO mutex does invert priorities: it passes to the first of those two. */
  lemma FifoInverts() returns (steps: seq<Step>, base: map<nat, nat>)
    ensures AllFit(Init(Fifo, base), steps) && !OwnerUrgent(Exec(Init(Fifo, base), steps))
  {
    base := map[1 := 5, 2 := 9, 3 := 7];
    var front := [Take(1, Forever), Take(2, Forever), Take(3, Forever)];
    FifoQueue(base, front);
    var m := Exec(Init(Fifo, base), front);
    AllFitMore(Init(Fifo, base), front, Release(1));
    FifoHandover(m, base);
    steps := front + [Release(1)];
  }

  // ------------------------------------------------------------ what each step does

  /**
    The answer of a take says what has happened: the owner counts one up, a free
    mutex gets an owner, a caller that does not wait is refused and nothing
    changes, and any other is suspended, with its timer running exactly if it
    waits for a time.
   */
  lemma TakeAnswers(m: Mutex, t: nat, wait: Wait, base: map<nat, nat>)
    requires Good(m, base) && Running(m, t) && Fits(m, Take(t, wait))
    ensures var r, o := TakeStep(m, t, wait), TakeOutcome(m, t, wait);
      && (o.Taken? <==> m.owner == Free || m.owner == By(t)) && (o.Taken? ==> r.owner == By(t))
      && (m.owner == By(t) ==> r == m.(hold := m.hold + 1))
      && (m.owner == Free ==> r.hold == 1 && r.value == 0 && r.prio == m.prio && r.waiters == [] && r.timed == m.timed)
      && (o.Refused? <==> m.owner != Free && m.owner != By(t) && wait.NoWait?) && (o.Refused? ==> r == m)
      && (o.Blocked? ==>
            && Queues(m.waiters, t, r.prio, m.flag, r.waiters)
            && t in r.waiters && (t in r.timed <==> wait.Ticks?) && r.owner == m.owner && r.hold == m.hold
            && (forall u :: u != t ==> (u in r.timed <==> u in m.timed) && (u in r.waiters <==> u in m.waiters)))
  {
    if m.owner.By? {
      EnqueueQueues(m.waiters, t, Inherit(m, t), m.flag);
    }
  }

  /** A release takes back a take by the owner: the mutex is held until there were as many releases as takes. */
  lemma ReleaseUndoesTake(m: Mutex, t: nat, wait: Wait, base: map<nat, nat>)
    requires Good(m, base) && Running(m, t) && m.owner == By(t) && m.hold < HoldSpan - 1
    ensures ReleaseStep(TakeStep(m, t, wait), t) == m
  {
  }

  /** A free mutex that is taken and released is free again, with all priorities as before. */
  lemma TakeThenRelease(m: Mutex, t: nat, wait: Wait, base: map<nat, nat>)
    requires Good(m, base) && Running(m, t) && m.owner == Free
    ensures var r := ReleaseStep(TakeStep(m, t, wait), t);
      r.owner == Free && r.value == m.value && r.hold == 0 && r.waiters == [] && r.prio == m.prio
  {
  }

  /**
    A release by a thread that is not the owner does nothing; the last one by the
    owner passes the mutex to the first waiter, which returns with success, or
    frees it.
   */
  lemma ReleaseDoes(m: Mutex, t: nat, base: map<nat, nat>)
    requires Good(m, base) && Running(m, t)
    ensures var r := ReleaseStep(m, t);
      && (m.owner != By(t) ==> r == m)
      && (m.owner == By(t) && m.hold > 1 ==> r == m.(hold := m.hold - 1))
      && (m.owner == By(t) && m.hold == 1 ==>
            && (forall u :: Rank(r.prio, u) == Rank(base, u))
            && (m.waiters == [] ==> r.owner == Free && r.value == 1 && r.resumed == m.resumed)
            && (m.waiters != [] ==>
                  && r.owner == By(m.waiters[0]) && r.hold == 1 && r.waiters == m.waiters[1..]
                  && r.timed == m.timed - {m.waiters[0]} && r.resumed == m.resumed[m.waiters[0] := RT_EOK]))
  {
    if m.owner == By(t) && m.hold == 1 {
      RestoreGood(m, t, base);
    }
  }

  /** A timeout ends just that take, with the error for it, and does not touch the mutex. */
  lemma TimeoutDoes(m: Mutex, t: nat, base: map<nat, nat>)
    requires Good(m, base) && t in m.timed
    ensures var r := Next(m, Timeout(t));
      && r.waiters == Without(m.waiters, t) && t !in r.timed && r.resumed == m.resumed[t := -2]
      && r.owner == m.owner && r.hold == m.hold && r.value == m.value && r.prio == m.prio
  {
  }

  /** A woken thread that returns can call again, and nothing else changes. */
  lemma ReturnDoes(m: Mutex, t: nat, wait: Wait, base: map<nat, nat>)
    requires Good(m, base) && t in m.resumed
    ensures var r := Next(m, Return(t));
      && Enabled(r, Take(t, wait)) && Enabled(r, Release(t)) && r == m.(resumed := r.resumed)
      && (forall u :: u != t && u in m.resumed ==> u in r.resumed && r.resumed[u] == m.resumed[u])
  {
  }

  // ------------------------------------------------------------------- timed waits

  /** How long thread `t` was prepared to wait when it last called. */
  ghost function LastWait(init: Mutex, steps: seq<Step>, t: nat): Wait {
    if steps == [] then NoWait
    else
      var front, last := steps[..|steps| - 1], steps[|steps| - 1];
      if last.Take? && last.t == t && Enabled(Exec(init, front), last) then last.wait else LastWait(init, front, t)
  }

  /** In every run a suspended thread can time out exactly if it waits for a time. */
  lemma {:induction false} TimedExactly(flag: Flag, base: map<nat, nat>, steps: seq<Step>, t: nat)
    requires AllFit(Init(flag, base), steps)
    ensures var m := Exec(Init(flag, base), steps);
      t in m.waiters ==> (Enabled(m, Timeout(t)) <==> LastWait(Init(flag, base), steps, t).Ticks?)
    decreases |steps|
  {
    if steps != [] {
      var front, last := steps[..|steps| - 1], steps[|steps| - 1];
      AllFitFront(Init(flag, base), steps);
      TimedExactly(flag, base, front, t);
      EveryRun(flag, base, front);
      if t in Exec(Init(flag, base), steps).waiters {
        StepTimed(Exec(Init(flag, base), front), last, t, base);
      }
    }
  }

  /** A step other than its own take leaves the timer of a thread that stays suspended alone. */
  lemma StepTimed(m: Mutex, step: Step, t: nat, base: map<nat, nat>)
    requires Good(m, base) && Fits(m, step) && t in Next(m, step).waiters
    ensures step.Take? && step.t == t && Enabled(m, step) ==> (t in Next(m, step).timed <==> step.wait.Ticks?)
    ensures !(step.Take? && step.t == t && Enabled(m, step)) ==>
      t in m.waiters && (t in Next(m, step).timed <==> t in m.timed)
  {
    if Enabled(m, step) {
      match step
      case Take(u, wait) => TakeAnswers(m, u, wait, base);
      case Release(u) =>
        ReleaseDoes(m, u, base);
        if m.waiters != [] {
          HeadTail(m.waiters);
        }
      case Timeout(_) =>
      case Return(_) =>
    }
  }
}
