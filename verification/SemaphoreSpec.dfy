/**
  The counting semaphore as a step system: takes, releases, timeouts and resets
  in any interleaving. Every take that blocks draws a ticket, and the outcome of
  each ticket is recorded when its thread is woken.
 */
module SemaphoreSpec {
  import opened NodeList
  import opened WaitList

  const Span: nat := 0x1_0000 // the value field has 16 bits

  datatype Outcome = Granted | TimedOut | Aborted

  datatype Sem = Sem(
    flag: Flag,
    value: nat,
    waiters: seq<nat>,
    timed: set<nat>,             // threads whose timer is running
    ticket: map<nat, nat>,       // the ticket of each suspended thread
    next: nat,                   // tickets drawn so far
    ended: map<nat, Outcome>,    // what became of a ticket
    resumed: map<nat, nat>,      // woken threads that have not returned yet
    initial: nat,                // the value set by init or the last reset
    released: nat,               // releases since then
    granted: nat,                // takes granted since then
    wraps: nat)                  // releases since then that wrapped the value

  datatype Step =
    | Take(t: nat, wait: Wait, prio: map<nat, nat>)
    | Release
    | Timeout(t: nat)
    | Reset(v: nat)
    | Return(t: nat)

  datatype TakeResult = Taken | Refused | Blocked

  ghost predicate Enabled(s: Sem, step: Step) {
    match step
    case Take(t, _, _) => t !in s.waiters && t !in s.resumed
    case Timeout(t) => t in s.timed
    case Return(t) => t in s.resumed
    case _ => true
  }

  /** A suspended thread is woken, and its ticket ends. */
  ghost function Wake(s: Sem, t: nat, o: Outcome): Sem {
    if t !in s.ticket then s
    else s.(waiters := Without(s.waiters, t), timed := s.timed - {t}, ticket := s.ticket - {t},
         ended := s.ended[s.ticket[t] := o], resumed := s.resumed[t := s.ticket[t]])
  }

  ghost function TakeStep(s: Sem, t: nat, wait: Wait, prio: map<nat, nat>): Sem {
    if s.value > 0 then s.(value := s.value - 1, granted := s.granted + 1)
    else if wait.NoWait? then s
    else s.(waiters := Enqueue(s.waiters, t, prio, s.flag),
         timed := if wait.Ticks? then s.timed + {t} else s.timed,
         ticket := s.ticket[t := s.next], next := s.next + 1)
  }

  ghost function TakeOutcome(s: Sem, wait: Wait): TakeResult {
    if s.value > 0 then Taken else if wait.NoWait? then Refused else Blocked
  }

  ghost function ReleaseStep(s: Sem): Sem {
    if s.waiters != [] then
      Wake(s, s.waiters[0], Granted).(released := s.released + 1, granted := s.granted + 1)
    else
      s.(value := (s.value + 1) % Span, released := s.released + 1,
      wraps := if s.value + 1 == Span then s.wraps + 1 else s.wraps)
  }

  /** All suspended threads are woken with an error. */
  ghost function AbortAll(s: Sem): Sem {
    s.(waiters := [], timed := s.timed - Members(s.waiters), ticket := map[],
    ended := s.ended + map k | k in s.ticket.Values :: Aborted, resumed := s.resumed + s.ticket)
  }

  ghost function ResetStep(s: Sem, v: nat): Sem {
    AbortAll(s).(value := v % Span, initial := v % Span, released := 0, granted := 0, wraps := 0)
  }

  ghost function Next(s: Sem, step: Step): Sem {
    if !Enabled(s, step) then s
    else match step
      case Take(t, wait, prio) => TakeStep(s, t, wait, prio)
      case Release => ReleaseStep(s)
      case Timeout(t) => Wake(s, t, TimedOut)
      case Reset(v) => ResetStep(s, v)
      case Return(t) => s.(resumed := s.resumed - {t})
  }

  ghost function Exec(s: Sem, steps: seq<Step>): Sem {
    if steps == [] then s else Next(Exec(s, steps[..|steps| - 1]), steps[|steps| - 1])
  }

  ghost function Init(v: nat, flag: Flag): Sem {
    Sem(flag, v % Span, [], {}, map[], 0, map[], map[], v % Span, 0, 0, 0)
  }

  // ---------------------------------------------------------------- invariants

  /** Tokens are neither made nor lost, except 65536 at a time when the value wraps. */
  ghost predicate Conserved(s: Sem) {
    && s.value < Span
    && s.initial + s.released == s.value + s.granted + Span * s.wraps
    && (s.value > 0 ==> s.waiters == [])
  }

  /** Each suspended thread holds its own open ticket; its timer runs only while it is suspended. */
  ghost predicate Threads(s: Sem) {
    && NoDup(s.waiters)
    && (forall t :: t in s.waiters <==> t in s.ticket)
    && (forall t :: t in s.timed ==> t in s.waiters)
    && (forall t :: t in s.resumed ==> t !in s.waiters && s.resumed[t] in s.ended)
  }

  /** Every ticket drawn is open or has ended, never both, and no two threads share one. */
  ghost predicate Tickets(s: Sem) {
    && (forall t :: t in s.ticket ==> s.ticket[t] < s.next && s.ticket[t] !in s.ended)
    && (forall t, u :: t in s.ticket && u in s.ticket && s.ticket[t] == s.ticket[u] ==> t == u)
    && (forall k :: k in s.ended ==> k < s.next)
    && (forall k :: 0 <= k < s.next && k !in s.ended ==> k in s.ticket.Values)
  }

  /** The first waiter is the next to be served: the oldest, or the most urgent. */
  ghost predicate InOrder(s: Sem, prio: map<nat, nat>) {
    if s.flag.Fifo? then ByPrio(s.waiters, s.ticket) else ByPrio(s.waiters, prio)
  }

  ghost predicate Good(s: Sem) {
    Conserved(s) && Threads(s) && Tickets(s)
  }

  lemma WakeKeeps(s: Sem, t: nat, o: Outcome)
    requires Threads(s) && Tickets(s) && t in s.ticket
    ensures var r := Wake(s, t, o); Threads(r) && Tickets(r)
  {
    WithoutNoDup(s.waiters, t);
    var r := Wake(s, t, o);
    forall k | 0 <= k < r.next && k !in r.ended ensures k in r.ticket.Values {
      assert k in s.ticket.Values;
      var u :| u in s.ticket && s.ticket[u] == k;
      assert r.ticket[u] == k;
    }
  }

  lemma TakeKeeps(s: Sem, t: nat, wait: Wait, prio: map<nat, nat>)
    requires Good(s) && t !in s.waiters && t !in s.resumed
    ensures Good(TakeStep(s, t, wait, prio))
  {
    if s.value == 0 && !wait.NoWait? {
      EnqueueNoDup(s.waiters, t, prio, s.flag);
      DrawTicket(s, TakeStep(s, t, wait, prio), t);
    }
  }

  /** A thread that suspends draws the next ticket. */
  lemma DrawTicket(s: Sem, r: Sem, t: nat)
    requires Tickets(s) && t !in s.ticket && r.ended == s.ended
    requires r.ticket == s.ticket[t := s.next] && r.next == s.next + 1
    ensures Tickets(r)
  {
    ValuesMore(s.ticket, t, s.next);
  }

  lemma ValuesMore(m: map<nat, nat>, t: nat, v: nat)
    requires t !in m
    ensures m[t := v].Values == m.Values + {v}
  {
    var n := m[t := v];
    forall k | k in m.Values ensures k in n.Values {
      var u :| u in m && m[u] == k;
      assert n[u] == k;
    }
    assert n[t] == v;
  }

  lemma ReleaseKeeps(s: Sem)
    requires Good(s)
    ensures Good(ReleaseStep(s))
  {
    if s.waiters != [] {
      assert s.waiters[0] in s.waiters;
      WakeKeeps(s, s.waiters[0], Granted);
    }
  }

  lemma AbortKeeps(s: Sem)
    requires Threads(s) && Tickets(s)
    ensures Threads(AbortAll(s)) && Tickets(AbortAll(s))
  {
    AbortEnds(s);
    var r := AbortAll(s);
    forall t | t in r.resumed ensures r.resumed[t] in r.ended {
      assert t in s.ticket ==> r.resumed[t] == s.ticket[t];
    }
  }

  lemma AbortEnds(s: Sem)
    requires Tickets(s)
    ensures Tickets(AbortAll(s))
    ensures forall k :: k in AbortAll(s).ended <==> k in s.ended || k in s.ticket.Values
    ensures forall t :: t in s.ticket ==> s.ticket[t] in AbortAll(s).ended
  {
    forall t | t in s.ticket ensures s.ticket[t] in AbortAll(s).ended {
      assert s.ticket[t] in s.ticket.Values;
    }
  }

  lemma StepKeepsGood(s: Sem, step: Step)
    requires Good(s)
    ensures Good(Next(s, step))
  {
    if Enabled(s, step) {
      match step
      case Take(t, wait, prio) => TakeKeeps(s, t, wait, prio);
      case Release => ReleaseKeeps(s);
      case Timeout(t) => WakeKeeps(s, t, TimedOut);
      case Reset(_) => AbortKeeps(s);
      case Return(_) =>
    }
  }

  /**
    In every run: initial value plus releases equals value plus granted takes, up
    to the wrap-arounds; a positive value means nobody waits; every blocked take
    is still waiting or has ended, and not both.
   */
  lemma {:induction false} EveryRun(v: nat, flag: Flag, steps: seq<Step>)
    ensures Good(Exec(Init(v, flag), steps))
    decreases |steps|
  {
    if steps != [] {
      EveryRun(v, flag, steps[..|steps| - 1]);
      StepKeepsGood(Exec(Init(v, flag), steps[..|steps| - 1]), steps[|steps| - 1]);
    }
  }

  /** The plain conservation law holds exactly as long as no release wrapped the value. */
  lemma ConservedIff(v: nat, flag: Flag, steps: seq<Step>)
    ensures var s := Exec(Init(v, flag), steps);
      s.initial + s.released == s.value + s.granted <==> s.wraps == 0
  {
    EveryRun(v, flag, steps);
  }

  /** A release wraps exactly when nobody waits at the largest value: 65535 tokens vanish with it. */
  lemma ReleaseWrapsIff(s: Sem)
    requires Good(s)
    ensures ReleaseStep(s).wraps != s.wraps <==> s.value == Span - 1
    ensures s.value == Span - 1 ==> ReleaseStep(s).value == 0
    ensures s.value < Span - 1 && s.waiters == [] ==> ReleaseStep(s).value == s.value + 1
  {
  }

  /** A run in which the law fails. */
  lemma WrapLosesTokens()
    ensures var s := Exec(Init(0xffff, Fifo), [Release]);
      s.value == 0 && s.initial == 0xffff && s.released == 1 && s.granted == 0
  {
    var init := Init(0xffff, Fifo);
    assert [Release][..0] == [];
    assert Exec(init, [Release]) == Next(Exec(init, [Release][..0]), Release);
  }

  // ----------------------------------------------------- each take ends just once

  /** An outcome, once recorded, is never changed. */
  lemma StepExtends(s: Sem, step: Step)
    requires Good(s)
    ensures forall k :: k in s.ended ==> k in Next(s, step).ended && Next(s, step).ended[k] == s.ended[k]
    ensures s.next <= Next(s, step).next
  {
    if Enabled(s, step) {
      match step
      case Take(_, _, _) =>
      case Release =>
        if s.waiters != [] {
          assert s.waiters[0] in s.waiters;
        }
      case Timeout(_) =>
      case Reset(_) =>
      case Return(_) =>
    }
  }

  /**
    Each blocked take ends by exactly one of grant, timeout and reset: an outcome
    recorded at some point of a run is the outcome ever after.
   */
  lemma {:induction false} EndsOnce(v: nat, flag: Flag, steps: seq<Step>, n: nat, k: nat)
    requires n <= |steps| && k in Exec(Init(v, flag), steps[..n]).ended
    ensures var s := Exec(Init(v, flag), steps);
      k in s.ended && s.ended[k] == Exec(Init(v, flag), steps[..n]).ended[k]
    decreases |steps|
  {
    if n == |steps| {
      assert steps[..n] == steps;
    } else {
      var front := steps[..|steps| - 1];
      assert front[..n] == steps[..n];
      EndsOnce(v, flag, front, n, k);
      EveryRun(v, flag, front);
      StepExtends(Exec(Init(v, flag), front), steps[|steps| - 1]);
    }
  }

  // -------------------------------------------------------------------- fairness

  lemma {:induction false} AppendByPrio(list: seq<nat>, t: nat, rank: map<nat, nat>)
    requires ByPrio(list, rank) && forall x :: x in list ==> Rank(rank, x) <= Rank(rank, t)
    ensures ByPrio(list + [t], rank)
    decreases |list|
  {
    if list == [] {
      assert list + [t] == [t];
    } else {
      AppendByPrio(list[1..], t, rank);
      assert (list + [t])[1..] == list[1..] + [t];
    }
  }

  lemma WakeInOrder(s: Sem, t: nat, o: Outcome, prio: map<nat, nat>)
    requires Threads(s) && InOrder(s, prio)
    ensures InOrder(Wake(s, t, o), prio)
  {
    if s.flag.Fifo? {
      WithoutByPrio(s.waiters, t, s.ticket);
      SamePrio(Without(s.waiters, t), s.ticket, s.ticket - {t});
    } else {
      WithoutByPrio(s.waiters, t, prio);
    }
  }

  lemma TakeInOrder(s: Sem, t: nat, wait: Wait, prio: map<nat, nat>)
    requires Good(s) && InOrder(s, prio) && t !in s.waiters
    ensures InOrder(TakeStep(s, t, wait, prio), prio)
  {
    if s.value == 0 && !wait.NoWait? {
      if s.flag.Fifo? {
        SamePrio(s.waiters, s.ticket, s.ticket[t := s.next]);
        AppendByPrio(s.waiters, t, s.ticket[t := s.next]);
      } else {
        EnqueueByPrio(s.waiters, t, prio);
      }
    }
  }

  lemma StepKeepsOrder(s: Sem, step: Step, prio: map<nat, nat>)
    requires Good(s) && InOrder(s, prio) && (step.Take? ==> step.prio == prio)
    ensures InOrder(Next(s, step), prio)
  {
    if Enabled(s, step) {
      match step
      case Take(t, wait, _) => TakeInOrder(s, t, wait, prio);
      case Release =>
        if s.waiters != [] {
          WakeInOrder(s, s.waiters[0], Granted, prio);
        }
      case Timeout(t) => WakeInOrder(s, t, TimedOut, prio);
      case Reset(_) =>
      case Return(_) =>
    }
  }

  lemma {:induction false} RunInOrder(v: nat, flag: Flag, steps: seq<Step>, prio: map<nat, nat>)
    requires forall i :: 0 <= i < |steps| && steps[i].Take? ==> steps[i].prio == prio
    ensures InOrder(Exec(Init(v, flag), steps), prio)
    decreases |steps|
  {
    if steps != [] {
      var front := steps[..|steps| - 1];
      RunInOrder(v, flag, front, prio);
      EveryRun(v, flag, front);
      StepKeepsOrder(Exec(Init(v, flag), front), steps[|steps| - 1], prio);
    }
  }

  /**
    In a run with fixed priorities, a release serves the take that blocked first
    if the semaphore is FIFO, and a most urgent one if it is by priority.
   */
  lemma ServesInOrder(v: nat, flag: Flag, steps: seq<Step>, prio: map<nat, nat>, t: nat)
    requires forall i :: 0 <= i < |steps| && steps[i].Take? ==> steps[i].prio == prio
    requires t in Exec(Init(v, flag), steps).waiters
    ensures var s := Exec(Init(v, flag), steps);
      var first := s.waiters[0];
      && first in s.ticket && t in s.ticket
      && ReleaseStep(s).ended == s.ended[s.ticket[first] := Granted]
      && (s.flag.Fifo? ==> s.ticket[first] <= s.ticket[t])
      && (s.flag.Prio? ==> Rank(prio, first) <= Rank(prio, t))
  {
    var s := Exec(Init(v, flag), steps);
    EveryRun(v, flag, steps);
    RunInOrder(v, flag, steps, prio);
    assert s.waiters[0] in s.waiters;
    HeadLeast(s.waiters, if s.flag.Fifo? then s.ticket else prio);
  }

  // ------------------------------------------------------------ what each step does

  /**
    The answer of a take says what has happened: a token is taken if there is one;
    else a caller that does not wait is refused and nothing changes; else the
    caller is suspended, with its timer running exactly if it waits for a time.
   */
  lemma TakeAnswers(s: Sem, t: nat, wait: Wait, prio: map<nat, nat>)
    requires Good(s) && t !in s.waiters && t !in s.resumed
    ensures var r, o := TakeStep(s, t, wait, prio), TakeOutcome(s, wait);
      && (o.Taken? <==> s.value > 0) && (o.Refused? <==> s.value == 0 && wait.NoWait?)
      && (o.Taken? ==>
            && r.value == s.value - 1 && r.granted == s.granted + 1
            && r.waiters == s.waiters && r.timed == s.timed)
      && (o.Refused? ==> r == s)
      && (o.Blocked? ==>
            && Queues(s.waiters, t, prio, s.flag, r.waiters)
            && t in r.waiters && (t in r.timed <==> wait.Ticks?) && t in r.ticket && r.ticket[t] == s.next
            && r.value == s.value == 0 && r.granted == s.granted
            && (forall u :: u != t ==> (u in r.timed <==> u in s.timed) && (u in r.waiters <==> u in s.waiters)))
  {
    EnqueueQueues(s.waiters, t, prio, s.flag);
  }

  /** A release with nobody waiting adds a token; else it wakes one waiter, whose take is granted, and adds none. */
  lemma ReleaseDoes(s: Sem)
    requires Good(s)
    ensures var r := ReleaseStep(s);
      && (s.waiters == [] && s.value < Span - 1 ==> r.value == s.value + 1 && r.resumed == s.resumed)
      && (s.waiters != [] ==>
            && var t := s.waiters[0];
            && t in s.ticket && r.value == s.value && r.waiters == s.waiters[1..]
            && r.resumed == s.resumed[t := s.ticket[t]] && r.ended == s.ended[s.ticket[t] := Granted]
            && r.timed == s.timed - {t})
  {
    if s.waiters != [] {
      assert s.waiters[0] in s.waiters;
      WithoutHead(s.waiters);
    }
  }

  /** A timeout ends just that take, without a token, and the others stay in order. */
  lemma TimeoutDoes(s: Sem, t: nat)
    requires Good(s) && t in s.timed
    ensures var r := Next(s, Timeout(t));
      && t in s.ticket && t !in r.waiters && t !in r.timed && r.waiters == Without(s.waiters, t)
      && r.ended == s.ended[s.ticket[t] := TimedOut] && r.resumed == s.resumed[t := s.ticket[t]]
      && r.value == s.value && r.granted == s.granted
  {
  }

  /** A reset sets the value, cut to 16 bits, and aborts every take that waits. */
  lemma ResetDoes(s: Sem, v: nat)
    requires Good(s)
    ensures var r := Next(s, Reset(v));
      && r.value == v % 0x1_0000 && r.waiters == [] && r.timed == {}
      && (forall t :: t in s.waiters ==> t in s.ticket && t in r.resumed && r.resumed[t] == s.ticket[t])
      && (forall k :: k in s.ticket.Values ==> k in r.ended && r.ended[k] == Aborted)
  {
    AbortEnds(s);
  }

  /** A woken thread that returns can call again, and nothing else changes. */
  lemma ReturnDoes(s: Sem, t: nat, wait: Wait, prio: map<nat, nat>)
    requires Good(s) && t in s.resumed
    ensures var r := Next(s, Return(t));
      && Enabled(r, Take(t, wait, prio)) && r == s.(resumed := r.resumed)
      && (forall u :: u != t && u in s.resumed ==> u in r.resumed && r.resumed[u] == s.resumed[u])
  {
  }

  // ------------------------------------------------------------------- timed waits

  /** How long thread `t` was prepared to wait when it last called. */
  ghost function LastWait(init: Sem, steps: seq<Step>, t: nat): Wait {
    if steps == [] then NoWait
    else
      var front, last := steps[..|steps| - 1], steps[|steps| - 1];
      if last.Take? && last.t == t && Enabled(Exec(init, front), last) then last.wait else LastWait(init, front, t)
  }

  /** In every run a suspended thread can time out exactly if it waits for a time. */
  lemma {:induction false} TimedExactly(v: nat, flag: Flag, steps: seq<Step>, t: nat)
    ensures var s := Exec(Init(v, flag), steps);
      t in s.waiters ==> (Enabled(s, Timeout(t)) <==> LastWait(Init(v, flag), steps, t).Ticks?)
    decreases |steps|
  {
    if steps != [] {
      var front, last := steps[..|steps| - 1], steps[|steps| - 1];
      TimedExactly(v, flag, front, t);
      EveryRun(v, flag, front);
      if t in Exec(Init(v, flag), steps).waiters {
        StepTimed(Exec(Init(v, flag), front), last, t);
      }
    }
  }

  /** A step other than its own take leaves the timer of a thread that stays suspended alone. */
  lemma StepTimed(s: Sem, step: Step, t: nat)
    requires Good(s) && t in Next(s, step).waiters
    ensures step.Take? && step.t == t && Enabled(s, step) ==> (t in Next(s, step).timed <==> step.wait.Ticks?)
    ensures !(step.Take? && step.t == t && Enabled(s, step)) ==>
      t in s.waiters && (t in Next(s, step).timed <==> t in s.timed)
  {
    if Enabled(s, step) {
      match step
      case Take(u, wait, prio) => TakeAnswers(s, u, wait, prio);
      case Release => ReleaseDoes(s);
      case Timeout(u) =>
      case Reset(_) =>
      case Return(_) =>
    }
  }
}
