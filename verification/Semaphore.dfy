/**
  rt_semaphore: a 16-bit value and a list of suspended threads. Every critical
  section is a method, proved to be a step of `SemaphoreSpec`.
 */
module Semaphore {
  import opened NodeList
  import opened WaitList
  import opened SemaphoreSpec

  /** The error code a woken thread returns. */
  function Code(o: Outcome): int {
    match o
    case Granted => RT_EOK
    case TimedOut => RT_ETIMEOUT
    case Aborted => RT_ERROR
  }

  /** The error field of a thread tells the outcome of its take. */
  ghost predicate Errors(s: Sem, error: map<nat, int>) {
    && (forall t :: t in s.waiters ==> t in error && error[t] == RT_EOK)
    && (forall t :: t in s.resumed ==> t in error && s.resumed[t] in s.ended && error[t] == Code(s.ended[s.resumed[t]]))
  }

  lemma WakeErrors(s: Sem, t: nat, o: Outcome, error: map<nat, int>)
    requires Threads(s) && Tickets(s) && t in s.ticket && Errors(s, error)
    ensures Errors(Wake(s, t, o), error[t := Code(o)])
  {
  }

  lemma AbortErrors(s: Sem, error: map<nat, int>)
    requires Threads(s) && Tickets(s) && Errors(s, error)
    ensures Errors(AbortAll(s), FailAll(error, s.waiters))
  {
    forall t | t in s.resumed || t in s.ticket
      ensures var r, e := AbortAll(s), FailAll(error, s.waiters);
        t in r.resumed && t in e && r.resumed[t] in r.ended && e[t] == Code(r.ended[r.resumed[t]])
    {
      AbortOne(s, error, t);
    }
  }

  lemma AbortOne(s: Sem, error: map<nat, int>, t: nat)
    requires Threads(s) && Tickets(s) && Errors(s, error) && (t in s.resumed || t in s.ticket)
    ensures var r, e := AbortAll(s), FailAll(error, s.waiters);
      t in r.resumed && t in e && r.resumed[t] in r.ended && e[t] == Code(r.ended[r.resumed[t]])
  {
    if t in s.ticket {
      NewOutcome(s, t);
    } else {
      OldOutcome(s, t);
    }
  }

  lemma NewOutcome(s: Sem, t: nat)
    requires t in s.ticket
    ensures var r := AbortAll(s); t in r.resumed && r.resumed[t] in r.ended && r.ended[r.resumed[t]] == Aborted
  {
    assert s.ticket[t] in s.ticket.Values;
  }

  /** The outcome of a thread that was woken before is not among the open tickets, and stays. */
  lemma OldOutcome(s: Sem, t: nat)
    requires Threads(s) && Tickets(s) && t in s.resumed
    ensures t !in s.ticket && t !in s.waiters && s.resumed[t] in s.ended
    ensures var r := AbortAll(s);
      && t in r.resumed && r.resumed[t] == s.resumed[t]
      && r.resumed[t] in r.ended && r.ended[r.resumed[t]] == s.ended[s.resumed[t]]
  {
    assert s.resumed[t] !in s.ticket.Values;
  }

  lemma ReleaseOk(s: Sem, error: map<nat, int>)
    requires Good(s) && Errors(s, error)
    ensures Good(ReleaseStep(s)) && Errors(ReleaseStep(s), error)
  {
    ReleaseKeeps(s);
    if s.waiters != [] {
      var t := s.waiters[0];
      assert t in s.waiters && error[t := Code(Granted)] == error;
      WakeErrors(s, t, Granted, error);
    }
  }

  lemma ResetOk(s: Sem, v: nat, error: map<nat, int>)
    requires Good(s) && Errors(s, error)
    ensures Good(ResetStep(s, v)) && Errors(ResetStep(s, v), FailAll(error, s.waiters))
  {
    AbortKeeps(s);
    AbortErrors(s, error);
  }

  class Semaphore {
    const flag: Flag
    var value: nat
    var waiters: seq<nat>
    var timers: set<nat>       // thread timers that are running
    var error: map<nat, int>   // the error field of each thread

    ghost var s: Sem

    ghost predicate Tied()
      reads this
    {
      s.flag == flag && s.value == value && s.waiters == waiters && s.timed == timers
    }

    ghost predicate Valid()
      reads this
    {
      Tied() && Good(s) && Errors(s, error)
    }

    /** rt_sem_init: the value is cut to 16 bits. */
    constructor (v: nat, f: Flag)
      ensures Valid() && s == SemaphoreSpec.Init(v, f)
    {
      flag, value := f, v % Span;
      waiters, timers, error := [], {}, map[];
      s := SemaphoreSpec.Init(v, f);
    }

    /** The critical section of rt_sem_take. */
    method TakeSection(t: nat, wait: Wait, prio: map<nat, nat>) returns (r: TakeResult)
      requires Valid() && Enabled(s, Take(t, wait, prio))
      modifies this
      ensures Valid() && s == TakeStep(old(s), t, wait, prio) && r == TakeOutcome(old(s), wait)
    {
      TakeKeeps(s, t, wait, prio);
      s := TakeStep(s, t, wait, prio);
      if value > 0 {
        value := value - 1;
        r := Taken;
      } else if wait.NoWait? {
        r := Refused;
      } else {
        error := error[t := RT_EOK];
        waiters := Suspend(waiters, t, prio, flag);
        if wait.Ticks? {
          timers := timers + {t};
        }
        r := Blocked;
      }
    }

    /** The body of rt_sem_release: either the first waiter is woken or the value goes up. */
    method Grant()
      requires Tied() && NoDup(waiters) && (waiters != [] ==> waiters[0] in s.ticket)
      modifies this`s, this`waiters, this`timers, this`value
      ensures Tied() && s == ReleaseStep(old(s))
    {
      if waiters != [] {
        WithoutHead(waiters);
        timers := timers - {waiters[0]};
        waiters := waiters[1..];
      } else {
        value := (value + 1) % Span;
      }
      s := ReleaseStep(s);
    }

    /** rt_sem_release. */
    method ReleaseSection()
      requires Valid()
      modifies this`s, this`waiters, this`timers, this`value
      ensures Valid() && s == ReleaseStep(old(s))
    {
      ReleaseOk(s, error);
      assert waiters != [] ==> waiters[0] in waiters;
      Grant();
    }

    /**
      rt_thread_timeout: the thread is indeed suspended, as the assertion in it
      demands, and is so no longer.
     */
    method TimeoutSection(t: nat)
      requires Valid() && t in timers
      modifies this
      ensures Valid() && s == Wake(old(s), t, TimedOut)
      ensures t in old(waiters) && t !in waiters
    {
      WakeKeeps(s, t, TimedOut);
      WakeErrors(s, t, TimedOut, error);
      s := Wake(s, t, TimedOut);
      error := error[t := RT_ETIMEOUT];
      waiters := Without(waiters, t);
      timers := timers - {t};
    }

    /** rt_sem_control with RT_IPC_CMD_RESET. */
    method ResetSection(v: nat)
      requires Valid()
      modifies this
      ensures Valid() && s == ResetStep(old(s), v)
    {
      ResetOk(s, v, error);
      timers, error := ResumeAll(waiters, timers, error);
      waiters := [];
      value := v % Span;
      s := ResetStep(s, v);
    }

    /** The return of a take that had blocked: success exactly if it was granted. */
    method Resumed(t: nat) returns (code: int)
      requires Valid() && t in s.resumed
      modifies this`s
      ensures Valid() && s == SemaphoreSpec.Next(old(s), Return(t))
      ensures code == Code(old(s.ended[s.resumed[t]]))
      ensures code == RT_EOK <==> old(s.ended[s.resumed[t]]) == Granted
    {
      code := error[t];
      s := s.(resumed := s.resumed - {t});
    }
  }
}
