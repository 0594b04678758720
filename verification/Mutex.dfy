/**
  rt_mutex: value, owner, hold count and original priority, with a list of
  suspended threads and the current priorities of all threads. Every critical
  section is a method, proved to be a step of `MutexSpec`.
 */
module Mutex {
  import opened NodeList
  import opened WaitList
  import Spec = MutexSpec
  import opened MutexSpec

  /** The error field of a suspended or woken thread is what its take will return. */
  ghost predicate Errors(m: Spec.Mutex, error: map<nat, int>) {
    && (forall t :: t in m.waiters ==> t in error && error[t] == RT_EOK)
    && (forall t :: t in m.resumed ==> t in error && error[t] == m.resumed[t])
  }

  class Mutex {
    const flag: Flag
    var value: nat
    var owner: Owner
    var originalPriority: nat
    var hold: nat
    var waiters: seq<nat>
    var timers: set<nat>       // thread timers that are running
    var error: map<nat, int>   // the error field of each thread
    var prio: map<nat, nat>    // the current priority of each thread

    ghost var m: Spec.Mutex
    ghost const base: map<nat, nat>

    ghost predicate Tied()
      reads this
    {
      && m.flag == flag && m.value == value && m.owner == owner && m.original == originalPriority && m.hold == hold
      && m.waiters == waiters && m.timed == timers && m.prio == prio
    }

    ghost predicate Valid()
      reads this
    {
      Tied() && Errors(m, error) && Good(m, base) && (flag.Prio? ==> Inherited(m, base))
    }

    /** rt_mutex_init, in a system whose threads have the given priorities. */
    constructor (f: Flag, priorities: map<nat, nat>)
      ensures Valid() && m == Spec.Init(f, priorities)
    {
      flag, base, prio := f, priorities, priorities;
      value, owner, originalPriority, hold := 1, Free, 0xff, 0;
      waiters, timers, error := [], {}, map[];
      m := Spec.Init(f, priorities);
    }

    ghost method Stepped(was: Spec.Mutex, step: Step)
      requires Tied() && Good(was, base) && (flag.Prio? ==> Inherited(was, base)) && Fits(was, step)
      requires m == Spec.Next(was, step) && Errors(m, error)
      ensures Valid()
    {
      StepKeepsGood(was, step, base);
      if flag.Prio? {
        StepKeepsInherited(was, step, base);
      }
    }

    /** Suspending the caller: priority inheritance, then the list, then the timer. */
    method Suspended(t: nat, wait: Wait)
      requires Tied() && owner.By? && !wait.NoWait?
      modifies this`m, this`prio, this`waiters, this`timers
      ensures Tied() && m == Block(old(m), t, wait)
    {
      if Rank(prio, t) < Rank(prio, owner.t) {
        prio := prio[owner.t := Rank(prio, t)];
      }
      waiters := Suspend(waiters, t, prio, flag);
      if wait.Ticks? {
        timers := timers + {t};
      }
      m := Block(m, t, wait);
    }

    /** The body of rt_mutex_take. */
    method TryTake(t: nat, wait: Wait) returns (r: TakeResult)
      requires Tied() && Law(m)
      modifies this
      ensures Tied() && m == TakeStep(old(m), t, wait) && r == TakeOutcome(old(m), t, wait)
      ensures error == old(error)[t := if r.Refused? then RT_ETIMEOUT else RT_EOK]
    {
      error := error[t := RT_EOK];
      if owner == By(t) {
        hold := (hold + 1) % HoldSpan;
        r := Taken;
        m := TakeStep(m, t, wait);
      } else if value > 0 {
        value, owner, originalPriority := value - 1, By(t), Rank(prio, t);
        hold := (hold + 1) % HoldSpan;
        r := Taken;
        m := TakeStep(m, t, wait);
      } else if wait.NoWait? {
        error := error[t := RT_ETIMEOUT];
        r := Refused;
      } else {
        Suspended(t, wait);
        r := Blocked;
      }
    }

    lemma TakeErrors(was: Spec.Mutex, t: nat, wait: Wait, e: map<nat, int>)
      requires Errors(was, e) && Running(was, t)
      ensures Errors(TakeStep(was, t, wait), e[t := if TakeOutcome(was, t, wait).Refused? then RT_ETIMEOUT else RT_EOK])
    {
    }

    /** rt_mutex_take up to its return or suspension: success means ownership. */
    method TakeSection(t: nat, wait: Wait) returns (r: TakeResult)
      requires Valid() && Running(m, t) && Fits(m, Take(t, wait))
      modifies this
      ensures Valid() && m == TakeStep(old(m), t, wait) && r == TakeOutcome(old(m), t, wait)
      ensures r.Taken? ==> owner == By(t) && hold > 0
      ensures r.Blocked? ==> t in waiters && owner != By(t)
    {
      ghost var was, e := m, error;
      TakeErrors(was, t, wait, e);
      r := TryTake(t, wait);
      Stepped(was, Take(t, wait));
    }

    /** The last release: back to the original priority, then pass on or free. */
    method PassOn(t: nat)
      requires Tied() && owner == By(t) && hold == 1
      modifies this`m, this`prio, this`value, this`owner, this`originalPriority, this`hold, this`waiters, this`timers
      ensures Tied() && m == ReleaseStep(old(m), t)
    {
      hold := 0;
      if originalPriority != Rank(prio, t) {
        prio := prio[t := originalPriority];
      }
      if waiters != [] {
        var next := waiters[0];
        owner, originalPriority, hold := By(next), Rank(prio, next), hold + 1;
        waiters, timers := waiters[1..], timers - {next};
      } else {
        value, owner, originalPriority := value + 1, Free, 0xff;
      }
      m := ReleaseStep(m, t);
    }

    /** The body of rt_mutex_release. */
    method TryRelease(t: nat) returns (ok: bool)
      requires Tied() && Law(m)
      modifies this
      ensures Tied() && m == ReleaseStep(old(m), t) && (ok <==> Owns(old(m), t))
      ensures error == if ok then old(error) else old(error)[t := RT_ERROR]
    {
      if owner != By(t) {
        error := error[t := RT_ERROR];
        return false;
      }
      if hold == 1 {
        PassOn(t);
      } else {
        hold := hold - 1;
        m := ReleaseStep(m, t);
      }
      return true;
    }

    lemma ReleaseErrors(was: Spec.Mutex, t: nat, e: map<nat, int>)
      requires Errors(was, e) && Running(was, t) && Good(was, base)
      ensures Errors(ReleaseStep(was, t), if Owns(was, t) then e else e[t := RT_ERROR])
    {
      if Owns(was, t) {
        PassErrors(was, t, e);
      } else {
        OthersErrors(was, t, e);
      }
    }

    /** A release by the owner changes no error field. */
    lemma PassErrors(was: Spec.Mutex, t: nat, e: map<nat, int>)
      requires Errors(was, e) && Good(was, base) && Owns(was, t)
      ensures Errors(ReleaseStep(was, t), e)
    {
      if was.hold == 1 && was.waiters != [] {
        HeadTail(was.waiters);
      }
    }

    /** The error field of a running thread is nobody else's business. */
    lemma OthersErrors(was: Spec.Mutex, t: nat, e: map<nat, int>)
      requires Errors(was, e) && Running(was, t) && !Owns(was, t)
      ensures Errors(ReleaseStep(was, t), e[t := RT_ERROR])
    {
    }

    /**
      rt_mutex_release: only the owner's call has an effect, and after the last
      one the caller has its own priority again.
     */
    method ReleaseSection(t: nat) returns (ok: bool)
      requires Valid() && Running(m, t)
      modifies this
      ensures Valid() && m == ReleaseStep(old(m), t)
      ensures ok <==> old(owner) == By(t)
      ensures ok && old(hold) == 1 ==> owner != By(t) && Rank(prio, t) == Rank(base, t)
    {
      ghost var was := m;
      ReleaseErrors(m, t, error);
      ok := TryRelease(t);
      Stepped(was, Release(t));
    }

    /** rt_thread_timeout of a waiter, which is suspended when its timer fires. */
    method TimeoutSection(t: nat)
      requires Valid() && t in timers
      modifies this
      ensures Valid() && m == TimeoutStep(old(m), t)
      ensures t in old(waiters) && t !in waiters
    {
      ghost var was := m;
      error := error[t := RT_ETIMEOUT];
      waiters, timers := Without(waiters, t), timers - {t};
      m := TimeoutStep(m, t);
      Stepped(was, Timeout(t));
    }

    /** The return of a take that had blocked: on success the caller owns the mutex. */
    method Resumed(t: nat) returns (code: int)
      requires Valid() && t in m.resumed
      modifies this`m
      ensures Valid() && m == Spec.Next(old(m), Return(t))
      ensures code == old(m.resumed[t])
      ensures code == RT_EOK ==> owner == By(t)
    {
      ghost var was := m;
      code := error[t];
      m := Spec.Next(m, Return(t));
      Stepped(was, Return(t));
    }
  }
}
