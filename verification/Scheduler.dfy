/**
  The scheduler of the single-core kernel in its form for up to 256 priorities:
  the ready queues, the two-level bitmap, the running thread and the scheduler
  lock. Every operation is a method, proved to keep the bitmap in step with the
  queues and to be a step of `SchedulerSpec`.
 */
module Scheduler {
  import opened NodeList
  import opened WaitList
  import opened ReadyIndex
  import opened SchedulerSpec

  /** Arithmetic on the 16-bit signed nesting counter. */
  function Int16(x: int): (r: int)
    ensures -0x8000 <= r < 0x8000 && (r - x) % 0x1_0000 == 0
    ensures -0x8000 <= x < 0x8000 ==> r == x
  {
    (x + 0x8000) % 0x1_0000 - 0x8000
  }

  class Scheduler {
    var queues: seq<seq<nat>>   // rt_thread_priority_table
    var group: bv32             // rt_thread_ready_priority_group
    var table: seq<bv32>        // rt_thread_ready_table
    var current: nat            // rt_current_thread
    var stat: map<nat, Stat>
    var prio: map<nat, nat>     // current_priority of each thread
    var initPrio: map<nat, nat> // init_priority of each thread
    var lockNest: int           // rt_scheduler_lock_nest

    ghost function Abs(): (s: Sched)
      reads this`current, this`stat, this`prio, this`initPrio, this`queues
    {
      Sched(current, stat, prio, initPrio, queues)
    }

    /** The bitmap marks exactly the priorities with a queue. */
    ghost predicate Indexed()
      reads this`queues, this`group, this`table
    {
      |queues| == 256 && Index(group, table, Busy(queues))
    }

    ghost predicate Valid()
      reads this
    {
      Good(Abs()) && Indexed()
    }

    /** The system after rt_system_scheduler_start with one thread. */
    constructor (first: nat, p: nat)
      requires p < 256
      ensures Valid() && Abs() == Start(first, p) && lockNest == 0
    {
      queues, group, table := seq(256, i => []), 0, seq(32, i => 0);
      current, stat, lockNest := first, map[first := Ready], 0;
      prio, initPrio := map[first := p], map[first := p];
      new;
      assert Busy(queues) == {};
      NothingMarked(table);
      assert Queued(Abs()) == {};
    }

    /** rt_schedule_insert_thread. */
    method InsertThread(t: nat)
      requires Indexed() && Rank(prio, t) < 256
      modifies this`stat, this`queues, this`group, this`table
      ensures Indexed() && Abs() == Insert(old(Abs()), t)
    {
      stat := stat[t := Ready];
      if t == current {
        return;
      }
      var p := Rank(prio, t);
      BusyAppend(queues, p, t);
      ghost var busy := Busy(queues);
      queues := queues[p := queues[p] + [t]];
      group, table := Mark(group, table, p, busy);
    }

    /** rt_schedule_remove_thread. */
    method RemoveThread(t: nat)
      requires Indexed() && Rank(prio, t) < 256
      modifies this`queues, this`group, this`table
      ensures Indexed() && queues == Unlink(old(queues), Rank(prio, t), t)
    {
      var p := Rank(prio, t);
      BusyUnlink(queues, p, t);
      ghost var busy := Busy(queues);
      queues := queues[p := Without(queues[p], t)];
      if queues[p] == [] {
        group, table := Unmark(group, table, p, busy);
      }
    }

    /** The switch to another thread, which is the first of its queue. */
    method SwitchTo(to: nat, p: nat, insertFrom: bool)
      requires Valid() && p < 256 && queues[p] != [] && to == queues[p][0]
      requires insertFrom == IsReady(Abs(), current) && (insertFrom ==> p <= Rank(prio, current))
      modifies this`current, this`stat, this`queues, this`group, this`table
      ensures Indexed() && Abs() == ScheduleAt(old(Abs()), p)
    {
      ghost var s := Abs();
      FirstQueued(s, p);
      var from := current;
      current := to;
      if insertFrom {
        InsertThread(from);
        assert stat == s.stat;
      }
      RemoveThread(to);
    }

    /**
      rt_schedule. With the scheduler unlocked and some thread ready, a most
      urgent ready thread runs afterwards; if nothing is queued, nothing changes.
     */
    method Schedule() returns (ghost p: nat)
      requires Valid()
      modifies this`current, this`stat, this`queues, this`group, this`table
      ensures Valid()
      ensures lockNest != 0 || Busy(old(queues)) == {} ==> Abs() == old(Abs())
      ensures lockNest == 0 && Busy(old(queues)) != {} ==>
        p < 256 && IsLeast(old(queues), p) && Abs() == ScheduleAt(old(Abs()), p) && BestRuns(Abs())
      ensures lockNest == 0 && (exists t :: IsReady(old(Abs()), t)) ==> BestRuns(Abs())
    {
      ghost var s := Abs();
      p := 0;
      EmptyIff(group, table, Busy(queues));
      if lockNest == 0 {
        if group != 0 {
          p := Pick(s);
        } else {
          NothingQueued(s);
        }
      }
    }

    /** The part of rt_schedule that runs when some priority is marked. */
    method Pick(ghost s: Sched) returns (p: nat)
      requires Valid() && group != 0 && s == Abs()
      modifies this`current, this`stat, this`queues, this`group, this`table
      ensures Valid() && p < 256 && IsLeast(s.queues, p) && Abs() == ScheduleAt(s, p) && BestRuns(Abs())
    {
      p := Highest(group, table, Busy(queues));
      LeastBusy(queues, p);
      ScheduleKeeps(s, p);
      ScheduleBest(s, p);
      FirstQueued(s, p);
      var to, insertFrom := queues[p][0], false;
      if stat[current] == Ready {
        if Rank(prio, current) < p {
          to := current;
        } else {
          insertFrom := true;
        }
      }
      if to != current {
        SwitchTo(to, p, insertFrom);
      } else {
        assert queues[Rank(prio, current)] == [];
        RemoveThread(current);
      }
    }

    /** Creation of a thread, before it is started. */
    method Create(t: nat, p: nat)
      requires Valid() && t !in stat && p < 256
      modifies this`stat, this`prio, this`initPrio
      ensures Valid() && Abs() == SchedulerSpec.Next(old(Abs()), SchedulerSpec.Create(t, p))
    {
      ghost var s := Abs();
      StepKeeps(s, SchedulerSpec.Create(t, p));
      stat, prio, initPrio := stat[t := Init], prio[t := p], initPrio[t := p];
    }

    /** rt_thread_resume, and rt_thread_timeout: refused unless the thread is suspended. */
    method Resume(t: nat) returns (ok: bool)
      requires Valid() && t in stat
      modifies this`stat, this`queues, this`group, this`table
      ensures Valid() && (ok <==> old(stat)[t] == Suspend)
      ensures Abs() == if ok then Insert(old(Abs()), t) else old(Abs())
    {
      if stat[t] != Suspend {
        return false;
      }
      InsertKeeps(Abs(), t);
      InsertThread(t);
      return true;
    }

    /** The part of rt_thread_startup before the scheduling. */
    method MakeReady(t: nat)
      requires Valid() && t in stat && stat[t] == Init
      modifies this`stat, this`prio, this`queues, this`group, this`table
      ensures Valid() && Abs() == Begin(old(Abs()), t)
    {
      ghost var s := Abs();
      BeginKeeps(s, t);
      prio := prio[t := Rank(initPrio, t)];
      stat := stat[t := Suspend];
      InsertThread(t);
      assert stat == s.stat[t := Ready];
      assert Abs() == Begin(s, t);
    }

    /** rt_thread_startup of an initialised thread, which then competes with the others. */
    method Startup(t: nat)
      requires Valid() && t in stat && stat[t] == Init
      modifies this`current, this`stat, this`prio, this`queues, this`group, this`table
      ensures Valid() && stat == old(stat)[t := Ready] && prio == old(prio)[t := Rank(initPrio, t)]
      ensures lockNest == 0 ==> BestRuns(Abs())
      ensures lockNest != 0 ==> Abs() == Begin(old(Abs()), t)
    {
      MakeReady(t);
      assert IsReady(Abs(), t);
      ghost var _ := Schedule();
    }

    /** rt_thread_suspend: only the running thread, which must be ready. */
    method SuspendCurrent() returns (ok: bool)
      requires Valid()
      modifies this`stat, this`queues, this`group, this`table
      ensures Valid() && (ok <==> IsReady(old(Abs()), current))
      ensures Abs() == if ok then SuspendSelf(old(Abs())) else old(Abs())
    {
      if stat[current] != Ready {
        return false;
      }
      SuspendKeeps(Abs());
      stat := stat[current := Suspend];
      NotQueued();
      RemoveThread(current);
      return true;
    }

    lemma NotQueued()
      requires |queues| == 256 && Placed(queues, prio, Queued(Abs())) && Rank(prio, current) < 256
      ensures Unlink(queues, Rank(prio, current), current) == queues
    {
      WithoutAbsent(queues[Rank(prio, current)], current);
    }

    /** rt_thread_control with RT_THREAD_CTRL_CHANGE_PRIORITY. */
    method ChangePriority(t: nat, p: nat)
      requires Valid() && t in stat && p < 256
      modifies this`stat, this`prio, this`queues, this`group, this`table
      ensures Valid() && Abs() == SchedulerSpec.ChangePriority(old(Abs()), t, p)
    {
      ghost var s := Abs();
      ChangeKeeps(s, t, p);
      if stat[t] == Ready {
        if t == current {
          NotQueued();
        }
        RemoveThread(t);
        prio := prio[t := p];
        InsertThread(t);
        assert stat == s.stat;
      } else {
        prio := prio[t := p];
      }
    }

    /** rt_enter_critical and rt_exit_critical: the outermost exit schedules. */
    method EnterCritical()
      requires Valid()
      modifies this`lockNest
      ensures Valid() && lockNest == Int16(old(lockNest) + 1)
    {
      lockNest := Int16(lockNest + 1);
    }

    method ExitCritical()
      requires Valid()
      modifies this
      ensures Valid()
      ensures Int16(old(lockNest) - 1) > 0 ==> lockNest == Int16(old(lockNest) - 1) && Abs() == old(Abs())
      ensures Int16(old(lockNest) - 1) <= 0 ==> lockNest == 0 && stat == old(stat) && prio == old(prio)
      ensures Int16(old(lockNest) - 1) <= 0 && (exists t :: IsReady(old(Abs()), t)) ==> BestRuns(Abs())
    {
      lockNest := Int16(lockNest - 1);
      if lockNest <= 0 {
        lockNest := 0;
        ghost var _ := Schedule();
      }
    }
  }
}
