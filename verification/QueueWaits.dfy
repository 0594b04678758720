/**
  The waiting receivers of a message queue, on top of `MessageQueue`. A receive on
  an empty queue suspends; a send wakes one receiver in the section that links its
  message, not in the one that reserves the node. A woken receiver finds the queue
  as others have left it and checks again.
 */
module QueueWaits {
  import opened NodeList
  import opened WaitList
  import Q = MessageQueue

  datatype State = State(
    q: Q.Spec,
    flag: Flag,
    recv: seq<nat>,         // suspended receivers
    woken: set<nat>,        // woken by a sender, not yet checked again
    timed: set<nat>,        // threads whose timer is running
    failed: map<nat, int>)  // woken with an error, not yet returned

  datatype Step =
    | Send(t: nat, buffer: Q.Message, urgent: bool)
    | Link(t: nat)
    | Recv(t: nat, size: nat, wait: Wait, prio: map<nat, nat>)
    | Finish(t: nat)
    | Timeout(t: nat)
    | Reset
    | Return(t: nat)

  datatype RecvResult = Took | Empty | Blocked

  /** A thread acts only when it runs, and a woken one only goes on with its receive. */
  ghost predicate Enabled(s: State, step: Step) {
    match step
    case Send(t, _, _) => t !in s.recv && t !in s.woken && t !in s.failed && t !in s.q.jobs
    case Link(t) => t in s.q.jobs && s.q.jobs[t].Sending?
    case Recv(t, _, _, _) => t !in s.recv && t !in s.failed && t !in s.q.jobs
    case Finish(t) => t in s.q.jobs && s.q.jobs[t].Receiving?
    case Timeout(t) => t in s.timed
    case Reset => true
    case Return(t) => t in s.failed
  }

  ghost function Wake(s: State): State {
    if s.recv == [] then s
    else s.(recv := s.recv[1..], woken := s.woken + {s.recv[0]}, timed := s.timed - {s.recv[0]})
  }

  ghost function RecvStep(s: State, t: nat, size: nat, wait: Wait, prio: map<nat, nat>): State {
    var c := s.(woken := s.woken - {t});
    if s.q.queue != [] then c.(q := Q.Next(s.q, Q.RecvStart(t, size)))
    else if wait.NoWait? then c
    else c.(recv := Enqueue(s.recv, t, prio, s.flag), timed := if wait.Ticks? then s.timed + {t} else s.timed)
  }

  ghost function RecvOutcome(s: State, wait: Wait): RecvResult {
    if s.q.queue != [] then Took else if wait.NoWait? then Empty else Blocked
  }

  ghost function TimeoutStep(s: State, t: nat): State {
    s.(recv := Without(s.recv, t), timed := s.timed - {t}, failed := s.failed[t := RT_ETIMEOUT])
  }

  ghost function ResetStep(s: State): State {
    s.(q := Q.Next(s.q, Q.ResetStep), recv := [], timed := s.timed - Members(s.recv),
    failed := FailAll(s.failed, s.recv))
  }

  ghost function Next(s: State, step: Step): State {
    if !Enabled(s, step) then s
    else match step
      case Send(t, buffer, urgent) => s.(q := Q.Next(s.q, Q.SendStart(t, buffer, urgent)))
      case Link(t) => Wake(s.(q := Q.Next(s.q, Q.SendFinish(t))))
      case Recv(t, size, wait, prio) => RecvStep(s, t, size, wait, prio)
      case Finish(t) => s.(q := Q.Next(s.q, Q.RecvFinish(t)))
      case Timeout(t) => TimeoutStep(s, t)
      case Reset => ResetStep(s)
      case Return(t) => s.(failed := s.failed - {t})
  }

  ghost function Exec(s: State, steps: seq<Step>): State {
    if steps == [] then s else Next(Exec(s, steps[..|steps| - 1]), steps[|steps| - 1])
  }

  ghost function Init(max: nat, flag: Flag): State {
    State(Q.Spec(max, [], map[]), flag, [], {}, {}, map[])
  }

  /** What thread `t` receives: the bytes of the message it took, as far as both reach. */
  ghost predicate Holds(s: State, t: nat, msgSize: nat, buffer: Q.Message) {
    && t in s.q.jobs && s.q.jobs[t].Receiving?
    && (forall i :: 0 <= i < |s.q.jobs[t].message| && i < |buffer| ==> buffer[i] == s.q.jobs[t].message[i])
    && |buffer| == if s.q.jobs[t].size > msgSize then msgSize else s.q.jobs[t].size
  }

  // ---------------------------------------------------------------- invariants

  /** Every thread in the protocol is in exactly one place. */
  ghost predicate Threads(s: State) {
    && NoDup(s.recv)
    && (forall t :: t in s.recv ==> t !in s.woken && t !in s.failed && t !in s.q.jobs)
    && (forall t :: t in s.woken ==> t !in s.failed && t !in s.q.jobs)
    && (forall t :: t in s.failed ==> t !in s.q.jobs)
    && (forall t :: t in s.timed ==> t in s.recv)
  }

  /** No wakeup is lost: while receivers sleep, every queued message has a woken one that will still look for it. */
  ghost predicate NoLostWakeup(s: State) {
    s.recv != [] ==> |s.q.queue| <= |s.woken|
  }

  ghost predicate Good(s: State) {
    Threads(s) && NoLostWakeup(s)
  }

  lemma LinkKeeps(s: State, t: nat)
    requires Good(s) && Enabled(s, Link(t))
    ensures Good(Next(s, Link(t)))
  {
    if s.recv != [] {
      HeadTail(s.recv);
      assert s.recv[0] !in s.woken;
    }
  }

  lemma RecvKeeps(s: State, t: nat, size: nat, wait: Wait, prio: map<nat, nat>)
    requires Good(s) && Enabled(s, Recv(t, size, wait, prio))
    ensures Good(RecvStep(s, t, size, wait, prio))
  {
    LessOne(s.woken, t);
    if s.q.queue == [] && !wait.NoWait? {
      EnqueueNoDup(s.recv, t, prio, s.flag);
    }
  }

  lemma StepKeepsGood(s: State, step: Step)
    requires Good(s)
    ensures Good(Next(s, step))
  {
    if Enabled(s, step) {
      match step
      case Send(_, _, _) =>
      case Link(t) => LinkKeeps(s, t);
      case Recv(t, size, wait, prio) => RecvKeeps(s, t, size, wait, prio);
      case Finish(_) =>
      case Timeout(t) => WithoutNoDup(s.recv, t);
      case Reset =>
      case Return(_) =>
    }
  }

  /** In every interleaving: threads in one place each, and no wakeup lost. */
  lemma {:induction false} EveryRun(max: nat, flag: Flag, steps: seq<Step>)
    ensures Good(Exec(Init(max, flag), steps))
    decreases |steps|
  {
    if steps != [] {
      EveryRun(max, flag, steps[..|steps| - 1]);
      StepKeepsGood(Exec(Init(max, flag), steps[..|steps| - 1]), steps[|steps| - 1]);
    }
  }

  /** Once the woken receivers have checked again, none sleeps beside a message. */
  lemma NobodySleepsInVain(max: nat, flag: Flag, steps: seq<Step>)
    ensures var s := Exec(Init(max, flag), steps);
      s.woken == {} && s.recv != [] ==> s.q.queue == []
  {
    EveryRun(max, flag, steps);
  }

  // --------------------------------------------------------------- error fields

  ghost predicate Errors(s: State, error: map<nat, int>) {
    && (forall t :: t in s.recv || t in s.woken ==> t in error && error[t] == RT_EOK)
    && (forall t :: t in s.failed ==> t in error && error[t] == s.failed[t] && error[t] != RT_EOK)
  }

  ghost function NextError(s: State, step: Step, error: map<nat, int>): map<nat, int> {
    match step
    case Recv(t, _, wait, _) => if RecvOutcome(s, wait).Blocked? then error[t := RT_EOK] else error
    case Timeout(t) => error[t := RT_ETIMEOUT]
    case Reset => FailAll(error, s.recv)
    case _ => error
  }

  lemma StepKeepsErrors(s: State, step: Step, error: map<nat, int>)
    requires Threads(s) && Enabled(s, step) && Errors(s, error)
    ensures Errors(Next(s, step), NextError(s, step, error))
  {
    match step
    case Send(_, _, _) =>
    case Link(t) => LinkErrors(s, t, error);
    case Recv(t, size, wait, prio) => RecvErrors(s, t, size, wait, prio, error);
    case Finish(_) =>
    case Timeout(t) =>
    case Reset => ResetErrors(s, error);
    case Return(_) =>
  }

  lemma LinkErrors(s: State, t: nat, error: map<nat, int>)
    requires Threads(s) && Enabled(s, Link(t)) && Errors(s, error)
    ensures Errors(Next(s, Link(t)), error)
  {
    if s.recv != [] {
      HeadTail(s.recv);
    }
  }

  lemma RecvErrors(s: State, t: nat, size: nat, wait: Wait, prio: map<nat, nat>, error: map<nat, int>)
    requires Threads(s) && Enabled(s, Recv(t, size, wait, prio)) && Errors(s, error)
    ensures Errors(RecvStep(s, t, size, wait, prio), NextError(s, Recv(t, size, wait, prio), error))
  {
  }

  lemma ResetErrors(s: State, error: map<nat, int>)
    requires Threads(s) && Errors(s, error)
    ensures Errors(ResetStep(s), FailAll(error, s.recv))
  {
  }

  // ------------------------------------------------------------ what each step does

  /**
    The answer of a receive says what has happened: the first message is taken for
    copying; else a caller that does not wait is refused and takes nothing; else it
    is suspended, with its timer running exactly if it waits for a time.
   */
  lemma RecvAnswers(s: State, t: nat, size: nat, wait: Wait, prio: map<nat, nat>)
    requires Good(s) && Enabled(s, Recv(t, size, wait, prio))
    ensures var r, o := RecvStep(s, t, size, wait, prio), RecvOutcome(s, wait);
      && (o.Took? <==> s.q.queue != [])
      && (o.Took? ==>
            && t in r.q.jobs && r.q.jobs[t] == Q.Receiving(s.q.queue[0], size) && r.q.queue == s.q.queue[1..]
            && r.recv == s.recv && r.timed == s.timed)
      && (!o.Took? ==> r.q == s.q)
      && (o.Empty? <==> s.q.queue == [] && wait.NoWait?) && (o.Empty? ==> r.recv == s.recv && r.timed == s.timed)
      && (o.Blocked? ==>
            && Queues(s.recv, t, prio, s.flag, r.recv) && t in r.recv && (t in r.timed <==> wait.Ticks?)
            && (forall u :: u != t ==> (u in r.timed <==> u in s.timed) && (u in r.recv <==> u in s.recv)))
  {
    EnqueueQueues(s.recv, t, prio, s.flag);
  }

  /** Linking a message puts it at its end of the queue and wakes the first receiver, if any. */
  lemma LinkDoes(s: State, t: nat)
    requires Good(s) && Enabled(s, Link(t))
    ensures var r, m := Next(s, Link(t)), s.q.jobs[t].buffer;
      && r.q.queue == (if s.q.jobs[t].urgent then [m] + s.q.queue else s.q.queue + [m]) && t !in r.q.jobs
      && (s.recv == [] ==> r.recv == [] && r.woken == s.woken)
      && (s.recv != [] ==> r.recv == s.recv[1..] && r.woken == s.woken + {s.recv[0]} && s.recv[0] !in r.timed)
      && (forall u :: s.recv == [] || u != s.recv[0] ==> (u in r.timed <==> u in s.timed))
  {
  }

  /** A timeout ends just that wait, with the error for it, and no message moves. */
  lemma TimeoutDoes(s: State, t: nat)
    requires Good(s) && t in s.timed
    ensures var r := Next(s, Timeout(t));
      r.recv == Without(s.recv, t) && t !in r.timed && r.failed == s.failed[t := -2] && r.q == s.q && r.woken == s.woken
  {
  }

  /** A reset drops the queued messages, gives their nodes back, and wakes every receiver with an error. */
  lemma ResetDoes(s: State)
    requires Good(s)
    ensures var r := Next(s, Reset);
      && r.q.queue == [] && r.q.free == s.q.free + |s.q.queue| && r.q.jobs == s.q.jobs && r.recv == [] && r.timed == {}
      && (forall t :: t in s.recv ==> t in r.failed && r.failed[t] == -1)
      && (forall t :: t in s.failed ==> t in r.failed && r.failed[t] == s.failed[t])
  {
  }

  /** A thread that returns with an error can call again, and nothing else changes. */
  lemma ReturnDoes(s: State, t: nat, size: nat, wait: Wait, prio: map<nat, nat>)
    requires Good(s) && t in s.failed
    ensures var r := Next(s, Return(t));
      && Enabled(r, Recv(t, size, wait, prio)) && r == s.(failed := r.failed)
      && (forall u :: u != t && u in s.failed ==> u in r.failed && r.failed[u] == s.failed[u])
  {
  }

  /** The first section of a send reserves a node for its message, if there is one, and wakes nobody. */
  lemma SendDoes(s: State, t: nat, buffer: Q.Message, urgent: bool)
    requires Good(s) && Enabled(s, Send(t, buffer, urgent))
    ensures var r := Next(s, Send(t, buffer, urgent));
      && (s.q.free == 0 ==> r == s)
      && (s.q.free > 0 ==>
            && r == s.(q := r.q) && r.q.free == s.q.free - 1 && r.q.queue == s.q.queue
            && t in r.q.jobs && r.q.jobs[t] == Q.Sending(buffer, urgent) && Enabled(r, Link(t)))
  {
  }

  /** The last section of a receive gives the node back, and its thread can call again. */
  lemma FinishDoes(s: State, t: nat, size: nat, wait: Wait, prio: map<nat, nat>)
    requires Good(s) && Enabled(s, Finish(t))
    ensures var r := Next(s, Finish(t));
      && r == s.(q := r.q) && r.q.free == s.q.free + 1 && r.q.queue == s.q.queue
      && t !in r.q.jobs && Enabled(r, Recv(t, size, wait, prio))
  {
  }

  // ------------------------------------------------------------------- timed waits

  /** How long thread `t` was prepared to wait when it last called or checked again. */
  ghost function LastWait(init: State, steps: seq<Step>, t: nat): Wait {
    if steps == [] then NoWait
    else
      var front, last := steps[..|steps| - 1], steps[|steps| - 1];
      if last.Recv? && last.t == t && Enabled(Exec(init, front), last) then last.wait else LastWait(init, front, t)
  }

  /** In every run a suspended receiver can time out exactly if it waits for a time. */
  lemma {:induction false} TimedExactly(max: nat, flag: Flag, steps: seq<Step>, t: nat)
    ensures var s := Exec(Init(max, flag), steps);
      t in s.recv ==> (Enabled(s, Timeout(t)) <==> LastWait(Init(max, flag), steps, t).Ticks?)
    decreases |steps|
  {
    if steps != [] {
      var front, last := steps[..|steps| - 1], steps[|steps| - 1];
      TimedExactly(max, flag, front, t);
      EveryRun(max, flag, front);
      if t in Exec(Init(max, flag), steps).recv {
        StepTimed(Exec(Init(max, flag), front), last, t);
      }
    }
  }

  /** A step other than its own receive leaves the timer of a thread that stays suspended alone. */
  lemma StepTimed(s: State, step: Step, t: nat)
    requires Good(s) && t in Next(s, step).recv
    ensures var own := step.Recv? && step.t == t && Enabled(s, step);
      && (own ==> (t in Next(s, step).timed <==> step.wait.Ticks?))
      && (!own ==> t in s.recv && (t in Next(s, step).timed <==> t in s.timed))
  {
    if Enabled(s, step) {
      match step
      case Send(_, _, _) =>
      case Link(u) =>
        LinkDoes(s, u);
        if s.recv != [] {
          HeadTail(s.recv);
        }
      case Recv(u, size, wait, prio) => RecvAnswers(s, u, size, wait, prio);
      case Finish(_) =>
      case Timeout(_) =>
      case Reset =>
      case Return(_) =>
    }
  }

  // -------------------------------------------------------------------- object

  class BlockingQueue {
    const mq: Q.Mq
    const flag: Flag
    var receivers: seq<nat>
    var timers: set<nat>       // thread timers that are running
    var error: map<nat, int>   // the error field of each thread

    ghost var woken: set<nat>
    ghost var failed: map<nat, int>

    ghost function Abs(): State
      reads this, mq
    {
      State(mq.State(), flag, receivers, woken, timers, failed)
    }

    ghost predicate Tidy()
      reads this, mq
    {
      Good(Abs()) && Errors(Abs(), error)
    }

    ghost predicate Valid()
      reads this, mq, mq.next, mq.payload
    {
      mq.Valid() && Tidy()
    }

    ghost method Stepped(s: State, e: map<nat, int>, step: Step)
      requires Good(s) && Errors(s, e) && Enabled(s, step)
      requires Abs() == Next(s, step) && error == NextError(s, step, e)
      ensures Tidy()
    {
      StepKeepsGood(s, step);
      StepKeepsErrors(s, step, e);
    }

    /** rt_mq_init */
    constructor (max: nat, size: nat, f: Flag)
      ensures Valid() && Abs() == Init(max, f)
    {
      mq := new Q.Mq(max, size);
      flag, receivers, timers, error, woken, failed := f, [], {}, map[], {}, map[];
    }

    /** First section of rt_mq_send and rt_mq_urgent: nobody is woken yet. */
    method SendSection(t: nat, buffer: Q.Message, urgent: bool) returns (r: Q.Err)
      requires Valid() && buffer != [] && Enabled(Abs(), Send(t, buffer, urgent))
      modifies mq
      ensures Valid()
      ensures |buffer| > mq.msgSize ==> r == Q.ERROR && Abs() == old(Abs())
      ensures |buffer| <= mq.msgSize ==>
        Abs() == Next(old(Abs()), Send(t, buffer, urgent)) && r == if old(Abs()).q.free == 0 then Q.EFULL else Q.EOK
    {
      ghost var s := Abs();
      r := mq.SendBegin(t, buffer, urgent);
      if r == Q.ERROR {
        return;
      }
      Stepped(s, error, Send(t, buffer, urgent));
    }

    /** Second section: the message is linked, and the first receiver woken. */
    method LinkSection(t: nat)
      requires Valid() && t in mq.locals && mq.locals[t].SendLocal?
      requires mq.locals[t].done == |mq.locals[t].buffer| && (mq.locals[t].urgent || mq.locals[t].cleared)
      modifies this`receivers, this`timers, this`woken, mq, mq.next
      ensures Valid() && Abs() == Next(old(Abs()), Link(t))
    {
      ghost var s := Abs();
      Append(t, s);
      ResumeFirst(t, s);
    }

    /** Linking the message. */
    method Append(t: nat, ghost s: State)
      requires mq.Valid() && s == Abs() && t in mq.locals && mq.locals[t].SendLocal?
      requires mq.locals[t].done == |mq.locals[t].buffer| && (mq.locals[t].urgent || mq.locals[t].cleared)
      modifies mq, mq.next
      ensures mq.Valid() && Enabled(s, Link(t)) && Abs() == s.(q := Q.Next(s.q, Q.SendFinish(t)))
    {
      mq.SendLink(t);
    }

    /** And then waking the first receiver. */
    method ResumeFirst(t: nat, ghost s: State)
      requires Good(s) && Errors(s, error) && Enabled(s, Link(t)) && Abs() == s.(q := Q.Next(s.q, Q.SendFinish(t)))
      modifies this`receivers, this`timers, this`woken
      ensures Tidy() && Abs() == Next(s, Link(t))
    {
      Resume(Abs());
      Stepped(s, error, Link(t));
    }

    /** rt_ipc_list_resume, if anybody waits. */
    method Resume(ghost s: State)
      requires s == Abs()
      modifies this`receivers, this`timers, this`woken
      ensures Abs() == Wake(s)
    {
      if receivers != [] {
        var first := receivers[0];
        receivers, timers := receivers[1..], timers - {first};
        woken := woken + {first};
      }
    }

    /** A section of rt_mq_recv that looks for a message, on entry or after waking up. */
    method RecvSection(t: nat, size: nat, wait: Wait, prio: map<nat, nat>) returns (r: RecvResult)
      requires Valid() && size > 0 && Enabled(Abs(), Recv(t, size, wait, prio))
      modifies this`receivers, this`timers, this`error, this`woken, mq
      ensures Valid() && Abs() == RecvStep(old(Abs()), t, size, wait, prio) && r == RecvOutcome(old(Abs()), wait)
    {
      ghost var s, e := Abs(), error;
      r := TryRecv(t, size, wait, prio, s);
      Stepped(s, e, Recv(t, size, wait, prio));
    }

    /** The body of that section. */
    method TryRecv(t: nat, size: nat, wait: Wait, prio: map<nat, nat>, ghost s: State) returns (r: RecvResult)
      requires mq.Valid() && size > 0 && t !in s.q.jobs && s == Abs()
      modifies this`receivers, this`timers, this`error, this`woken, mq
      ensures mq.Valid() && Abs() == RecvStep(s, t, size, wait, prio) && r == RecvOutcome(s, wait)
      ensures error == if r.Blocked? then old(error)[t := RT_EOK] else old(error)
    {
      var taken := mq.RecvBegin(t, size);
      woken := woken - {t};
      if taken == Q.EOK {
        r := Took;
      } else if wait.NoWait? {
        r := Empty;
      } else {
        r := Blocked;
        Block(t, wait, prio);
      }
    }

    /** Suspending the calling receiver, with its timer if it waits for a time. */
    method Block(t: nat, wait: Wait, prio: map<nat, nat>)
      modifies this`receivers, this`timers, this`error
      ensures receivers == Enqueue(old(receivers), t, prio, flag)
      ensures timers == if wait.Ticks? then old(timers) + {t} else old(timers)
      ensures error == old(error)[t := RT_EOK]
    {
      error := error[t := RT_EOK];
      receivers := Suspend(receivers, t, prio, flag);
      if wait.Ticks? {
        timers := timers + {t};
      }
    }

    /** The last section of rt_mq_recv. */
    method FinishSection(t: nat, ghost s: State) returns (buffer: Q.Message)
      requires Valid() && s == Abs() && t in mq.locals && mq.locals[t].RecvLocal?
      requires |mq.locals[t].got| == (if mq.locals[t].size > mq.msgSize then mq.msgSize else mq.locals[t].size)
      modifies mq, mq.next
      ensures Valid() && Abs() == Next(s, Finish(t)) && Holds(s, t, mq.msgSize, buffer)
    {
      FinishTidy(s, t, error);
      buffer := TryFinish(t, s);
    }

    lemma FinishTidy(s: State, t: nat, e: map<nat, int>)
      requires Good(s) && Errors(s, e) && t in s.q.jobs && s.q.jobs[t].Receiving?
      ensures Good(Next(s, Finish(t))) && Errors(Next(s, Finish(t)), e)
    {
      StepKeepsGood(s, Finish(t));
      StepKeepsErrors(s, Finish(t), e);
    }

    method TryFinish(t: nat, ghost s: State) returns (buffer: Q.Message)
      requires mq.Valid() && s == Abs() && t in mq.locals && mq.locals[t].RecvLocal?
      requires |mq.locals[t].got| == (if mq.locals[t].size > mq.msgSize then mq.msgSize else mq.locals[t].size)
      modifies mq, mq.next
      ensures mq.Valid() && Enabled(s, Finish(t)) && Abs() == Next(s, Finish(t))
      ensures Holds(s, t, mq.msgSize, buffer)
    {
      buffer := mq.RecvEnd(t);
    }

    /** rt_thread_timeout: the thread whose timer runs out is suspended, and no longer afterwards. */
    method TimeoutSection(t: nat)
      requires Valid() && t in timers
      modifies this`receivers, this`timers, this`error, this`failed
      ensures Valid() && Abs() == TimeoutStep(old(Abs()), t)
      ensures t in old(receivers) && t !in receivers
    {
      ghost var s, e := Abs(), error;
      error := error[t := RT_ETIMEOUT];
      receivers, timers := Without(receivers, t), timers - {t};
      failed := failed[t := RT_ETIMEOUT];
      Stepped(s, e, Timeout(t));
    }

    /** rt_mq_control with RT_IPC_CMD_RESET: waiting receivers are woken with an error, queued messages dropped. */
    method ResetSection()
      requires Valid()
      modifies this`receivers, this`timers, this`error, this`failed, mq, mq.next
      ensures Valid() && Abs() == ResetStep(old(Abs()))
    {
      ghost var s, e := Abs(), error;
      timers, error := ResumeAll(receivers, timers, error);
      failed := FailAll(failed, receivers);
      receivers := [];
      mq.Reset();
      Stepped(s, e, Reset);
    }

    /** What a receiver finds when it runs again: no error exactly if a sender woke it. */
    method Resumed(t: nat) returns (code: int)
      requires Valid() && (t in woken || t in failed)
      modifies this`failed
      ensures Valid() && (code == RT_EOK <==> t in woken)
      ensures Abs() == if code == RT_EOK then old(Abs()) else Next(old(Abs()), Return(t))
    {
      ghost var s := Abs();
      code := error[t];
      if code != RT_EOK {
        failed := failed - {t};
        Stepped(s, error, Return(t));
      }
    }
  }
}
