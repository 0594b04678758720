/**
  The mailbox as a step system. Each critical section of rt_mb_send_wait,
  rt_mb_recv and rt_mb_control is one step, and so is the timeout of a suspended
  thread. Between steps any thread may run, so a thread that was woken finds the
  mailbox as others have left it and checks again.
 */
module MailboxSpec {
  import opened NodeList
  import opened WaitList

  /** What became of a mail that has left the mailbox. */
  datatype Gone = Delivered(v: nat) | Dropped(v: nat)

  datatype Box = Box(
    size: nat,
    flag: Flag,
    queue: seq<nat>,         // mails, oldest first
    recv: seq<nat>,          // suspended receivers
    send: seq<nat>,          // suspended senders
    wokenRecv: set<nat>,     // woken by a sender, not yet checked again
    wokenSend: set<nat>,     // woken by a receiver, not yet checked again
    timed: set<nat>,         // threads whose timer is running
    failed: map<nat, int>,   // woken with an error, not yet returned
    accepted: seq<nat>,      // every mail ever accepted
    gone: seq<Gone>)         // every mail that left, in order

  datatype Step =
    | Send(t: nat, v: nat, wait: Wait, prio: map<nat, nat>)
    | Recv(t: nat, wait: Wait, prio: map<nat, nat>)
    | Timeout(t: nat)
    | Reset
    | Return(t: nat)

  datatype SendResult = Sent | Full | SendBlocked
  datatype RecvResult = Got(v: nat) | Empty | RecvBlocked

  ghost predicate Suspended(b: Box, t: nat) {
    t in b.recv || t in b.send
  }

  /** A thread acts only when it runs, and a woken one only goes on with its call. */
  ghost predicate Enabled(b: Box, step: Step) {
    match step
    case Send(t, _, _, _) => !Suspended(b, t) && t !in b.wokenRecv && t !in b.failed
    case Recv(t, _, _) => !Suspended(b, t) && t !in b.wokenSend && t !in b.failed
    case Timeout(t) => t in b.timed
    case Reset => true
    case Return(t) => t in b.failed
  }

  ghost function Timed(b: Box, t: nat, wait: Wait): set<nat> {
    if wait.Ticks? then b.timed + {t} else b.timed
  }

  /** Wake the first suspended receiver: unlink it and stop its timer. */
  ghost function WakeRecv(b: Box): Box {
    if b.recv == [] then b
    else b.(recv := b.recv[1..], wokenRecv := b.wokenRecv + {b.recv[0]}, timed := b.timed - {b.recv[0]})
  }

  ghost function WakeSend(b: Box): Box {
    if b.send == [] then b
    else b.(send := b.send[1..], wokenSend := b.wokenSend + {b.send[0]}, timed := b.timed - {b.send[0]})
  }

  ghost function SendStep(b: Box, t: nat, v: nat, wait: Wait, prio: map<nat, nat>): Box {
    var c := b.(wokenSend := b.wokenSend - {t});
    if |b.queue| < b.size then WakeRecv(c.(queue := b.queue + [v], accepted := b.accepted + [v]))
    else if wait.NoWait? then c
    else c.(send := Enqueue(b.send, t, prio, b.flag), timed := Timed(b, t, wait))
  }

  ghost function SendOutcome(b: Box, wait: Wait): SendResult {
    if |b.queue| < b.size then Sent else if wait.NoWait? then Full else SendBlocked
  }

  ghost function RecvStep(b: Box, t: nat, wait: Wait, prio: map<nat, nat>): Box {
    var c := b.(wokenRecv := b.wokenRecv - {t});
    if b.queue != [] then WakeSend(c.(queue := b.queue[1..], gone := b.gone + [Delivered(b.queue[0])]))
    else if wait.NoWait? then c
    else c.(recv := Enqueue(b.recv, t, prio, b.flag), timed := Timed(b, t, wait))
  }

  ghost function RecvOutcome(b: Box, wait: Wait): RecvResult {
    if b.queue != [] then Got(b.queue[0]) else if wait.NoWait? then Empty else RecvBlocked
  }

  /** rt_thread_timeout of a suspended thread. */
  ghost function TimeoutStep(b: Box, t: nat): Box {
    b.(recv := Without(b.recv, t), send := Without(b.send, t), timed := b.timed - {t},
    failed := b.failed[t := RT_ETIMEOUT])
  }

  ghost function DropAll(queue: seq<nat>): seq<Gone> {
    seq(|queue|, i requires 0 <= i < |queue| => Dropped(queue[i]))
  }

  ghost function ResetStep(b: Box): Box {
    b.(queue := [], gone := b.gone + DropAll(b.queue), recv := [], send := [],
    timed := b.timed - Members(b.recv) - Members(b.send),
    failed := FailAll(FailAll(b.failed, b.recv), b.send))
  }

  ghost function Next(b: Box, step: Step): Box {
    if !Enabled(b, step) then b
    else match step
      case Send(t, v, wait, prio) => SendStep(b, t, v, wait, prio)
      case Recv(t, wait, prio) => RecvStep(b, t, wait, prio)
      case Timeout(t) => TimeoutStep(b, t)
      case Reset => ResetStep(b)
      case Return(t) => b.(failed := b.failed - {t})
  }

  ghost function Exec(b: Box, steps: seq<Step>): Box {
    if steps == [] then b else Next(Exec(b, steps[..|steps| - 1]), steps[|steps| - 1])
  }

  ghost function Init(size: nat, flag: Flag): Box {
    Box(size, flag, [], [], [], {}, {}, {}, map[], [], [])
  }

  // ---------------------------------------------------------------- invariants

  /** Every thread in the protocol is in exactly one place. */
  ghost predicate Threads(b: Box) {
    && NoDup(b.recv) && NoDup(b.send)
    && (forall t :: t in b.recv ==> t !in b.send && t !in b.wokenRecv && t !in b.wokenSend && t !in b.failed)
    && (forall t :: t in b.send ==> t !in b.wokenRecv && t !in b.wokenSend && t !in b.failed)
    && (forall t :: t in b.wokenRecv ==> t !in b.wokenSend && t !in b.failed)
    && (forall t :: t in b.wokenSend ==> t !in b.failed)
    && (forall t :: t in b.timed ==> Suspended(b, t))
  }

  /**
    No wakeup is lost: while receivers sleep, every mail has a woken receiver
    that will still look for it, and dually for senders and free slots.
   */
  ghost predicate NoLostWakeup(b: Box) {
    && |b.queue| <= b.size
    && (b.recv != [] ==> |b.queue| <= |b.wokenRecv|)
    && (b.send != [] ==> b.size - |b.queue| <= |b.wokenSend|)
  }

  ghost function Values(gone: seq<Gone>): (r: seq<nat>)
    ensures |r| == |gone|
  {
    seq(|gone|, i requires 0 <= i < |gone| => gone[i].v)
  }

  /** Mails leave, delivered or dropped, in the order in which they were accepted. */
  ghost predicate InOrder(b: Box) {
    b.accepted == Values(b.gone) + b.queue
  }

  lemma SendKeeps(b: Box, t: nat, v: nat, wait: Wait, prio: map<nat, nat>)
    requires Threads(b) && Enabled(b, Send(t, v, wait, prio))
    ensures Threads(SendStep(b, t, v, wait, prio))
  {
    if |b.queue| >= b.size && !wait.NoWait? {
      EnqueueNoDup(b.send, t, prio, b.flag);
    } else if |b.queue| < b.size && b.recv != [] {
      HeadTail(b.recv);
    }
  }

  lemma RecvKeeps(b: Box, t: nat, wait: Wait, prio: map<nat, nat>)
    requires Threads(b) && Enabled(b, Recv(t, wait, prio))
    ensures Threads(RecvStep(b, t, wait, prio))
  {
    if b.queue == [] && !wait.NoWait? {
      EnqueueNoDup(b.recv, t, prio, b.flag);
    } else if b.queue != [] && b.send != [] {
      HeadTail(b.send);
    }
  }

  lemma TimeoutKeeps(b: Box, t: nat)
    requires Threads(b) && t in b.timed
    ensures Threads(TimeoutStep(b, t))
  {
    WithoutNoDup(b.recv, t);
    WithoutNoDup(b.send, t);
  }

  lemma ResetKeeps(b: Box)
    requires Threads(b)
    ensures Threads(ResetStep(b))
  {
  }

  lemma StepKeepsThreads(b: Box, step: Step)
    requires Threads(b)
    ensures Threads(Next(b, step))
  {
    if Enabled(b, step) {
      match step
      case Send(t, v, wait, prio) => SendKeeps(b, t, v, wait, prio);
      case Recv(t, wait, prio) => RecvKeeps(b, t, wait, prio);
      case Timeout(t) => TimeoutKeeps(b, t);
      case Reset => ResetKeeps(b);
      case Return(_) =>
    }
  }

  lemma SendWakes(b: Box, t: nat, v: nat, wait: Wait, prio: map<nat, nat>)
    requires Threads(b) && NoLostWakeup(b) && Enabled(b, Send(t, v, wait, prio))
    ensures NoLostWakeup(SendStep(b, t, v, wait, prio))
  {
    LessOne(b.wokenSend, t);
    if b.recv != [] {
      assert b.recv[0] in b.recv;
      LessOne(b.wokenRecv, b.recv[0]);
    }
  }

  lemma RecvWakes(b: Box, t: nat, wait: Wait, prio: map<nat, nat>)
    requires Threads(b) && NoLostWakeup(b) && Enabled(b, Recv(t, wait, prio))
    ensures NoLostWakeup(RecvStep(b, t, wait, prio))
  {
    LessOne(b.wokenRecv, t);
    if b.send != [] {
      assert b.send[0] in b.send;
      LessOne(b.wokenSend, b.send[0]);
    }
  }

  lemma TimeoutWakes(b: Box, t: nat)
    requires NoLostWakeup(b)
    ensures NoLostWakeup(TimeoutStep(b, t))
  {
    assert b.recv == [] ==> Without(b.recv, t) == [];
    assert b.send == [] ==> Without(b.send, t) == [];
  }

  lemma StepKeepsWakeups(b: Box, step: Step)
    requires Threads(b) && NoLostWakeup(b)
    ensures NoLostWakeup(Next(b, step))
  {
    if Enabled(b, step) {
      match step
      case Send(t, v, wait, prio) => SendWakes(b, t, v, wait, prio);
      case Recv(t, wait, prio) => RecvWakes(b, t, wait, prio);
      case Timeout(t) => TimeoutWakes(b, t);
      case Reset =>
      case Return(_) =>
    }
  }

  lemma StepKeepsOrder(b: Box, step: Step)
    requires InOrder(b)
    ensures InOrder(Next(b, step))
  {
    if Enabled(b, step) {
      match step
      case Send(t, v, wait, prio) =>
        assert b.accepted + [v] == Values(b.gone) + (b.queue + [v]);
      case Recv(t, wait, prio) =>
        if b.queue != [] {
          assert Values(b.gone + [Delivered(b.queue[0])]) == Values(b.gone) + [b.queue[0]];
          assert b.queue == [b.queue[0]] + b.queue[1..];
        }
      case Timeout(_) =>
      case Reset =>
        assert Values(b.gone + DropAll(b.queue)) == Values(b.gone) + b.queue;
      case Return(_) =>
    }
  }

  ghost predicate Good(b: Box) {
    Threads(b) && NoLostWakeup(b) && InOrder(b)
  }

  lemma StepKeepsGood(b: Box, step: Step)
    requires Good(b)
    ensures Good(Next(b, step))
  {
    StepKeepsThreads(b, step);
    StepKeepsWakeups(b, step);
    StepKeepsOrder(b, step);
  }

  /** In every run: threads in one place each, no wakeup lost, mails in order. */
  lemma {:induction false} EveryRun(size: nat, flag: Flag, steps: seq<Step>)
    ensures var b := Exec(Init(size, flag), steps);
      Good(b) && b.size == size
    decreases |steps|
  {
    if steps != [] {
      var b, step := Exec(Init(size, flag), steps[..|steps| - 1]), steps[|steps| - 1];
      EveryRun(size, flag, steps[..|steps| - 1]);
      StepKeepsGood(b, step);
    }
  }

  /**
    Once the woken threads have checked again, no receiver sleeps beside a mail
    and no sender sleeps beside a free slot.
   */
  lemma NobodySleepsInVain(size: nat, flag: Flag, steps: seq<Step>)
    ensures var b := Exec(Init(size, flag), steps);
      && (b.wokenRecv == {} && b.recv != [] ==> b.queue == [])
      && (b.wokenSend == {} && b.send != [] ==> |b.queue| == size)
  {
    EveryRun(size, flag, steps);
  }

  // --------------------------------------------------------------- error fields

  /** The error field tells a woken thread why it was woken. */
  ghost predicate Errors(b: Box, error: map<nat, int>) {
    && (forall t :: Suspended(b, t) || t in b.wokenRecv || t in b.wokenSend ==> t in error && error[t] == RT_EOK)
    && (forall t :: t in b.failed ==> t in error && error[t] == b.failed[t] && error[t] != RT_EOK)
  }

  /** The error fields after a step: cleared on blocking, set on a failed wait. */
  ghost function NextError(b: Box, step: Step, error: map<nat, int>): map<nat, int> {
    match step
    case Send(t, _, wait, _) => if SendOutcome(b, wait).SendBlocked? then error[t := RT_EOK] else error
    case Recv(t, wait, _) => if RecvOutcome(b, wait).RecvBlocked? then error[t := RT_EOK] else error
    case Timeout(t) => error[t := RT_ETIMEOUT]
    case Reset => FailAll(FailAll(error, b.recv), b.send)
    case Return(_) => error
  }

  lemma SendErrors(b: Box, t: nat, v: nat, wait: Wait, prio: map<nat, nat>, error: map<nat, int>)
    requires Threads(b) && Enabled(b, Send(t, v, wait, prio)) && Errors(b, error)
    ensures Errors(SendStep(b, t, v, wait, prio), NextError(b, Send(t, v, wait, prio), error))
  {
  }

  lemma RecvErrors(b: Box, t: nat, wait: Wait, prio: map<nat, nat>, error: map<nat, int>)
    requires Threads(b) && Enabled(b, Recv(t, wait, prio)) && Errors(b, error)
    ensures Errors(RecvStep(b, t, wait, prio), NextError(b, Recv(t, wait, prio), error))
  {
  }

  lemma TimeoutErrors(b: Box, t: nat, error: map<nat, int>)
    requires Threads(b) && t in b.timed && Errors(b, error)
    ensures Errors(TimeoutStep(b, t), error[t := RT_ETIMEOUT])
  {
  }

  lemma ResetErrors(b: Box, error: map<nat, int>)
    requires Threads(b) && Errors(b, error)
    ensures Errors(ResetStep(b), FailAll(FailAll(error, b.recv), b.send))
  {
  }

  lemma StepKeepsErrors(b: Box, step: Step, error: map<nat, int>)
    requires Threads(b) && Enabled(b, step) && Errors(b, error)
    ensures Errors(Next(b, step), NextError(b, step, error))
  {
    match step
    case Send(t, v, wait, prio) => SendErrors(b, t, v, wait, prio, error);
    case Recv(t, wait, prio) => RecvErrors(b, t, wait, prio, error);
    case Timeout(t) => TimeoutErrors(b, t, error);
    case Reset => ResetErrors(b, error);
    case Return(_) =>
  }

  // ------------------------------------------------------------ what each step does

  /**
    The answer of a receive says what has happened: the oldest mail is delivered,
    and is the one answered; else a caller that does not wait is refused, with no
    mail gone; else it is suspended, with its timer running exactly if it waits
    for a time.
   */
  lemma RecvAnswers(b: Box, t: nat, wait: Wait, prio: map<nat, nat>)
    requires Good(b) && Enabled(b, Recv(t, wait, prio))
    ensures var r, o := RecvStep(b, t, wait, prio), RecvOutcome(b, wait);
      && (o.Got? && b.send != [] ==> r.send == b.send[1..] && b.send[0] in r.wokenSend && b.send[0] !in r.timed)
      && (o.RecvBlocked? ==> Queues(b.recv, t, prio, b.flag, r.recv))
      && (o.Got? <==> b.queue != []) && (o.Got? ==> r.gone == b.gone + [Delivered(o.v)] && [o.v] + r.queue == b.queue)
      && (!o.Got? ==> r.gone == b.gone && r.queue == b.queue && r.send == b.send)
      && (o.Empty? <==> b.queue == [] && wait.NoWait?) && (o.Empty? ==> r.recv == b.recv && r.timed == b.timed)
      && (o.RecvBlocked? ==>
            && t in r.recv && (t in r.timed <==> wait.Ticks?)
            && (forall u :: u != t ==> (u in r.timed <==> u in b.timed) && (u in r.recv <==> u in b.recv)))
      && r.accepted == b.accepted
  {
    EnqueueQueues(b.recv, t, prio, b.flag);
  }

  /** The same for a send: the mail is accepted, refused, or its sender suspended. */
  lemma SendAnswers(b: Box, t: nat, v: nat, wait: Wait, prio: map<nat, nat>)
    requires Good(b) && Enabled(b, Send(t, v, wait, prio))
    ensures var r, o := SendStep(b, t, v, wait, prio), SendOutcome(b, wait);
      && (o.Sent? && b.recv != [] ==> r.recv == b.recv[1..] && b.recv[0] in r.wokenRecv && b.recv[0] !in r.timed)
      && (o.SendBlocked? ==> Queues(b.send, t, prio, b.flag, r.send))
      && (o.Sent? <==> |b.queue| < b.size) && (o.Sent? ==> r.accepted == b.accepted + [v] && r.queue == b.queue + [v])
      && (!o.Sent? ==> r.accepted == b.accepted && r.queue == b.queue && r.recv == b.recv)
      && (o.Full? <==> |b.queue| == b.size && wait.NoWait?) && (o.Full? ==> r.send == b.send && r.timed == b.timed)
      && (o.SendBlocked? ==>
            && t in r.send && (t in r.timed <==> wait.Ticks?)
            && (forall u :: u != t ==> (u in r.timed <==> u in b.timed) && (u in r.send <==> u in b.send)))
      && r.gone == b.gone
  {
    EnqueueQueues(b.send, t, prio, b.flag);
  }

  /** A timeout ends just that wait, with the error for it, and no mail moves. */
  lemma TimeoutDoes(b: Box, t: nat)
    requires Good(b) && t in b.timed
    ensures var r := Next(b, Timeout(t));
      && r.recv == Without(b.recv, t) && r.send == Without(b.send, t) && t !in r.timed
      && r.failed == b.failed[t := -2] && r.queue == b.queue && r.gone == b.gone && r.accepted == b.accepted
  {
  }

  /** A reset empties the mailbox and wakes everybody with an error; the mails count as dropped, not delivered. */
  lemma ResetDoes(b: Box)
    requires Good(b)
    ensures var r := Next(b, Reset);
      && r.queue == [] && r.recv == [] && r.send == [] && r.timed == {}
      && (forall t :: Suspended(b, t) ==> t in r.failed && r.failed[t] == -1)
      && (forall t :: t in b.failed ==> t in r.failed && r.failed[t] == b.failed[t])
      && Delivereds(r.gone) == Delivereds(b.gone)
  {
    DropsDeliverNothing(b.gone, b.queue);
  }

  /** A thread that returns with an error can call again, and nothing else changes. */
  lemma ReturnDoes(b: Box, t: nat, v: nat, wait: Wait, prio: map<nat, nat>)
    requires Good(b) && t in b.failed
    ensures var r := Next(b, Return(t));
      && Enabled(r, Send(t, v, wait, prio)) && Enabled(r, Recv(t, wait, prio)) && r == b.(failed := r.failed)
      && (forall u :: u != t && u in b.failed ==> u in r.failed && r.failed[u] == b.failed[u])
  {
  }

  // ------------------------------------------------------------- answers over a run

  /** The mails delivered, in order. */
  ghost function Delivereds(gone: seq<Gone>): seq<nat> {
    if gone == [] then []
    else
      var front, last := gone[..|gone| - 1], gone[|gone| - 1];
      Delivereds(front) + if last.Delivered? then [last.v] else []
  }

  lemma DeliveredMore(gone: seq<Gone>, g: Gone)
    ensures Delivereds(gone + [g]) == Delivereds(gone) + if g.Delivered? then [g.v] else []
  {
    assert (gone + [g])[..|gone|] == gone;
  }

  lemma {:induction false} DropsDeliverNothing(gone: seq<Gone>, queue: seq<nat>)
    ensures Delivereds(gone + DropAll(queue)) == Delivereds(gone)
    decreases |queue|
  {
    if queue == [] {
      assert gone + DropAll(queue) == gone;
    } else {
      var n := |queue| - 1;
      DropsDeliverNothing(gone, queue[..n]);
      assert gone + DropAll(queue) == gone + DropAll(queue[..n]) + [Dropped(queue[n])];
      DeliveredMore(gone + DropAll(queue[..n]), Dropped(queue[n]));
    }
  }

  /** The values that the receives of a run have answered. */
  ghost function Received(init: Box, steps: seq<Step>): seq<nat> {
    if steps == [] then []
    else
      var front, last := steps[..|steps| - 1], steps[|steps| - 1];
      var b := Exec(init, front);
      Received(init, front)
      + if last.Recv? && Enabled(b, last) && RecvOutcome(b, last.wait).Got? then [RecvOutcome(b, last.wait).v] else []
  }

  /** The values of the sends that were answered with success. */
  ghost function Sents(init: Box, steps: seq<Step>): seq<nat> {
    if steps == [] then []
    else
      var front, last := steps[..|steps| - 1], steps[|steps| - 1];
      var b := Exec(init, front);
      Sents(init, front) + if last.Send? && Enabled(b, last) && SendOutcome(b, last.wait).Sent? then [last.v] else []
  }

  lemma StepAnswers(b: Box, step: Step)
    requires Good(b)
    ensures Delivereds(Next(b, step).gone) == Delivereds(b.gone)
      + if step.Recv? && Enabled(b, step) && RecvOutcome(b, step.wait).Got? then [RecvOutcome(b, step.wait).v] else []
    ensures Next(b, step).accepted == b.accepted
      + if step.Send? && Enabled(b, step) && SendOutcome(b, step.wait).Sent? then [step.v] else []
  {
    if Enabled(b, step) {
      match step
      case Send(t, v, wait, prio) => SendAnswers(b, t, v, wait, prio);
      case Recv(t, wait, prio) =>
        RecvAnswers(b, t, wait, prio);
        if RecvOutcome(b, wait).Got? {
          DeliveredMore(b.gone, Delivered(RecvOutcome(b, wait).v));
        }
      case Timeout(_) =>
      case Reset => ResetDoes(b);
      case Return(_) =>
    }
  }

  /** In every run the receives have answered exactly the mails delivered, and the accepted ones are those sent. */
  lemma {:induction false} AnswersAreMails(size: nat, flag: Flag, steps: seq<Step>)
    ensures var b := Exec(Init(size, flag), steps);
      Received(Init(size, flag), steps) == Delivereds(b.gone) && Sents(Init(size, flag), steps) == b.accepted
    decreases |steps|
  {
    if steps != [] {
      var front, last := steps[..|steps| - 1], steps[|steps| - 1];
      AnswersAreMails(size, flag, front);
      EveryRun(size, flag, front);
      StepAnswers(Exec(Init(size, flag), front), last);
    }
  }

  lemma StepDropsNone(b: Box, step: Step)
    requires Good(b) && !step.Reset? && Values(b.gone) == Delivereds(b.gone)
    ensures Values(Next(b, step).gone) == Delivereds(Next(b, step).gone)
  {
    if Enabled(b, step) {
      match step
      case Send(t, v, wait, prio) => SendAnswers(b, t, v, wait, prio);
      case Recv(t, wait, prio) =>
        RecvAnswers(b, t, wait, prio);
        if RecvOutcome(b, wait).Got? {
          var g := Delivered(RecvOutcome(b, wait).v);
          DeliveredMore(b.gone, g);
          assert Values(b.gone + [g]) == Values(b.gone) + [g.v];
        }
      case Timeout(_) =>
      case Return(_) =>
    }
  }

  lemma {:induction false} NoneDropped(size: nat, flag: Flag, steps: seq<Step>)
    requires forall i :: 0 <= i < |steps| ==> !steps[i].Reset?
    ensures var b := Exec(Init(size, flag), steps); Values(b.gone) == Delivereds(b.gone)
    decreases |steps|
  {
    if steps != [] {
      var front := steps[..|steps| - 1];
      NoneDropped(size, flag, front);
      EveryRun(size, flag, front);
      StepDropsNone(Exec(Init(size, flag), front), steps[|steps| - 1]);
    }
  }

  /** In every run without resets, what was sent is what was received, in that order, and then what is still there. */
  lemma FirstInFirstOut(size: nat, flag: Flag, steps: seq<Step>)
    requires forall i :: 0 <= i < |steps| ==> !steps[i].Reset?
    ensures Sents(Init(size, flag), steps)
      == Received(Init(size, flag), steps) + Exec(Init(size, flag), steps).queue
  {
    EveryRun(size, flag, steps);
    AnswersAreMails(size, flag, steps);
    NoneDropped(size, flag, steps);
  }

  // ------------------------------------------------------------------- timed waits

  /** How long thread `t` was prepared to wait when it last called or checked again. */
  ghost function LastWait(init: Box, steps: seq<Step>, t: nat): Wait {
    if steps == [] then NoWait
    else
      var front, last := steps[..|steps| - 1], steps[|steps| - 1];
      if (last.Send? || last.Recv?) && last.t == t && Enabled(Exec(init, front), last) then last.wait
      else LastWait(init, front, t)
  }

  /** In every run a suspended thread can time out exactly if it waits for a time. */
  lemma {:induction false} TimedExactly(size: nat, flag: Flag, steps: seq<Step>, t: nat)
    ensures var b := Exec(Init(size, flag), steps);
      Suspended(b, t) ==> (Enabled(b, Timeout(t)) <==> LastWait(Init(size, flag), steps, t).Ticks?)
    decreases |steps|
  {
    if steps != [] {
      var front, last := steps[..|steps| - 1], steps[|steps| - 1];
      TimedExactly(size, flag, front, t);
      EveryRun(size, flag, front);
      if Suspended(Exec(Init(size, flag), steps), t) {
        StepTimed(Exec(Init(size, flag), front), last, t);
      }
    }
  }

  /** A step other than its own call leaves the timer of a thread that stays suspended alone. */
  lemma StepTimed(b: Box, step: Step, t: nat)
    requires Good(b) && Suspended(Next(b, step), t)
    ensures var own := (step.Send? || step.Recv?) && step.t == t && Enabled(b, step);
      && (own ==> (t in Next(b, step).timed <==> step.wait.Ticks?))
      && (!own ==> Suspended(b, t) && (t in Next(b, step).timed <==> t in b.timed))
  {
    if Enabled(b, step) {
      match step
      case Send(u, v, wait, prio) => SendTimed(b, u, v, wait, prio, t);
      case Recv(u, wait, prio) => RecvTimed(b, u, wait, prio, t);
      case Timeout(_) =>
      case Reset =>
      case Return(_) =>
    }
  }

  lemma SendTimed(b: Box, u: nat, v: nat, wait: Wait, prio: map<nat, nat>, t: nat)
    requires Good(b) && Enabled(b, Send(u, v, wait, prio)) && Suspended(SendStep(b, u, v, wait, prio), t)
    ensures var r := SendStep(b, u, v, wait, prio);
      if t == u then t in r.timed <==> wait.Ticks? else Suspended(b, t) && (t in r.timed <==> t in b.timed)
  {
    SendAnswers(b, u, v, wait, prio);
    if b.recv != [] {
      HeadTail(b.recv);
    }
  }

  lemma RecvTimed(b: Box, u: nat, wait: Wait, prio: map<nat, nat>, t: nat)
    requires Good(b) && Enabled(b, Recv(u, wait, prio)) && Suspended(RecvStep(b, u, wait, prio), t)
    ensures var r := RecvStep(b, u, wait, prio);
      if t == u then t in r.timed <==> wait.Ticks? else Suspended(b, t) && (t in r.timed <==> t in b.timed)
  {
    RecvAnswers(b, u, wait, prio);
    if b.send != [] {
      HeadTail(b.send);
    }
  }
}
