/**
  rt_mailbox: a ring of mails with 16-bit offsets and two lists of suspended
  threads. Every critical section is a method, proved to be the corresponding
  step of `MailboxSpec` on the bounded queue that the ring stands for.
 */
module Mailbox {
  import opened NodeList
  import opened WaitList
  import opened MailboxSpec

  // --------------------------------------------------------------------- ring

  /** The slot `i` places behind `from`, wrapping at `size`. */
  ghost function Slot(from: nat, i: nat, size: nat): (k: nat)
    requires from < size && i <= size
    ensures k < size
  {
    if from + i < size then from + i else from + i - size
  }

  /** The offsets meet the law in_offset == (out_offset + entry) mod size. */
  lemma OffsetsAgree(pool: seq<nat>, size: nat, out: nat, entry: nat, inOff: nat)
    requires RingOk(pool, size, out, entry, inOff) && size > 0
    ensures inOff == (out + entry) % size
  {
    if out + entry >= size {
      assert (out + entry - size) + 1 * size == out + entry;
      assert (out + entry) % size == out + entry - size;
    }
  }

  ghost predicate RingOk(pool: seq<nat>, size: nat, out: nat, entry: nat, inOff: nat) {
    && |pool| >= size && entry <= size
    && (if size == 0 then out == 0 && inOff == 0 else out < size && inOff == Slot(out, entry, size))
  }

  /** The mails in the ring, oldest first. */
  ghost function Ring(pool: seq<nat>, size: nat, out: nat, entry: nat): (q: seq<nat>)
    requires |pool| >= size && entry <= size && (size > 0 ==> out < size)
    ensures |q| == entry
  {
    seq(entry, i requires 0 <= i < entry => pool[Slot(out, i, size)])
  }

  function Advance(k: nat, size: nat): nat {
    if k + 1 >= size then 0 else k + 1
  }

  lemma RingPush(pool: seq<nat>, size: nat, out: nat, entry: nat, inOff: nat, v: nat)
    requires RingOk(pool, size, out, entry, inOff) && entry < size
    ensures RingOk(pool[inOff := v], size, out, entry + 1, Advance(inOff, size))
    ensures Ring(pool[inOff := v], size, out, entry + 1) == Ring(pool, size, out, entry) + [v]
  {
    var p, q := Ring(pool, size, out, entry), Ring(pool[inOff := v], size, out, entry + 1);
    forall i | 0 <= i < entry ensures q[i] == p[i] {
      assert Slot(out, i, size) != inOff;
    }
  }

  lemma RingPop(pool: seq<nat>, size: nat, out: nat, entry: nat, inOff: nat)
    requires RingOk(pool, size, out, entry, inOff) && 0 < entry
    ensures RingOk(pool, size, Advance(out, size), entry - 1, inOff)
    ensures Ring(pool, size, out, entry) == [pool[out]] + Ring(pool, size, Advance(out, size), entry - 1)
  {
    var p, q := Ring(pool, size, out, entry), Ring(pool, size, Advance(out, size), entry - 1);
    forall i | 0 <= i < entry - 1 ensures p[i + 1] == q[i] {
      assert Slot(out, i + 1, size) == Slot(Advance(out, size), i, size);
    }
  }

  // -------------------------------------------------------------------- object

  class Mailbox {
    const msgPool: array<nat>
    const size: nat
    const flag: Flag
    var entry: nat
    var inOffset: nat
    var outOffset: nat
    var receivers: seq<nat>
    var senders: seq<nat>
    var timers: set<nat>       // thread timers that are running
    var error: map<nat, int>   // the error field of each thread

    ghost var wokenRecv: set<nat>
    ghost var wokenSend: set<nat>
    ghost var failed: map<nat, int>
    ghost var accepted: seq<nat>
    ghost var gone: seq<Gone>

    ghost predicate Shape()
      reads this, msgPool
    {
      RingOk(msgPool[..], size, outOffset, entry, inOffset)
    }

    ghost function Abs(): (b: Box)
      reads this, msgPool
      requires Shape()
    {
      Box(size, flag, Ring(msgPool[..], size, outOffset, entry), receivers, senders,
      wokenRecv, wokenSend, timers, failed, accepted, gone)
    }

    ghost predicate Valid()
      reads this, msgPool
    {
      Shape() && Errors(Abs(), error) && Good(Abs())
    }

    ghost method Stepped(b: Box, e: map<nat, int>, step: Step)
      requires Shape() && Good(b) && Errors(b, e) && Enabled(b, step)
      requires Abs() == MailboxSpec.Next(b, step) && error == NextError(b, step, e)
      ensures Valid()
    {
      StepKeepsGood(b, step);
      StepKeepsErrors(b, step, e);
    }

    /** rt_mb_init: the size is cut to the 16 bits of its field. */
    constructor (pool: array<nat>, capacity: nat, f: Flag)
      requires pool.Length >= capacity % 0x1_0000
      ensures Valid() && Abs() == MailboxSpec.Init(capacity % 0x1_0000, f)
    {
      msgPool, size, flag := pool, capacity % 0x1_0000, f;
      entry, inOffset, outOffset := 0, 0, 0;
      receivers, senders, timers, error := [], [], {}, map[];
      wokenRecv, wokenSend, failed, accepted, gone := {}, {}, map[], [], [];
    }

    /** rt_ipc_list_resume on the receivers. */
    method ResumeReceiver()
      requires receivers != []
      modifies this`receivers, this`timers, this`wokenRecv
      ensures receivers == old(receivers[1..]) && timers == old(timers - {receivers[0]})
      ensures wokenRecv == old(wokenRecv + {receivers[0]})
    {
      var t := receivers[0];
      receivers := receivers[1..];
      timers := timers - {t};
      wokenRecv := wokenRecv + {t};
    }

    method ResumeSender()
      requires senders != []
      modifies this`senders, this`timers, this`wokenSend
      ensures senders == old(senders[1..]) && timers == old(timers - {senders[0]})
      ensures wokenSend == old(wokenSend + {senders[0]})
    {
      var t := senders[0];
      senders := senders[1..];
      timers := timers - {t};
      wokenSend := wokenSend + {t};
    }

    /** Storing the mail and waking a receiver. */
    method Put(v: nat)
      requires Shape() && entry < size
      modifies this`entry, this`inOffset, this`receivers, this`timers, this`wokenRecv, this`accepted, msgPool
      ensures Shape()
      ensures Abs() == WakeRecv(old(Abs()).(queue := old(Abs()).queue + [v], accepted := old(accepted) + [v]))
    {
      RingPush(msgPool[..], size, outOffset, entry, inOffset, v);
      ghost var pool := msgPool[..];
      msgPool[inOffset] := v;
      assert msgPool[..] == pool[inOffset := v];
      inOffset := Advance(inOffset, size);
      entry := entry + 1;
      accepted := accepted + [v];
      if receivers != [] {
        ResumeReceiver();
      }
    }

    /** Suspending the calling sender, with its timer if it waits for a time. */
    method BlockSender(t: nat, wait: Wait, prio: map<nat, nat>)
      requires !wait.NoWait?
      modifies this`senders, this`timers, this`error
      ensures senders == Enqueue(old(senders), t, prio, flag)
      ensures timers == old(timers) + (if wait.Ticks? then {t} else {})
      ensures error == old(error)[t := RT_EOK]
    {
      error := error[t := RT_EOK];
      senders := Suspend(senders, t, prio, flag);
      if wait.Ticks? {
        timers := timers + {t};
      }
    }

    method BlockReceiver(t: nat, wait: Wait, prio: map<nat, nat>)
      requires !wait.NoWait?
      modifies this`receivers, this`timers, this`error
      ensures receivers == Enqueue(old(receivers), t, prio, flag)
      ensures timers == old(timers) + (if wait.Ticks? then {t} else {})
      ensures error == old(error)[t := RT_EOK]
    {
      error := error[t := RT_EOK];
      receivers := Suspend(receivers, t, prio, flag);
      if wait.Ticks? {
        timers := timers + {t};
      }
    }

    /** The body of a critical section of rt_mb_send_wait. */
    method TrySend(t: nat, v: nat, wait: Wait, prio: map<nat, nat>) returns (r: SendResult)
      requires Shape()
      modifies this, msgPool
      ensures Shape() && Abs() == SendStep(old(Abs()), t, v, wait, prio)
      ensures error == if r.SendBlocked? then old(error)[t := RT_EOK] else old(error)
      ensures r == SendOutcome(old(Abs()), wait)
    {
      wokenSend := wokenSend - {t};
      if entry == size && wait.NoWait? {
        r := Full;
      } else if entry == size {
        BlockSender(t, wait, prio);
        r := SendBlocked;
      } else {
        Put(v);
        r := Sent;
      }
    }

    /** One critical section of rt_mb_send_wait, on entry or after waking up. */
    method SendSection(t: nat, v: nat, wait: Wait, prio: map<nat, nat>) returns (r: SendResult)
      requires Valid() && Enabled(Abs(), Send(t, v, wait, prio))
      modifies this, msgPool
      ensures Valid()
      ensures Abs() == SendStep(old(Abs()), t, v, wait, prio)
      ensures r == SendOutcome(old(Abs()), wait)
    {
      ghost var b, e := Abs(), error;
      r := TrySend(t, v, wait, prio);
      Stepped(b, e, Send(t, v, wait, prio));
    }

    /** Fetching the oldest mail and waking a sender. */
    method Take() returns (v: nat)
      requires Shape() && entry > 0
      modifies this`entry, this`outOffset, this`senders, this`timers, this`wokenSend, this`gone
      ensures Shape() && v == old(Abs()).queue[0]
      ensures Abs() == WakeSend(old(Abs()).(queue := old(Abs()).queue[1..], gone := old(gone) + [Delivered(v)]))
    {
      RingPop(msgPool[..], size, outOffset, entry, inOffset);
      v := msgPool[outOffset];
      outOffset := Advance(outOffset, size);
      entry := entry - 1;
      gone := gone + [Delivered(v)];
      if senders != [] {
        ResumeSender();
      }
    }

    /** The body of a critical section of rt_mb_recv. */
    method TryRecv(t: nat, wait: Wait, prio: map<nat, nat>) returns (r: RecvResult)
      requires Shape()
      modifies this
      ensures Shape() && Abs() == RecvStep(old(Abs()), t, wait, prio)
      ensures error == if r.RecvBlocked? then old(error)[t := RT_EOK] else old(error)
      ensures r == RecvOutcome(old(Abs()), wait)
    {
      wokenRecv := wokenRecv - {t};
      if entry == 0 && wait.NoWait? {
        r := Empty;
      } else if entry == 0 {
        BlockReceiver(t, wait, prio);
        r := RecvBlocked;
      } else {
        var v := Take();
        r := Got(v);
      }
    }

    /** One critical section of rt_mb_recv, on entry or after waking up. */
    method RecvSection(t: nat, wait: Wait, prio: map<nat, nat>) returns (r: RecvResult)
      requires Valid() && Enabled(Abs(), Recv(t, wait, prio))
      modifies this
      ensures Valid()
      ensures Abs() == RecvStep(old(Abs()), t, wait, prio)
      ensures r == RecvOutcome(old(Abs()), wait)
    {
      ghost var b, e := Abs(), error;
      r := TryRecv(t, wait, prio);
      Stepped(b, e, Recv(t, wait, prio));
    }

    /**
      rt_thread_timeout of a thread whose timer ran out. Its assertion that the
      thread is suspended holds, as resuming a thread stops its timer.
     */
    method TimeoutSection(t: nat)
      requires Valid() && t in timers
      modifies this
      ensures Valid()
      ensures old(Suspended(Abs(), t)) && !Suspended(Abs(), t)
      ensures Abs() == TimeoutStep(old(Abs()), t)
    {
      ghost var b, e := Abs(), error;
      error := error[t := RT_ETIMEOUT];
      receivers, senders := Without(receivers, t), Without(senders, t);
      timers := timers - {t};
      failed := failed[t := RT_ETIMEOUT];
      Stepped(b, e, Timeout(t));
    }

    /** The body of the reset: both lists resumed with an error, the ring emptied. */
    method Clear()
      requires Shape()
      modifies this
      ensures Shape() && Abs() == ResetStep(old(Abs()))
      ensures error == FailAll(FailAll(old(error), old(receivers)), old(senders))
    {
      ghost var b := Abs();
      timers, error := ResumeAll(receivers, timers, error);
      receivers := [];
      timers, error := ResumeAll(senders, timers, error);
      senders := [];
      entry, inOffset, outOffset := 0, 0, 0;
      failed := FailAll(FailAll(failed, b.recv), b.send);
      gone := gone + DropAll(b.queue);
    }

    /** rt_mb_control with RT_IPC_CMD_RESET. */
    method ResetSection()
      requires Valid()
      modifies this
      ensures Valid()
      ensures Abs() == ResetStep(old(Abs()))
    {
      ghost var b, e := Abs(), error;
      Clear();
      Stepped(b, e, Reset);
    }

    /**
      What a thread finds when it runs again after being suspended: no error
      exactly if it was woken by its partner, and then it checks again.
     */
    method Resumed(t: nat) returns (code: int)
      requires Valid() && (t in wokenRecv || t in wokenSend || t in failed)
      modifies this`failed
      ensures Valid()
      ensures code == RT_EOK <==> old(t in wokenRecv || t in wokenSend)
      ensures old(t in failed) ==> code == old(failed)[t] && Abs() == MailboxSpec.Next(old(Abs()), Return(t))
      ensures code == RT_EOK ==> Abs() == old(Abs())
    {
      ghost var b := Abs();
      code := error[t];
      if code != RT_EOK {
        failed := failed - {t};
        Stepped(b, error, Return(t));
      }
    }
  }
}
