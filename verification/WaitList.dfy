/**
  Lists of suspended threads, shared by all IPC objects: a thread is suspended
  in arrival order or by priority, resumed from the front, and unlinked from any
  position when its timer runs out.
 */
module WaitList {
  import opened NodeList

  datatype Flag = Fifo | Prio

  /** How long a caller is prepared to wait: 0, a number of ticks, or for ever. */
  datatype Wait = NoWait | Ticks(n: nat) | Forever

  const RT_EOK: int := 0
  const RT_ERROR: int := -1
  const RT_ETIMEOUT: int := -2

  /** The threads of a list, woken with an error. */
  ghost function FailAll(failed: map<nat, int>, list: seq<nat>): map<nat, int> {
    failed + map t | t in list :: RT_ERROR
  }

  lemma FailMore(failed: map<nat, int>, list: seq<nat>, k: nat)
    requires k < |list|
    ensures FailAll(failed, list[..k + 1]) == FailAll(failed, list[..k])[list[k] := RT_ERROR]
  {
    assert list[..k + 1] == list[..k] + [list[k]];
  }

  /** A numerically smaller priority is more urgent. */
  function Rank(prio: map<nat, nat>, t: nat): nat {
    if t in prio then prio[t] else 0
  }

  /** Most urgent first. */
  ghost predicate ByPrio(list: seq<nat>, prio: map<nat, nat>) {
    |list| <= 1 || (Rank(prio, list[0]) <= Rank(prio, list[1]) && ByPrio(list[1..], prio))
  }

  lemma {:induction false} HeadLeast(list: seq<nat>, prio: map<nat, nat>)
    requires ByPrio(list, prio)
    ensures forall x :: x in list ==> Rank(prio, list[0]) <= Rank(prio, x)
    decreases |list|
  {
    if |list| > 1 {
      HeadLeast(list[1..], prio);
      assert list == [list[0]] + list[1..];
    }
  }

  lemma ByPrioCons(x: nat, list: seq<nat>, prio: map<nat, nat>)
    requires ByPrio(list, prio) && forall y :: y in list ==> Rank(prio, x) <= Rank(prio, y)
    ensures ByPrio([x] + list, prio)
  {
    assert ([x] + list)[1..] == list;
  }

  lemma {:induction false} WithoutByPrio(list: seq<nat>, t: nat, prio: map<nat, nat>)
    requires ByPrio(list, prio)
    ensures ByPrio(Without(list, t), prio)
    decreases |list|
  {
    if list != [] {
      WithoutByPrio(list[1..], t, prio);
      HeadLeast(list, prio);
      ByPrioCons(list[0], Without(list[1..], t), prio);
    }
  }

  lemma {:induction false} SamePrio(list: seq<nat>, p: map<nat, nat>, q: map<nat, nat>)
    requires ByPrio(list, p) && forall x :: x in list ==> Rank(p, x) == Rank(q, x)
    ensures ByPrio(list, q)
    decreases |list|
  {
    if |list| > 1 {
      SamePrio(list[1..], p, q);
      assert list[0] in list && list[1] in list;
    }
  }

  // ---------------------------------------------------------------- suspending

  /** The list with `t` suspended on it. */
  ghost function Enqueue(list: seq<nat>, t: nat, prio: map<nat, nat>, flag: Flag): (r: seq<nat>)
    ensures forall x :: x in r <==> x in list || x == t
  {
    if flag.Fifo? then list + [t] else EnqueuePrio(list, t, prio)
  }

  /** Before the first thread that is less urgent. */
  ghost function EnqueuePrio(list: seq<nat>, t: nat, prio: map<nat, nat>): (r: seq<nat>)
    ensures forall x :: x in r <==> x in list || x == t
  {
    if list == [] || Rank(prio, t) < Rank(prio, list[0]) then [t] + list
    else [list[0]] + EnqueuePrio(list[1..], t, prio)
  }

  lemma {:induction false} EnqueuePrioNoDup(list: seq<nat>, t: nat, prio: map<nat, nat>)
    requires NoDup(list) && t !in list
    ensures NoDup(EnqueuePrio(list, t, prio))
    decreases |list|
  {
    if list == [] || Rank(prio, t) < Rank(prio, list[0]) {
      assert ([t] + list)[1..] == list;
    } else {
      EnqueuePrioNoDup(list[1..], t, prio);
      assert EnqueuePrio(list, t, prio)[1..] == EnqueuePrio(list[1..], t, prio);
    }
  }

  lemma EnqueueNoDup(list: seq<nat>, t: nat, prio: map<nat, nat>, flag: Flag)
    requires NoDup(list) && t !in list
    ensures NoDup(Enqueue(list, t, prio, flag))
  {
    if flag.Fifo? {
      NoDupPush(list, t);
    } else {
      EnqueuePrioNoDup(list, t, prio);
    }
  }

  lemma {:induction false} EnqueueByPrio(list: seq<nat>, t: nat, prio: map<nat, nat>)
    requires ByPrio(list, prio)
    ensures ByPrio(EnqueuePrio(list, t, prio), prio)
    decreases |list|
  {
    if list == [] || Rank(prio, t) < Rank(prio, list[0]) {
      HeadLeast(list, prio);
      ByPrioCons(t, list, prio);
    } else {
      EnqueueByPrio(list[1..], t, prio);
      HeadLeast(list, prio);
      ByPrioCons(list[0], EnqueuePrio(list[1..], t, prio), prio);
    }
  }

  /** The position found: behind everything as urgent, before everything less urgent. */
  lemma {:induction false} EnqueuePrioAt(list: seq<nat>, t: nat, prio: map<nat, nat>, k: nat)
    requires k <= |list| && forall i :: 0 <= i < k ==> Rank(prio, list[i]) <= Rank(prio, t)
    requires k < |list| ==> Rank(prio, t) < Rank(prio, list[k])
    ensures EnqueuePrio(list, t, prio) == list[..k] + [t] + list[k..]
    decreases |list|
  {
    if k > 0 {
      EnqueuePrioAt(list[1..], t, prio, k - 1);
      assert list[..k] == [list[0]] + list[1..][..k - 1];
    }
  }

  /** A thread queues up: behind all others, or, in a list by priority, behind all as urgent as it. */
  ghost predicate Queues(list: seq<nat>, t: nat, prio: map<nat, nat>, flag: Flag, r: seq<nat>) {
    && (flag.Fifo? ==> r == list + [t])
    && (flag.Prio? ==> exists k ::
          && 0 <= k <= |list| && r == list[..k] + [t] + list[k..]
          && (forall i :: 0 <= i < k ==> Rank(prio, list[i]) <= Rank(prio, t))
          && (k < |list| ==> Rank(prio, t) < Rank(prio, list[k])))
  }

  lemma EnqueueQueues(list: seq<nat>, t: nat, prio: map<nat, nat>, flag: Flag)
    ensures Queues(list, t, prio, flag, Enqueue(list, t, prio, flag))
  {
    if flag.Prio? {
      var k := 0;
      while k < |list| && Rank(prio, list[k]) <= Rank(prio, t)
        invariant k <= |list| && forall i :: 0 <= i < k ==> Rank(prio, list[i]) <= Rank(prio, t)
      {
        k := k + 1;
      }
      EnqueuePrioAt(list, t, prio, k);
    }
  }

  /** What a reset tells the threads of a list: the error -1, and nothing to others. */
  lemma FailAllDoes(failed: map<nat, int>, list: seq<nat>)
    ensures var r := FailAll(failed, list);
      && (forall t :: t in list ==> t in r && r[t] == -1)
      && (forall t :: t !in list ==> (t in r <==> t in failed) && (t in failed ==> r[t] == failed[t]))
  {
  }

  /** rt_ipc_list_suspend, the part that links the thread into the list. */
  method Suspend(list: seq<nat>, t: nat, prio: map<nat, nat>, flag: Flag) returns (r: seq<nat>)
    ensures r == Enqueue(list, t, prio, flag)
  {
    match flag
    case Fifo => r := list + [t];
    case Prio =>
      var n := 0;
      while n < |list|
        invariant n <= |list|
        invariant forall i :: 0 <= i < n ==> Rank(prio, list[i]) <= Rank(prio, t)
      {
        if Rank(prio, t) < Rank(prio, list[n]) {
          EnqueuePrioAt(list, t, prio, n);
          return list[..n] + [t] + list[n..];
        }
        n := n + 1;
      }
      EnqueuePrioAt(list, t, prio, n);
      r := list + [t];
  }

  /** rt_ipc_list_resume_all: every thread is unlinked with an error and its timer stopped. */
  method ResumeAll(list: seq<nat>, timers: set<nat>, error: map<nat, int>)
      returns (timers': set<nat>, error': map<nat, int>)
    ensures timers' == timers - Members(list)
    ensures error' == FailAll(error, list)
  {
    timers', error' := timers, error;
    var rest, k := list, 0;
    while rest != []
      invariant k <= |list| && rest == list[k..]
      invariant timers' == timers - Members(list[..k])
      invariant error' == FailAll(error, list[..k])
      decreases |rest|
    {
      var t := rest[0];
      MembersMore(list, k);
      FailMore(error, list, k);
      error' := error'[t := RT_ERROR];
      rest, timers' := rest[1..], timers' - {t};
      k := k + 1;
    }
    assert list[..k] == list;
  }
}
