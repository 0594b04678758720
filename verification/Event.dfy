/**
  rt_event: a 32-bit set and a list of suspended threads, each with the bits it
  wants and its options. Every critical section is a method, proved to be a step
  of `EventSpec`.
 */
module Event {
  import opened NodeList
  import opened WaitList
  import Spec = EventSpec
  import opened EventSpec

  /** The thread fields agree with the waiters and with what woken threads get. */
  ghost predicate Fields(v: Spec.Event, eventSet: map<nat, Bits>, eventInfo: map<nat, Opt>, error: map<nat, int>) {
    && (forall t :: t in v.waiters ==> Waits(v, t, eventSet, eventInfo, error))
    && (forall t :: t in v.resumed ==> t in error && Tells(v.resumed[t], t, eventSet, error))
  }

  ghost predicate Waits(v: Spec.Event, t: nat, eventSet: map<nat, Bits>, eventInfo: map<nat, Opt>,
      error: map<nat, int>) {
    && t in v.want && t in v.opt && t in eventSet && t in eventInfo && t in error
    && eventSet[t] == v.want[t] && eventInfo[t] == v.opt[t] && error[t] == RT_EOK
  }

  ghost predicate Tells(w: Woken, t: nat, eventSet: map<nat, Bits>, error: map<nat, int>)
    requires t in error
  {
    match w
    case Got(bits) => t in eventSet && eventSet[t] == bits && error[t] == RT_EOK
    case Failed(code) => error[t] == code && code != RT_EOK
  }

  lemma OfferFields(v: Spec.Event, e: Bits, eventSet: map<nat, Bits>, eventInfo: map<nat, Opt>, error: map<nat, int>)
    requires Good(v) && Fields(v, eventSet, eventInfo, error)
    ensures Fields(Offer(v, e), eventSet + Sweep(e, v.waiters, v.want, v.opt).got, eventInfo, error)
  {
    SweepNoDup(e, v.waiters, v.want, v.opt);
    var r := Sweep(e, v.waiters, v.want, v.opt);
    forall t | t in r.keep ensures Waits(Offer(v, e), t, eventSet + r.got, eventInfo, error) {
      assert Waits(v, t, eventSet, eventInfo, error);
    }
    forall t | t in Wake(v.resumed, r.got)
      ensures t in error && Tells(Wake(v.resumed, r.got)[t], t, eventSet + r.got, error)
    {
      if t in r.got {
        assert Waits(v, t, eventSet, eventInfo, error);
      } else {
        assert Tells(v.resumed[t], t, eventSet, error);
      }
    }
  }

  lemma BlockedFields(v: Spec.Event, w: Spec.Event, t: nat, want: Bits, opt: Opt,
      eventSet: map<nat, Bits>, eventInfo: map<nat, Opt>, error: map<nat, int>)
    requires Fields(v, eventSet, eventInfo, error) && t !in v.waiters && t !in v.resumed
    requires w.want == v.want[t := want] && w.opt == v.opt[t := opt] && w.resumed == v.resumed
    requires forall u :: u in w.waiters ==> u in v.waiters || u == t
    ensures Fields(w, eventSet[t := want], eventInfo[t := opt], error[t := RT_EOK])
  {
    forall u | u in w.waiters ensures Waits(w, u, eventSet[t := want], eventInfo[t := opt], error[t := RT_EOK]) {
      if u != t {
        assert Waits(v, u, eventSet, eventInfo, error);
      }
    }
    forall u | u in v.resumed ensures u in error && Tells(v.resumed[u], u, eventSet[t := want], error[t := RT_EOK]) {
      assert Tells(v.resumed[u], u, eventSet, error);
    }
  }

  lemma ResetFields(v: Spec.Event, eventSet: map<nat, Bits>, eventInfo: map<nat, Opt>, error: map<nat, int>)
    requires Good(v) && Fields(v, eventSet, eventInfo, error)
    ensures Good(ResetStep(v)) && Fields(ResetStep(v), eventSet, eventInfo, FailAll(error, v.waiters))
  {
    var r := ResetStep(v);
    var e := FailAll(error, v.waiters);
    forall u | u in r.resumed ensures u in e && Tells(r.resumed[u], u, eventSet, e) {
      if u !in v.waiters {
        assert Tells(v.resumed[u], u, eventSet, error);
      }
    }
  }

  lemma OthersFields(v: Spec.Event, w: Spec.Event, t: nat, code: int,
      eventSet: map<nat, Bits>, eventInfo: map<nat, Opt>, error: map<nat, int>)
    requires Fields(v, eventSet, eventInfo, error) && t !in v.waiters && t !in v.resumed
    requires w.want == v.want && w.opt == v.opt && w.resumed == v.resumed && w.waiters == v.waiters
    ensures Fields(w, eventSet, eventInfo, error[t := code])
  {
    forall u | u in w.waiters ensures Waits(w, u, eventSet, eventInfo, error[t := code]) {
      assert Waits(v, u, eventSet, eventInfo, error);
    }
    forall u | u in v.resumed ensures u in error && Tells(v.resumed[u], u, eventSet, error[t := code]) {
      assert Tells(v.resumed[u], u, eventSet, error);
    }
  }

  lemma KeptMore(kept: seq<nat>, rest: seq<nat>)
    requires rest != []
    ensures kept + rest == (kept + [rest[0]]) + rest[1..]
  {
  }

  /** The sweep so far and the sweep still to come make up the whole. */
  ghost predicate Partial(whole: Swept, e: Bits, kept: seq<nat>, got: map<nat, Bits>, rest: seq<nat>,
      want: map<nat, Bits>, opt: map<nat, Opt>) {
    && Asks(rest, want, opt)
    && var s := Sweep(e, rest, want, opt);
    whole == Swept(s.bitset, kept + s.keep, got + s.got)
  }

  lemma PartialWoken(whole: Swept, e: Bits, kept: seq<nat>, got: map<nat, Bits>, rest: seq<nat>,
      want: map<nat, Bits>, opt: map<nat, Opt>)
    requires rest != [] && Partial(whole, e, kept, got, rest, want, opt) && Satisfied(e, want[rest[0]], opt[rest[0]])
    ensures var t := rest[0];
      Partial(whole, Consume(e, want[t], opt[t]), kept, got[t := e * want[t]], rest[1..], want, opt)
  {
    var t := rest[0];
    var s := Sweep(Consume(e, want[t], opt[t]), rest[1..], want, opt);
    GotMore(got, t, e * want[t], s.got);
  }

  lemma GotMore(got: map<nat, Bits>, t: nat, bits: Bits, more: map<nat, Bits>)
    ensures got + (map[t := bits] + more) == got[t := bits] + more
  {
  }

  lemma PartialKept(whole: Swept, e: Bits, kept: seq<nat>, got: map<nat, Bits>, rest: seq<nat>,
      want: map<nat, Bits>, opt: map<nat, Opt>)
    requires rest != [] && Partial(whole, e, kept, got, rest, want, opt) && !Satisfied(e, want[rest[0]], opt[rest[0]])
    ensures Partial(whole, e, kept + [rest[0]], got, rest[1..], want, opt)
  {
    var t := rest[0];
    var s := Sweep(e, rest[1..], want, opt);
    assert kept + ([t] + s.keep) == (kept + [t]) + s.keep;
  }

  /** The fields that the loop of rt_event_send changes. */
  datatype View = View(bitset: Bits, waiters: seq<nat>, timers: set<nat>, eventSet: map<nat, Bits>)

  /** Where the loop stands when `rest` is still to be visited. */
  ghost predicate Sweeping(whole: Swept, was: View, now: View, kept: seq<nat>, got: map<nat, Bits>, rest: seq<nat>,
      want: map<nat, Bits>, opt: map<nat, Opt>) {
    && NoDup(rest) && Partial(whole, now.bitset, kept, got, rest, want, opt)
    && (forall t :: t in rest ==>
          t in was.waiters && t !in kept && t !in got && t in was.eventSet && was.eventSet[t] == want[t])
    && now.waiters == kept + rest
    && now.timers == was.timers - got.Keys
    && now.eventSet == was.eventSet + got
  }

  lemma SweepBegins(whole: Swept, was: View, want: map<nat, Bits>, opt: map<nat, Opt>)
    requires NoDup(was.waiters) && Asks(was.waiters, want, opt) && whole == Sweep(was.bitset, was.waiters, want, opt)
    requires forall t :: t in was.waiters ==> t in was.eventSet && was.eventSet[t] == want[t]
    ensures Sweeping(whole, was, was, [], map[], was.waiters, want, opt)
  {
    NothingYet(was.waiters, was.eventSet);
    NothingYet(whole.keep, whole.got);
    assert Partial(whole, was.bitset, [], map[], was.waiters, want, opt);
  }

  lemma NothingYet(list: seq<nat>, m: map<nat, Bits>)
    ensures [] + list == list && m + map[] == m && map[] + m == m
  {
  }

  lemma SweepWakes(whole: Swept, was: View, now: View, kept: seq<nat>, got: map<nat, Bits>, rest: seq<nat>,
      want: map<nat, Bits>, opt: map<nat, Opt>)
    requires rest != [] && Sweeping(whole, was, now, kept, got, rest, want, opt)
    requires Satisfied(now.bitset, want[rest[0]], opt[rest[0]])
    ensures var t := rest[0];
      var bits := now.bitset * want[t];
      Sweeping(whole, was,
               View(Consume(now.bitset, want[t], opt[t]), Without(now.waiters, t), now.timers - {t},
                    now.eventSet[t := bits]),
               kept, got[t := bits], rest[1..], want, opt)
  {
    var t := rest[0];
    HeadTail(rest);
    PartialWoken(whole, now.bitset, kept, got, rest, want, opt);
    WithoutAt(kept, rest);
    RecordMore(was.eventSet, got, t, now.bitset * want[t]);
    TimersMore(was.timers, got, t, now.bitset * want[t]);
  }

  lemma TimersMore(timers: set<nat>, got: map<nat, Bits>, t: nat, bits: Bits)
    ensures timers - got.Keys - {t} == timers - got[t := bits].Keys
    ensures forall u :: u in got[t := bits] <==> u == t || u in got
  {
  }

  lemma RecordMore(before: map<nat, Bits>, got: map<nat, Bits>, t: nat, bits: Bits)
    ensures (before + got)[t := bits] == before + got[t := bits]
  {
  }

  lemma SweepPasses(whole: Swept, was: View, now: View, kept: seq<nat>, got: map<nat, Bits>, rest: seq<nat>,
      want: map<nat, Bits>, opt: map<nat, Opt>)
    requires rest != [] && Sweeping(whole, was, now, kept, got, rest, want, opt)
    requires !Satisfied(now.bitset, want[rest[0]], opt[rest[0]])
    ensures Sweeping(whole, was, now, kept + [rest[0]], got, rest[1..], want, opt)
  {
    HeadTail(rest);
    PartialKept(whole, now.bitset, kept, got, rest, want, opt);
    KeptMore(kept, rest);
  }

  lemma SweepEnds(whole: Swept, was: View, now: View, kept: seq<nat>, got: map<nat, Bits>,
      want: map<nat, Bits>, opt: map<nat, Opt>)
    requires Sweeping(whole, was, now, kept, got, [], want, opt)
    ensures now == View(whole.bitset, whole.keep, was.timers - whole.got.Keys, was.eventSet + whole.got)
  {
    assert kept + [] == kept && got + map[] == got;
  }

  class Event {
    const flag: Flag
    var bitset: Bits
    var waiters: seq<nat>
    var timers: set<nat>             // thread timers that are running
    var eventSet: map<nat, Bits>     // thread fields
    var eventInfo: map<nat, Opt>
    var error: map<nat, int>

    ghost var v: Spec.Event

    ghost predicate Tied()
      reads this
    {
      v.flag == flag && v.bitset == bitset && v.waiters == waiters && v.timed == timers
    }

    ghost predicate Valid()
      reads this
    {
      Tied() && Good(v) && Fields(v, eventSet, eventInfo, error)
    }

    constructor (f: Flag)
      ensures Valid() && v == Spec.Init(f)
    {
      flag, bitset, waiters, timers := f, {}, [], {};
      eventSet, eventInfo, error := map[], map[], map[];
      v := Spec.Init(f);
    }

    /** One round of the loop of rt_event_send, up to the resume. */
    method Examine(t: nat) returns (ok: bool)
      requires t in eventSet && t in eventInfo
      modifies this`bitset, this`eventSet
      ensures ok == Satisfied(old(bitset), old(eventSet)[t], eventInfo[t])
      ensures ok ==> eventSet == old(eventSet)[t := old(bitset) * old(eventSet)[t]]
      ensures ok ==> bitset == Consume(old(bitset), old(eventSet)[t], eventInfo[t])
      ensures !ok ==> eventSet == old(eventSet) && bitset == old(bitset)
    {
      ok := false;
      assert bitset * eventSet[t] == eventSet[t] * bitset;
      if eventInfo[t].all {
        if eventSet[t] * bitset == eventSet[t] {
          ok := true;
        }
      } else if eventInfo[t].some {
        if eventSet[t] * bitset != {} {
          eventSet := eventSet[t := eventSet[t] * bitset];
          ok := true;
        }
      }
      if ok && eventInfo[t].clear {
        bitset := bitset - eventSet[t];
      }
    }

    /** One round of that loop: the first thread not yet looked at is woken or passed over. */
    method Visit(t: nat, ghost whole: Swept, ghost was: View, ghost kept: seq<nat>, ghost got: map<nat, Bits>,
        ghost rest: seq<nat>, ghost want: map<nat, Bits>, ghost opt: map<nat, Opt>) returns (ok: bool)
      requires rest != [] && t == rest[0]
      requires Sweeping(whole, was, View(bitset, waiters, timers, eventSet), kept, got, rest, want, opt)
      requires t in eventInfo && t in opt && eventInfo[t] == opt[t]
      modifies this`bitset, this`eventSet, this`waiters, this`timers
      ensures Sweeping(whole, was, View(bitset, waiters, timers, eventSet), if ok then kept else kept + [t],
                       if ok then got[t := old(bitset) * want[t]] else got, rest[1..], want, opt)
    {
      assert t in rest && t in was.waiters;
      ghost var now := View(bitset, waiters, timers, eventSet);
      ok := Examine(t);
      if ok {
        SweepWakes(whole, was, now, kept, got, rest, want, opt);
        waiters := Without(waiters, t);
        timers := timers - {t};
      } else {
        SweepPasses(whole, was, now, kept, got, rest, want, opt);
      }
    }

    /** The loop of rt_event_send over the suspended threads, front to back. */
    method SweepList(ghost want: map<nat, Bits>, ghost opt: map<nat, Opt>) returns (ghost whole: Swept)
      requires NoDup(waiters) && Asks(waiters, want, opt)
      requires forall t :: t in waiters ==>
        t in eventSet && t in eventInfo && eventSet[t] == want[t] && eventInfo[t] == opt[t]
      modifies this`bitset, this`eventSet, this`waiters, this`timers
      ensures whole == Sweep(old(bitset), old(waiters), want, opt)
      ensures bitset == whole.bitset && waiters == whole.keep && timers == old(timers) - whole.got.Keys
      ensures eventSet == old(eventSet) + whole.got
    {
      whole := Sweep(bitset, waiters, want, opt);
      var rest := waiters;   // from the node looked at to the end
      ghost var kept, got: map<nat, Bits> := [], map[];
      ghost var was := View(bitset, waiters, timers, eventSet);
      SweepBegins(whole, was, want, opt);
      while rest != []
        invariant Sweeping(whole, was, View(bitset, waiters, timers, eventSet), kept, got, rest, want, opt)
        decreases |rest|
      {
        assert rest[0] in rest && rest[0] in was.waiters;
        ghost var bits := bitset * want[rest[0]];
        var ok := Visit(rest[0], whole, was, kept, got, rest, want, opt);
        if ok {
          got := got[rest[0] := bits];
        } else {
          kept := kept + [rest[0]];
        }
        rest := rest[1..];
      }
      SweepEnds(whole, was, View(bitset, waiters, timers, eventSet), kept, got, want, opt);
    }

    /** rt_event_send: refused for no bits; otherwise the bits are set and offered around. */
    method SendSection(bits: Bits) returns (ok: bool)
      requires Valid()
      modifies this
      ensures Valid() && v == SendStep(old(v), bits) && (ok <==> bits != {})
    {
      if bits == {} {
        return false;
      }
      SendKeeps(v, bits);
      OfferFields(v, v.bitset + bits, eventSet, eventInfo, error);
      bitset := bitset + bits;
      ghost var was := v;
      assert forall t :: t in waiters ==> Waits(v, t, eventSet, eventInfo, error);
      ghost var _ := SweepList(v.want, v.opt);
      v := SendStep(was, bits);
      return true;
    }

    /** rt_event_recv up to its return or suspension. */
    method RecvSection(t: nat, want: Bits, opt: Opt, wait: Wait, prio: map<nat, nat>) returns (r: RecvResult)
      requires Valid() && Enabled(v, Recv(t, want, opt, wait, prio))
      modifies this
      ensures Valid() && v == RecvStep(old(v), t, want, opt, wait, prio) && r == RecvOutcome(old(v), want, opt, wait)
    {
      if want == {} {
        return Invalid;
      }
      RecvKeeps(v, t, want, opt, wait, prio);
      ghost var was, e := v, error;
      error := error[t := RT_EOK];
      var status := false;
      if opt.all {
        status := bitset * want == want;
      } else {
        status := bitset * want != {};
      }
      v := RecvStep(v, t, want, opt, wait, prio);
      if status {
        r := Received(bitset * want);
        if opt.clear {
          bitset := bitset - want;
        }
        OthersFields(was, v, t, RT_EOK, eventSet, eventInfo, e);
      } else if wait.NoWait? {
        error := error[t := RT_ETIMEOUT];
        assert error == e[t := RT_ETIMEOUT];
        r := Refused;
        OthersFields(was, v, t, RT_ETIMEOUT, eventSet, eventInfo, e);
      } else {
        BlockedFields(was, v, t, want, opt, eventSet, eventInfo, e);
        eventSet, eventInfo := eventSet[t := want], eventInfo[t := opt];
        waiters := Suspend(waiters, t, prio, flag);
        if wait.Ticks? {
          timers := timers + {t};
        }
        r := Blocked;
      }
    }

    /** rt_thread_timeout of a waiter, which is suspended when its timer fires. */
    method TimeoutSection(t: nat)
      requires Valid() && t in timers
      modifies this
      ensures Valid() && v == TimeoutStep(old(v), t)
      ensures t in old(waiters) && t !in waiters
    {
      TimeoutKeeps(v, t);
      error := error[t := RT_ETIMEOUT];
      waiters, timers := Without(waiters, t), timers - {t};
      v := TimeoutStep(v, t);
    }

    /** rt_event_control with RT_IPC_CMD_RESET. */
    method ResetSection()
      requires Valid()
      modifies this
      ensures Valid() && v == ResetStep(old(v))
    {
      ResetFields(v, eventSet, eventInfo, error);
      timers, error := ResumeAll(waiters, timers, error);
      waiters := [];
      bitset := {};
      v := ResetStep(v);
    }

    /** The return of a receive that had blocked, with the bits it was woken with. */
    method Resumed(t: nat) returns (code: int, bits: Bits)
      requires Valid() && t in v.resumed
      modifies this`v
      ensures Valid() && v == Spec.Next(old(v), Return(t))
      ensures old(v).resumed[t].Got? ==> code == RT_EOK && bits == old(v).resumed[t].bits
      ensures old(v).resumed[t].Failed? ==> code == old(v).resumed[t].code != RT_EOK
    {
      code := error[t];
      bits := {};
      if code == RT_EOK {
        bits := eventSet[t];
      }
      v := v.(resumed := v.resumed - {t});
    }
  }
}
