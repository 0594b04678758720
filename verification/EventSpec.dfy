/**
  Event sets as a step system. Sending is specified as setting the bits and then
  letting every waiter, in list order, perform one non-blocking receive.
 */
module EventSpec {
  import opened NodeList
  import opened WaitList

  /** A 32-bit word as the set of the positions of its ones. */
  type Bits = set<nat>

  /** The option bits; `all` wins when both are given. */
  datatype Opt = Opt(all: bool, some: bool, clear: bool)

  datatype Woken = Got(bits: Bits) | Failed(code: int)

  datatype Event = Event(
    flag: Flag,
    bitset: Bits,
    waiters: seq<nat>,
    want: map<nat, Bits>,      // the bits each waiter asks for
    opt: map<nat, Opt>,        // and how
    timed: set<nat>,           // threads whose timer is running
    resumed: map<nat, Woken>)  // woken threads that have not returned yet

  datatype Step =
    | Send(bits: Bits)
    | Recv(t: nat, want: Bits, opt: Opt, wait: Wait, prio: map<nat, nat>)
    | Timeout(t: nat)
    | Reset
    | Return(t: nat)

  datatype RecvResult = Received(bits: Bits) | Invalid | Refused | Blocked

  // ------------------------------------------------------------------ receiving

  /** `(e & want) == want`, or `(e & want) != 0`. */
  function Satisfied(e: Bits, want: Bits, opt: Opt): bool {
    if opt.all then e * want == want else opt.some && e * want != {}
  }

  /** What is left of the set after a successful receive: `e & ~want` if it clears. */
  function Consume(e: Bits, want: Bits, opt: Opt): Bits {
    if opt.clear then e - want else e
  }

  /** Clearing bits cannot satisfy anybody. */
  lemma SatisfiedMonotone(a: Bits, b: Bits, want: Bits, opt: Opt)
    requires a <= b && Satisfied(a, want, opt)
    ensures Satisfied(b, want, opt)
  {
    if opt.all {
      assert want <= a;
    } else {
      var x :| x in a * want;
      assert x in b * want;
    }
  }

  // -------------------------------------------------------------------- sending

  /** The set, the waiters that remain, and what the others received. */
  datatype Swept = Swept(bitset: Bits, keep: seq<nat>, got: map<nat, Bits>)

  ghost predicate Asks(list: seq<nat>, want: map<nat, Bits>, opt: map<nat, Opt>) {
    forall t :: t in list ==> t in want && t in opt
  }

  /** Every thread of the list in turn performs a non-blocking receive. */
  ghost function Sweep(e: Bits, list: seq<nat>, want: map<nat, Bits>, opt: map<nat, Opt>): (r: Swept)
    requires Asks(list, want, opt)
    ensures forall t :: t in list <==> t in r.keep || t in r.got
    ensures r.bitset <= e
  {
    if list == [] then Swept(e, [], map[])
    else
      var t := list[0];
      if Satisfied(e, want[t], opt[t]) then
        var r := Sweep(Consume(e, want[t], opt[t]), list[1..], want, opt);
        Swept(r.bitset, r.keep, map[t := e * want[t]] + r.got)
      else
        var r := Sweep(e, list[1..], want, opt);
        Swept(r.bitset, [t] + r.keep, r.got)
  }

  ghost predicate NoneSatisfied(e: Bits, list: seq<nat>, want: map<nat, Bits>, opt: map<nat, Opt>) {
    forall t :: t in list ==> t in want && t in opt && !Satisfied(e, want[t], opt[t])
  }

  /** Nobody who stays behind is satisfied by what is left, although the sweep passed it only once. */
  lemma {:induction false} SweepSettles(e: Bits, list: seq<nat>, want: map<nat, Bits>, opt: map<nat, Opt>)
    requires Asks(list, want, opt)
    ensures var r := Sweep(e, list, want, opt); NoneSatisfied(r.bitset, r.keep, want, opt)
    decreases |list|
  {
    if list != [] {
      var t := list[0];
      if Satisfied(e, want[t], opt[t]) {
        SweepSettles(Consume(e, want[t], opt[t]), list[1..], want, opt);
      } else {
        SweepSettles(e, list[1..], want, opt);
        var r := Sweep(e, list[1..], want, opt);
        if Satisfied(r.bitset, want[t], opt[t]) {
          SatisfiedMonotone(r.bitset, e, want[t], opt[t]);
        }
      }
    }
  }

  /** So a second sweep would change nothing. */
  lemma {:induction false} SweepIdle(e: Bits, list: seq<nat>, want: map<nat, Bits>, opt: map<nat, Opt>)
    requires NoneSatisfied(e, list, want, opt)
    ensures Sweep(e, list, want, opt) == Swept(e, list, map[])
    decreases |list|
  {
    if list != [] {
      assert list[0] in list;
      SweepIdle(e, list[1..], want, opt);
    }
  }

  /** The waiters that remain keep their order, and nobody is swept twice. */
  lemma {:induction false} SweepNoDup(e: Bits, list: seq<nat>, want: map<nat, Bits>, opt: map<nat, Opt>)
    requires Asks(list, want, opt) && NoDup(list)
    ensures var r := Sweep(e, list, want, opt);
      NoDup(r.keep) && forall t :: t in r.keep ==> t !in r.got
    decreases |list|
  {
    if list != [] {
      var t := list[0];
      if Satisfied(e, want[t], opt[t]) {
        SweepNoDup(Consume(e, want[t], opt[t]), list[1..], want, opt);
      } else {
        SweepNoDup(e, list[1..], want, opt);
        var r := Sweep(e, list[1..], want, opt);
        assert ([t] + r.keep)[1..] == r.keep;
      }
    }
  }

  /** A woken waiter gets bits it asked for: all of them, or at least one. */
  lemma {:induction false} SweepGrants(e: Bits, list: seq<nat>, want: map<nat, Bits>, opt: map<nat, Opt>)
    requires Asks(list, want, opt) && NoDup(list)
    ensures forall t :: t in Sweep(e, list, want, opt).got ==>
      var got := Sweep(e, list, want, opt).got[t];
      if opt[t].all then got == want[t] else got != {} && got <= want[t]
    decreases |list|
  {
    if list != [] {
      var t := list[0];
      if Satisfied(e, want[t], opt[t]) {
        SweepGrants(Consume(e, want[t], opt[t]), list[1..], want, opt);
      } else {
        SweepGrants(e, list[1..], want, opt);
      }
    }
  }

  // ---------------------------------------------------------------- step system

  ghost function Wake(failed: map<nat, Woken>, got: map<nat, Bits>): map<nat, Woken> {
    failed + map t | t in got :: Got(got[t])
  }

  /** All waiters are offered the set `e`. */
  ghost function Offer(v: Event, e: Bits): Event {
    if !Asks(v.waiters, v.want, v.opt) then v
    else
      var r := Sweep(e, v.waiters, v.want, v.opt);
      v.(bitset := r.bitset, waiters := r.keep, timed := v.timed - r.got.Keys, resumed := Wake(v.resumed, r.got))
  }

  ghost function SendStep(v: Event, bits: Bits): Event {
    if bits == {} then v else Offer(v, v.bitset + bits)
  }

  ghost function RecvStep(v: Event, t: nat, want: Bits, opt: Opt, wait: Wait, prio: map<nat, nat>): Event {
    if want == {} then v
    else if Satisfied(v.bitset, want, opt) then v.(bitset := Consume(v.bitset, want, opt))
    else if wait.NoWait? then v
    else v.(waiters := Enqueue(v.waiters, t, prio, v.flag), want := v.want[t := want], opt := v.opt[t := opt],
         timed := if wait.Ticks? then v.timed + {t} else v.timed)
  }

  ghost function RecvOutcome(v: Event, want: Bits, opt: Opt, wait: Wait): RecvResult {
    if want == {} then Invalid
    else if Satisfied(v.bitset, want, opt) then Received(v.bitset * want)
    else if wait.NoWait? then Refused else Blocked
  }

  ghost function TimeoutStep(v: Event, t: nat): Event {
    v.(waiters := Without(v.waiters, t), timed := v.timed - {t}, resumed := v.resumed[t := Failed(RT_ETIMEOUT)])
  }

  ghost function ResetStep(v: Event): Event {
    v.(bitset := {}, waiters := [], timed := v.timed - Members(v.waiters),
    resumed := v.resumed + map t | t in v.waiters :: Failed(RT_ERROR))
  }

  ghost predicate Enabled(v: Event, step: Step) {
    match step
    case Send(_) => true
    case Recv(t, _, opt, _, _) => t !in v.waiters && t !in v.resumed && (opt.all || opt.some)
    case Timeout(t) => t in v.timed
    case Reset => true
    case Return(t) => t in v.resumed
  }

  ghost function Next(v: Event, step: Step): Event {
    if !Enabled(v, step) then v
    else match step
      case Send(bits) => SendStep(v, bits)
      case Recv(t, want, opt, wait, prio) => RecvStep(v, t, want, opt, wait, prio)
      case Timeout(t) => TimeoutStep(v, t)
      case Reset => ResetStep(v)
      case Return(t) => v.(resumed := v.resumed - {t})
  }

  ghost function Exec(v: Event, steps: seq<Step>): Event {
    if steps == [] then v else Next(Exec(v, steps[..|steps| - 1]), steps[|steps| - 1])
  }

  ghost function Init(flag: Flag): Event {
    Event(flag, {}, [], map[], map[], {}, map[])
  }

  ghost predicate Threads(v: Event) {
    && NoDup(v.waiters)
    && (forall t :: t in v.waiters ==> t !in v.resumed)
    && (forall t :: t in v.timed ==> t in v.waiters)
  }

  /** Threads are in one place, and no suspended waiter's condition holds. */
  ghost predicate Good(v: Event) {
    Threads(v) && NoneSatisfied(v.bitset, v.waiters, v.want, v.opt)
  }

  lemma OfferKeeps(v: Event, e: Bits)
    requires Threads(v) && Asks(v.waiters, v.want, v.opt)
    ensures Good(Offer(v, e))
  {
    SweepSettles(e, v.waiters, v.want, v.opt);
    SweepNoDup(e, v.waiters, v.want, v.opt);
  }

  lemma SendKeeps(v: Event, bits: Bits)
    requires Good(v)
    ensures Good(SendStep(v, bits))
  {
    if bits != {} {
      OfferKeeps(v, v.bitset + bits);
    }
  }

  lemma RecvKeeps(v: Event, t: nat, want: Bits, opt: Opt, wait: Wait, prio: map<nat, nat>)
    requires Good(v) && t !in v.waiters && t !in v.resumed
    ensures Good(RecvStep(v, t, want, opt, wait, prio))
  {
    if want != {} && Satisfied(v.bitset, want, opt) {
      var e := Consume(v.bitset, want, opt);
      forall u | u in v.waiters ensures !Satisfied(e, v.want[u], v.opt[u]) {
        if Satisfied(e, v.want[u], v.opt[u]) {
          SatisfiedMonotone(e, v.bitset, v.want[u], v.opt[u]);
        }
      }
    } else if want != {} && !wait.NoWait? {
      EnqueueNoDup(v.waiters, t, prio, v.flag);
    }
  }

  lemma TimeoutKeeps(v: Event, t: nat)
    requires Good(v) && t in v.timed
    ensures Good(TimeoutStep(v, t))
  {
    WithoutNoDup(v.waiters, t);
  }

  lemma StepKeepsGood(v: Event, step: Step)
    requires Good(v)
    ensures Good(Next(v, step))
  {
    if Enabled(v, step) {
      match step
      case Send(bits) => SendKeeps(v, bits);
      case Recv(t, want, opt, wait, prio) => RecvKeeps(v, t, want, opt, wait, prio);
      case Timeout(t) => TimeoutKeeps(v, t);
      case Reset =>
      case Return(_) =>
    }
  }

  /** In every reachable state, no suspended waiter's condition is satisfied by the event set. */
  lemma {:induction false} EveryRun(flag: Flag, steps: seq<Step>)
    ensures Good(Exec(Init(flag), steps))
    decreases |steps|
  {
    if steps != [] {
      EveryRun(flag, steps[..|steps| - 1]);
      StepKeepsGood(Exec(Init(flag), steps[..|steps| - 1]), steps[|steps| - 1]);
    }
  }

  // ------------------------------------------------------------ what each step does

  /** Bit by bit: with `all`, every bit asked for is set; otherwise at least one is. */
  lemma SatisfiedBits(e: Bits, want: Bits, opt: Opt)
    requires opt.all || opt.some
    ensures opt.all ==> (Satisfied(e, want, opt) <==> forall x :: x in want ==> x in e)
    ensures !opt.all ==> (Satisfied(e, want, opt) <==> exists x :: x in want && x in e)
  {
    if opt.all {
      assert Satisfied(e, want, opt) <==> want <= e;
    } else if x :| x in want && x in e {
      assert x in e * want;
    } else {
      assert e * want == {};
    }
  }

  /** The condition of a receive, bit by bit. */
  ghost predicate Ready(e: Bits, want: Bits, opt: Opt) {
    if opt.all then forall x :: x in want ==> x in e else exists x :: x in want && x in e
  }

  /**
    The answer of a receive says what has happened: a receiver whose condition
    holds gets the bits it asked for that are set, and clears all it asked for if
    it is to; else one that does not wait is refused and nothing changes; else it
    is suspended, with its timer running exactly if it waits for a time.
   */
  lemma RecvAnswers(v: Event, t: nat, want: Bits, opt: Opt, wait: Wait, prio: map<nat, nat>)
    requires Good(v) && Enabled(v, Recv(t, want, opt, wait, prio))
    ensures var r, o := RecvStep(v, t, want, opt, wait, prio), RecvOutcome(v, want, opt, wait);
      && (o.Invalid? <==> want == {}) && (o.Invalid? ==> r == v)
      && (o.Received? <==> want != {} && Ready(v.bitset, want, opt))
      && (o.Received? ==>
            && (forall x :: x in o.bits <==> x in want && x in v.bitset)
            && (forall x :: x in r.bitset <==> x in v.bitset && !(opt.clear && x in want))
            && r.waiters == v.waiters && r.timed == v.timed)
      && (o.Refused? <==> want != {} && !Ready(v.bitset, want, opt) && wait.NoWait?) && (o.Refused? ==> r == v)
      && (o.Blocked? ==>
            && Queues(v.waiters, t, prio, v.flag, r.waiters)
            && t in r.waiters && (t in r.timed <==> wait.Ticks?) && r.bitset == v.bitset
            && t in r.want && r.want[t] == want && t in r.opt && r.opt[t] == opt
            && (forall u :: u != t ==> (u in r.timed <==> u in v.timed) && (u in r.waiters <==> u in v.waiters)))
  {
    SatisfiedBits(v.bitset, want, opt);
    EnqueueQueues(v.waiters, t, prio, v.flag);
  }

  /** Sweeping one list and then another with what is left is sweeping both. */
  lemma {:induction false} SweepFrom(e: Bits, a: seq<nat>, b: seq<nat>, want: map<nat, Bits>, opt: map<nat, Opt>)
    requires Asks(a, want, opt) && Asks(b, want, opt) && Asks(a + b, want, opt)
    ensures Sweep(e, a + b, want, opt) == Joined(Sweep(e, a, want, opt), b, want, opt)
    decreases |a|
  {
    if a == [] {
      assert a + b == b;
      NothingSwept(Sweep(e, b, want, opt));
    } else {
      var t := a[0];
      assert (a + b)[0] == t && (a + b)[1..] == a[1..] + b;
      if Satisfied(e, want[t], opt[t]) {
        var on := Consume(e, want[t], opt[t]);
        SweepFrom(on, a[1..], b, want, opt);
        GotFirst(t, e * want[t], Sweep(on, a[1..], want, opt), b, want, opt);
      } else {
        SweepFrom(e, a[1..], b, want, opt);
        KeptFirst(t, Sweep(e, a[1..], want, opt), b, want, opt);
      }
    }
  }

  ghost function Joined(r: Swept, b: seq<nat>, want: map<nat, Bits>, opt: map<nat, Opt>): Swept
    requires Asks(b, want, opt)
  {
    var q := Sweep(r.bitset, b, want, opt);
    Swept(q.bitset, r.keep + q.keep, r.got + q.got)
  }

  lemma NothingSwept(s: Swept)
    ensures Swept(s.bitset, [] + s.keep, map[] + s.got) == s
  {
    assert [] + s.keep == s.keep && map[] + s.got == s.got;
  }

  lemma GotFirst(t: nat, bits: Bits, r: Swept, b: seq<nat>, want: map<nat, Bits>, opt: map<nat, Opt>)
    requires Asks(b, want, opt)
    ensures var j := Joined(r, b, want, opt);
      Swept(j.bitset, j.keep, map[t := bits] + j.got)
        == Joined(Swept(r.bitset, r.keep, map[t := bits] + r.got), b, want, opt)
  {
    var q := Sweep(r.bitset, b, want, opt);
    assert map[t := bits] + (r.got + q.got) == map[t := bits] + r.got + q.got;
  }

  lemma KeptFirst(t: nat, r: Swept, b: seq<nat>, want: map<nat, Bits>, opt: map<nat, Opt>)
    requires Asks(b, want, opt)
    ensures var j := Joined(r, b, want, opt);
      Swept(j.bitset, [t] + j.keep, j.got) == Joined(Swept(r.bitset, [t] + r.keep, r.got), b, want, opt)
  {
    var q := Sweep(r.bitset, b, want, opt);
    assert [t] + (r.keep + q.keep) == [t] + r.keep + q.keep;
  }

  /**
    The waiter at position `k` sees the bits that those before it have left. It is
    woken exactly if its condition holds of them, with those it asked for.
   */
  lemma SweepServes(e: Bits, list: seq<nat>, k: nat, want: map<nat, Bits>, opt: map<nat, Opt>)
    requires Asks(list, want, opt) && NoDup(list) && k < |list| && (opt[list[k]].all || opt[list[k]].some)
    ensures Asks(list[..k], want, opt)
    ensures var left, t, s := Sweep(e, list[..k], want, opt).bitset, list[k], Sweep(e, list, want, opt);
      && (t in s.got <==> Ready(left, want[t], opt[t]))
      && (t in s.got ==> forall x :: x in s.got[t] <==> x in want[t] && x in left)
  {
    var a, t, b := list[..k], list[k], list[k + 1..];
    assert list == a + ([t] + b) && ([t] + b)[1..] == b;
    NoDupParts(a, [t] + b);
    assert t in [t] + b && t !in b;
    SweepFrom(e, a, [t] + b, want, opt);
    SatisfiedBits(Sweep(e, a, want, opt).bitset, want[t], opt[t]);
  }

  /** Bit `x` was asked for by a woken receiver that clears. */
  ghost predicate Cleared(x: nat, got: map<nat, Bits>, want: map<nat, Bits>, opt: map<nat, Opt>) {
    exists t :: t in got && t in want && t in opt && opt[t].clear && x in want[t]
  }

  /** A bit is left exactly if it was set and has not been cleared. */
  lemma {:induction false} SweepLeaves(e: Bits, list: seq<nat>, want: map<nat, Bits>, opt: map<nat, Opt>, x: nat)
    requires Asks(list, want, opt)
    ensures var s := Sweep(e, list, want, opt);
      x in s.bitset <==> x in e && !Cleared(x, s.got, want, opt)
    decreases |list|
  {
    if list != [] {
      var t := list[0];
      if Satisfied(e, want[t], opt[t]) {
        var r := Sweep(Consume(e, want[t], opt[t]), list[1..], want, opt);
        SweepLeaves(Consume(e, want[t], opt[t]), list[1..], want, opt, x);
        ClearedMore(x, t, e * want[t], r.got, want, opt);
      } else {
        SweepLeaves(e, list[1..], want, opt, x);
      }
    }
  }

  lemma ClearedMore(x: nat, t: nat, bits: Bits, got: map<nat, Bits>, want: map<nat, Bits>, opt: map<nat, Opt>)
    requires t in want && t in opt
    ensures Cleared(x, map[t := bits] + got, want, opt)
      <==> Cleared(x, got, want, opt) || (opt[t].clear && x in want[t])
  {
    var more := map[t := bits] + got;
    assert t in more;
    if Cleared(x, got, want, opt) {
      var u :| u in got && u in want && u in opt && opt[u].clear && x in want[u];
      assert u in more;
    }
  }

  /**
    A send sets its bits. Afterwards a bit is set exactly if it was before or was
    sent, unless a receiver that was woken by it has cleared it.
   */
  lemma SendDoes(v: Event, bits: Bits) returns (got: map<nat, Bits>)
    requires Good(v)
    ensures var r := Next(v, Send(bits));
      && (bits == {} ==> r == v)
      && (bits != {} ==>
            && (forall t :: t in got <==> t in v.waiters && t !in r.waiters)
            && (forall t :: t in got ==> t in r.resumed && r.resumed[t] == Got(got[t]) && t !in r.timed)
            && (forall t :: t !in got ==> (t in r.timed <==> t in v.timed))
            && (forall x :: x in r.bitset <==> (x in v.bitset || x in bits) && !Cleared(x, got, v.want, v.opt)))
  {
    var e := v.bitset + bits;
    var s := Sweep(e, v.waiters, v.want, v.opt);
    got := s.got;
    if bits != {} {
      SweepNoDup(e, v.waiters, v.want, v.opt);
      forall x ensures x in s.bitset <==> x in e && !Cleared(x, s.got, v.want, v.opt) {
        SweepLeaves(e, v.waiters, v.want, v.opt, x);
      }
    }
  }

  /** A timeout ends just that receive, with the error for it. */
  lemma TimeoutDoes(v: Event, t: nat)
    requires Good(v) && t in v.timed
    ensures var r := Next(v, Timeout(t));
      && r.waiters == Without(v.waiters, t) && t !in r.timed && r.bitset == v.bitset
      && r.resumed == v.resumed[t := Failed(-2)]
  {
  }

  /** A reset clears the set and wakes every receiver with an error. */
  lemma ResetDoes(v: Event)
    requires Good(v)
    ensures var r := Next(v, Reset);
      && r.bitset == {} && r.waiters == [] && r.timed == {}
      && (forall t :: t in v.waiters ==> t in r.resumed && r.resumed[t] == Failed(-1))
      && (forall t :: t !in v.waiters ==> (t in r.resumed <==> t in v.resumed))
      && (forall t :: t in v.resumed ==> r.resumed[t] == v.resumed[t])
  {
  }

  /** A woken thread that returns can call again, and nothing else changes. */
  lemma ReturnDoes(v: Event, t: nat, want: Bits, opt: Opt, wait: Wait, prio: map<nat, nat>)
    requires Good(v) && t in v.resumed && (opt.all || opt.some)
    ensures var r := Next(v, Return(t));
      && Enabled(r, Recv(t, want, opt, wait, prio)) && r == v.(resumed := r.resumed)
      && (forall u :: u != t && u in v.resumed ==> u in r.resumed && r.resumed[u] == v.resumed[u])
  {
  }

  // ------------------------------------------------------------------- timed waits

  /** How long thread `t` was prepared to wait when it last called. */
  ghost function LastWait(init: Event, steps: seq<Step>, t: nat): Wait {
    if steps == [] then NoWait
    else
      var front, last := steps[..|steps| - 1], steps[|steps| - 1];
      if last.Recv? && last.t == t && Enabled(Exec(init, front), last) then last.wait else LastWait(init, front, t)
  }

  /** In every run a suspended thread can time out exactly if it waits for a time. */
  lemma {:induction false} TimedExactly(flag: Flag, steps: seq<Step>, t: nat)
    ensures var v := Exec(Init(flag), steps);
      t in v.waiters ==> (Enabled(v, Timeout(t)) <==> LastWait(Init(flag), steps, t).Ticks?)
    decreases |steps|
  {
    if steps != [] {
      var front, last := steps[..|steps| - 1], steps[|steps| - 1];
      TimedExactly(flag, front, t);
      EveryRun(flag, front);
      if t in Exec(Init(flag), steps).waiters {
        StepTimed(Exec(Init(flag), front), last, t);
      }
    }
  }

  /** A step other than its own receive leaves the timer of a thread that stays suspended alone. */
  lemma StepTimed(v: Event, step: Step, t: nat)
    requires Good(v) && t in Next(v, step).waiters
    ensures step.Recv? && step.t == t && Enabled(v, step) ==> (t in Next(v, step).timed <==> step.wait.Ticks?)
    ensures !(step.Recv? && step.t == t && Enabled(v, step)) ==>
      t in v.waiters && (t in Next(v, step).timed <==> t in v.timed)
  {
    if Enabled(v, step) {
      match step
      case Send(bits) =>
        if bits != {} {
          SweepNoDup(v.bitset + bits, v.waiters, v.want, v.opt);
        }
      case Recv(u, want, opt, wait, prio) => RecvAnswers(v, u, want, opt, wait, prio);
      case Timeout(_) =>
      case Reset =>
      case Return(_) =>
    }
  }
}
