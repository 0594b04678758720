/**
  The message queue of ipc.c under every interleaving. A send takes a node from
  the free list, copies its bytes with interrupts enabled and links the node in
  a second critical section; a receive unlinks, copies with interrupts enabled
  and gives the node back. Each method below is one atomic step of one thread:
  a critical section, or the write or read of a single byte outside of them.
 */
module MessageQueue {
  import opened NodeList

  type Byte = b: int | 0 <= b < 256 witness 0
  type Message = seq<Byte>

  const NULL: int := -1

  // ------------------------------------------------- the queue as users see it

  /** What thread `t` is in the middle of. */
  datatype Job = Sending(buffer: Message, urgent: bool) | Receiving(message: Message, size: nat)

  /** The abstract queue: free nodes, queued messages, and jobs between their critical sections. */
  datatype Spec = Spec(free: nat, queue: seq<Message>, jobs: map<nat, Job>)

  /**
    Deque semantics: a node is reserved when a send starts, the message appears
    at the end (or in front, if urgent) when it is linked, and a receive takes
    the first message at once and returns the node when it has copied it.
   */
  datatype Step =
    | SendStart(t: nat, buffer: Message, urgent: bool)
    | SendFinish(t: nat)
    | RecvStart(t: nat, size: nat)
    | RecvFinish(t: nat)
    | ResetStep

  ghost predicate Enabled(s: Spec, step: Step) {
    match step
    case SendStart(t, _, _) => t !in s.jobs && s.free > 0
    case SendFinish(t) => t in s.jobs && s.jobs[t].Sending?
    case RecvStart(t, _) => t !in s.jobs && s.queue != []
    case RecvFinish(t) => t in s.jobs && s.jobs[t].Receiving?
    case ResetStep => true
  }

  ghost function Next(s: Spec, step: Step): Spec {
    if !Enabled(s, step) then s else
    match step
    case SendStart(t, buffer, urgent) => Spec(s.free - 1, s.queue, s.jobs[t := Sending(buffer, urgent)])
    case SendFinish(t) =>
      var m := s.jobs[t].buffer;
      Spec(s.free, if s.jobs[t].urgent then [m] + s.queue else s.queue + [m], s.jobs - {t})
    case RecvStart(t, size) => Spec(s.free, s.queue[1..], s.jobs[t := Receiving(s.queue[0], size)])
    case RecvFinish(t) => Spec(s.free + 1, s.queue, s.jobs - {t})
    case ResetStep => Spec(s.free + |s.queue|, [], s.jobs)
  }

  // -------------------------------------------------------- lists in the pool

  /** Following `next` from `from` visits `nodes` and ends at NULL. */
  ghost predicate Chain(next: seq<int>, from: int, nodes: seq<nat>)
    decreases |nodes|
  {
    if nodes == [] then from == NULL
    else from == nodes[0] && nodes[0] < |next| && Chain(next, next[nodes[0]], nodes[1..])
  }

  ghost function Last(nodes: seq<nat>): int {
    if nodes == [] then NULL else nodes[|nodes| - 1]
  }

  /** A chain does not notice writes to nodes outside it. */
  lemma {:induction false} ChainFrame(next: seq<int>, next': seq<int>, from: int, nodes: seq<nat>)
    requires Chain(next, from, nodes) && |next| == |next'|
    requires forall n :: n in nodes && n < |next| ==> next'[n] == next[n]
    ensures Chain(next', from, nodes)
    decreases |nodes|
  {
    if nodes != [] {
      ChainFrame(next, next', next[nodes[0]], nodes[1..]);
    }
  }

  lemma {:induction false} ChainInside(next: seq<int>, from: int, nodes: seq<nat>)
    requires Chain(next, from, nodes)
    ensures forall n :: n in nodes ==> n < |next|
    decreases |nodes|
  {
    if nodes != [] {
      ChainInside(next, next[nodes[0]], nodes[1..]);
      assert nodes == [nodes[0]] + nodes[1..];
    }
  }

  /** Linking a node behind the last one appends it to the chain. */
  lemma {:induction false} ChainAppend(next: seq<int>, from: int, nodes: seq<nat>, n: nat)
    requires Chain(next, from, nodes) && NoDup(nodes) && n !in nodes && n < |next| && next[n] == NULL
    ensures var last := Last(nodes);
      if last == NULL then Chain(next, n, [n])
      else last < |next| && Chain(next[last := n], from, nodes + [n])
    decreases |nodes|
  {
    if nodes != [] {
      ChainInside(next, from, nodes);
      var last := Last(nodes);
      var rest := nodes[1..];
      assert (nodes + [n])[1..] == rest + [n];
      if rest == [] {
        assert Chain(next[last := n], n, [n]);
      } else {
        assert Last(rest) == last;
        ChainAppend(next, next[nodes[0]], rest, n);
        assert nodes[0] != last;
      }
    }
  }

  // ------------------------------------------------------- the object in memory

  datatype Err = EOK | ERROR | EFULL | EMPTY

  /** Local variables of a running rt_mq_send, rt_mq_urgent or rt_mq_recv. */
  datatype Local =
    | SendLocal(node: nat, buffer: Message, urgent: bool, cleared: bool, done: nat)
    | RecvLocal(node: nat, size: nat, got: Message)

  /** Where a node is: in exactly one of these. */
  datatype Owner = InFree | InQueue | With(t: nat)

  /** The pool and the fields of struct rt_messagequeue. */
  datatype Mem = Mem(next: seq<int>, payload: seq<Message>, head: int, tail: int, free: int, entry: nat)

  /** What the links mean: the two lists, the owner of each node, the message sent through it. */
  datatype View = View(queue: seq<nat>, free: seq<nat>, owner: seq<Owner>, sent: map<nat, Message>)

  ghost predicate Lists(m: Mem, v: View) {
    && Chain(m.next, m.head, v.queue) && NoDup(v.queue) && m.tail == Last(v.queue) && m.entry == |v.queue|
    && Chain(m.next, m.free, v.free) && NoDup(v.free)
  }

  ghost predicate Owned(v: View, n: nat, o: Owner) {
    n < |v.owner| && v.owner[n] == o
  }

  /** Every node is in the free list, in the queue, or with one running call, and nowhere else. */
  ghost predicate Owners(locals: map<nat, Local>, v: View) {
    && (forall n: nat :: n in v.queue <==> Owned(v, n, InQueue))
    && (forall n: nat :: n in v.free <==> Owned(v, n, InFree))
    && (forall t :: t in locals ==> Owned(v, locals[t].node, With(t)))
    && (forall n: nat, t: nat :: Owned(v, n, With(t)) ==> t in locals && locals[t].node == n)
    && |v.free| + |v.queue| + |locals| == |v.owner|
  }

  /** Node `n` carries the message that was sent through it, then arbitrary bytes. */
  ghost predicate Holds(m: Mem, v: View, n: nat) {
    && n < |m.payload| && n in v.sent && |v.sent[n]| <= |m.payload[n]|
    && m.payload[n][..|v.sent[n]|] == v.sent[n]
  }

  ghost predicate LocalOk(m: Mem, v: View, l: Local) {
    && l.node < |m.payload| && l.node < |m.next|
    && match l
       case SendLocal(n, buffer, urgent, cleared, done) =>
         && done <= |buffer| <= |m.payload[n]| && m.payload[n][..done] == buffer[..done]
         && (cleared ==> m.next[n] == NULL)
       case RecvLocal(n, size, got) =>
         Holds(m, v, n) && |got| <= |m.payload[n]| && got == m.payload[n][..|got|]
  }

  ghost predicate Data(m: Mem, locals: map<nat, Local>, v: View) {
    && (forall n: nat :: n in v.queue ==> Holds(m, v, n))
    && (forall t :: t in locals ==> LocalOk(m, v, locals[t]))
  }

  ghost predicate Sizes(m: Mem, v: View, msgSize: nat) {
    && |m.next| == |m.payload| == |v.owner|
    && forall n :: 0 <= n < |m.payload| ==> |m.payload[n]| == msgSize
  }

  ghost predicate Inv(m: Mem, locals: map<nat, Local>, v: View, msgSize: nat) {
    Sizes(m, v, msgSize) && Lists(m, v) && Owners(locals, v) && Data(m, locals, v)
  }

  ghost function Contents(v: View, nodes: seq<nat>): seq<Message> {
    seq(|nodes|, i requires 0 <= i < |nodes| => if nodes[i] in v.sent then v.sent[nodes[i]] else [])
  }

  ghost function JobOf(v: View, l: Local): Job {
    match l
    case SendLocal(_, buffer, urgent, _, _) => Sending(buffer, urgent)
    case RecvLocal(n, size, _) => Receiving(if n in v.sent then v.sent[n] else [], size)
  }

  ghost function Abs(locals: map<nat, Local>, v: View): Spec {
    Spec(|v.free|, Contents(v, v.queue), map t | t in locals :: JobOf(v, locals[t]))
  }

  // ------------------------------------------------------------- step by step

  /** Only node `n` changes hands. */
  ghost predicate Moved(v: View, v': View, n: nat, o: Owner) {
    n < |v.owner| && v'.owner == v.owner[n := o]
  }

  lemma OwnedAfter(v: View, v': View, n: nat, o: Owner)
    requires Moved(v, v', n, o)
    ensures forall k: nat, p: Owner :: Owned(v', k, p) <==> if k == n then p == o else Owned(v, k, p)
  {
    forall k: nat, p: Owner
      ensures Owned(v', k, p) <==> if k == n then p == o else Owned(v, k, p)
    {}
  }

  /** Thread `t` takes node `l.node` off one of the lists. */
  lemma OwnersTake(locals: map<nat, Local>, v: View, t: nat, l: Local, v': View)
    requires Owners(locals, v) && t !in locals && Moved(v, v', l.node, With(t)) && !v.owner[l.node].With?
    requires forall n: nat :: n in v'.queue <==> n in v.queue && n != l.node
    requires forall n: nat :: n in v'.free <==> n in v.free && n != l.node
    requires |v'.free| + |v'.queue| + 1 == |v.free| + |v.queue|
    ensures Owners(locals[t := l], v')
  {
    OwnedAfter(v, v', l.node, With(t));
    forall n: nat, u: nat | Owned(v', n, With(u))
      ensures u in locals[t := l] && locals[t := l][u].node == n
    {
      assert n != l.node ==> Owned(v, n, With(u));
    }
  }

  /** Thread `t` puts its node onto one of the lists. */
  lemma OwnersGive(locals: map<nat, Local>, v: View, t: nat, v': View, o: Owner)
    requires Owners(locals, v) && t in locals && Moved(v, v', locals[t].node, o) && !o.With?
    requires forall n: nat :: n in v'.queue <==> n in v.queue || (n == locals[t].node && o == InQueue)
    requires forall n: nat :: n in v'.free <==> n in v.free || (n == locals[t].node && o == InFree)
    requires |v'.free| + |v'.queue| == |v.free| + |v.queue| + 1
    ensures Owners(locals - {t}, v')
  {
    var n0 := locals[t].node;
    OwnedAfter(v, v', n0, o);
    assert Owned(v, n0, With(t));
    forall u | u in locals - {t}
      ensures Owned(v', locals[u].node, With(u))
    {
      assert Owned(v, locals[u].node, With(u));
    }
    forall n: nat, u: nat | Owned(v', n, With(u))
      ensures u in locals - {t} && locals[u].node == n
    {
      assert Owned(v, n, With(u));
    }
    assert |locals - {t}| == |locals| - 1;
  }

  /** What is held stays held while the lists change around it. */
  lemma TakeData(m: Mem, locals: map<nat, Local>, v: View, t: nat, l: Local, m': Mem, v': View)
    requires Data(m, locals, v) && LocalOk(m, v, l)
    requires m'.next == m.next && m'.payload == m.payload && v'.sent == v.sent
    requires forall n: nat :: n in v'.queue ==> n in v.queue
    ensures Data(m', locals[t := l], v')
  {
    forall n: nat | n in v'.queue
      ensures Holds(m', v', n)
    {
      assert Holds(m, v, n);
    }
    forall u | u in locals
      ensures LocalOk(m', v', locals[u])
    {
      assert LocalOk(m, v, locals[u]);
    }
  }

  /** Reserving the first free node. */
  lemma SendBeginOk(m: Mem, locals: map<nat, Local>, v: View, msgSize: nat, t: nat, l: Local, v': View)
    requires Inv(m, locals, v, msgSize) && t !in locals && v.free != []
    requires l.SendLocal? && l.node == v.free[0] && |l.buffer| <= msgSize && !l.cleared && l.done == 0
    requires Moved(v, v', l.node, With(t)) && v' == v.(free := v.free[1..], owner := v'.owner)
    ensures m.free == l.node < |m.next| && Inv(m.(free := m.next[l.node]), locals[t := l], v', msgSize)
  {
    var m' := m.(free := m.next[l.node]);
    assert Owned(v, l.node, InFree) by { assert v.free[0] in v.free; }
    assert Owners(locals[t := l], v') by {
      HeadTail(v.free);
      OwnersTake(locals, v, t, l, v');
    }
    assert Lists(m', v') by { HeadTail(v.free); }
    TakeData(m, locals, v, t, l, m', v');
  }

  lemma SendBeginAbs(locals: map<nat, Local>, v: View, t: nat, l: Local, v': View)
    requires t !in locals && v.free != [] && l.SendLocal?
    requires v' == v.(free := v.free[1..], owner := v'.owner)
    ensures Abs(locals[t := l], v') == Next(Abs(locals, v), SendStart(t, l.buffer, l.urgent))
  {
    assert Contents(v', v'.queue) == Contents(v, v.queue);
  }

  /** Unlinking the first queued node. */
  lemma RecvBeginOk(m: Mem, locals: map<nat, Local>, v: View, msgSize: nat, t: nat, l: Local, m': Mem, v': View)
    requires Inv(m, locals, v, msgSize) && t !in locals && v.queue != []
    requires l.RecvLocal? && l.node == v.queue[0] && l.got == []
    requires Moved(v, v', l.node, With(t)) && v' == v.(queue := v.queue[1..], owner := v'.owner)
    requires l.node < |m.next| && m' == m.(head := m.next[l.node], entry := m.entry - 1,
                                           tail := if m.tail == l.node then NULL else m.tail)
    ensures Inv(m', locals[t := l], v', msgSize) && l.node in v.sent
  {
    assert Owned(v, l.node, InQueue) && Holds(m, v, l.node) by { assert v.queue[0] in v.queue; }
    assert Owners(locals[t := l], v') by {
      HeadTail(v.queue);
      OwnersTake(locals, v, t, l, v');
    }
    assert Lists(m', v') by { HeadTail(v.queue); }
    assert Data(m', locals[t := l], v') by {
      HeadTail(v.queue);
      TakeData(m, locals, v, t, l, m', v');
    }
  }

  lemma RecvBeginAbs(locals: map<nat, Local>, v: View, t: nat, l: Local, v': View)
    requires t !in locals && v.queue != [] && l.RecvLocal? && l.node == v.queue[0]
    requires v' == v.(queue := v.queue[1..], owner := v'.owner)
    ensures Abs(locals[t := l], v') == Next(Abs(locals, v), RecvStart(t, l.size))
  {
    assert Contents(v', v'.queue) == Contents(v, v.queue)[1..];
  }

  /** A write to the link of a node held by thread `t`. */
  lemma ClearOk(m: Mem, locals: map<nat, Local>, v: View, msgSize: nat, t: nat)
    requires Inv(m, locals, v, msgSize) && t in locals && locals[t].SendLocal?
    ensures var l := locals[t];
      var locals' := locals[t := l.(cleared := true)];
      && l.node < |m.next| && Inv(m.(next := m.next[l.node := NULL]), locals', v, msgSize)
      && Abs(locals', v) == Abs(locals, v)
  {
    var l := locals[t];
    var m' := m.(next := m.next[l.node := NULL]);
    var l' := l.(cleared := true);
    ClearData(m, locals, v, t, m', l');
    ClearLists(m, locals, v, l.node, t, m');
    SameOwners(locals, v, t, l');
    SameJobs(locals, v, t, l');
  }

  lemma ClearData(m: Mem, locals: map<nat, Local>, v: View, t: nat, m': Mem, l': Local)
    requires Owners(locals, v) && Data(m, locals, v) && t in locals && locals[t].SendLocal?
    requires locals[t].node < |m.next|
    requires m' == m.(next := m.next[locals[t].node := NULL]) && l' == locals[t].(cleared := true)
    ensures Data(m', locals[t := l'], v)
  {
    HeldDataFrame(m, m', locals, v, t);
    assert LocalOk(m, v, locals[t]);
    assert LocalOk(m', v, l');
  }

  /** A held node is in neither list, so writing its link changes neither. */
  lemma ClearLists(m: Mem, locals: map<nat, Local>, v: View, n: nat, t: nat, m': Mem)
    requires Owners(locals, v) && Lists(m, v) && t in locals && locals[t].node == n < |m.next|
    requires m' == m.(next := m.next[n := NULL])
    ensures Lists(m', v)
  {
    assert Owned(v, n, With(t));
    assert n !in v.queue && n !in v.free;
    ChainFrame(m.next, m'.next, m.head, v.queue);
    ChainFrame(m.next, m'.next, m.free, v.free);
  }

  /** The job of a thread does not depend on how far its copy is. */
  lemma SameJobs(locals: map<nat, Local>, v: View, t: nat, l': Local)
    requires t in locals && JobOf(v, l') == JobOf(v, locals[t])
    ensures Abs(locals[t := l'], v) == Abs(locals, v)
  {
    assert Abs(locals[t := l'], v).jobs == Abs(locals, v).jobs;
  }

  /** What other threads and the queue hold does not change when only node of thread `t` does. */
  lemma HeldDataFrame(m: Mem, m': Mem, locals: map<nat, Local>, v: View, t: nat)
    requires Owners(locals, v) && Data(m, locals, v) && t in locals
    requires |m'.next| == |m.next| && |m'.payload| == |m.payload|
    requires forall n :: 0 <= n < |m.next| && n != locals[t].node ==> m'.next[n] == m.next[n]
    requires forall n :: 0 <= n < |m.payload| && n != locals[t].node ==> m'.payload[n] == m.payload[n]
    ensures forall n: nat :: n in v.queue ==> Holds(m', v, n)
    ensures forall u :: u in locals && u != t ==> LocalOk(m', v, locals[u])
  {
    assert Owned(v, locals[t].node, With(t));
    forall n: nat | n in v.queue
      ensures Holds(m', v, n)
    {
      assert Owned(v, n, InQueue) && Holds(m, v, n);
    }
    forall u | u in locals && u != t
      ensures LocalOk(m', v, locals[u])
    {
      assert Owned(v, locals[u].node, With(u)) && LocalOk(m, v, locals[u]);
    }
  }

  /** One byte of a send: only the node of thread `t` is written. */
  lemma SendByteOk(m: Mem, locals: map<nat, Local>, v: View, msgSize: nat, t: nat, bytes: Message, m': Mem, l': Local)
    requires Inv(m, locals, v, msgSize) && t in locals && locals[t].SendLocal? && locals[t].done < |locals[t].buffer|
    requires locals[t].node < |m.payload| && locals[t].done < |m.payload[locals[t].node]|
    requires bytes == m.payload[locals[t].node][locals[t].done := locals[t].buffer[locals[t].done]]
    requires m' == m.(payload := m.payload[locals[t].node := bytes]) && l' == locals[t].(done := locals[t].done + 1)
    ensures Inv(m', locals[t := l'], v, msgSize) && Abs(locals[t := l'], v) == Abs(locals, v)
  {
    SendByteData(m, locals, v, t, bytes, m', l');
    SameOwners(locals, v, t, l');
    SameJobs(locals, v, t, l');
  }

  lemma SendByteData(m: Mem, locals: map<nat, Local>, v: View, t: nat, bytes: Message, m': Mem, l': Local)
    requires Owners(locals, v) && Data(m, locals, v) && t in locals
    requires locals[t].SendLocal? && locals[t].done < |locals[t].buffer|
    requires locals[t].node < |m.payload| && locals[t].done < |m.payload[locals[t].node]|
    requires bytes == m.payload[locals[t].node][locals[t].done := locals[t].buffer[locals[t].done]]
    requires m' == m.(payload := m.payload[locals[t].node := bytes]) && l' == locals[t].(done := locals[t].done + 1)
    ensures Data(m', locals[t := l'], v)
  {
    var l := locals[t];
    assert LocalOk(m, v, l);
    HeldDataFrame(m, m', locals, v, t);
    assert bytes[..l.done + 1] == bytes[..l.done] + [l.buffer[l.done]] == l.buffer[..l.done + 1];
  }

  lemma SameOwners(locals: map<nat, Local>, v: View, t: nat, l': Local)
    requires Owners(locals, v) && t in locals && l'.node == locals[t].node
    ensures Owners(locals[t := l'], v)
  {
    assert |locals[t := l']| == |locals| by {
      assert locals[t := l'].Keys == locals.Keys;
    }
  }

  /** One byte of a receive: nothing shared is written. */
  lemma RecvByteOk(m: Mem, locals: map<nat, Local>, v: View, msgSize: nat, t: nat)
    requires Inv(m, locals, v, msgSize) && t in locals && locals[t].RecvLocal? && |locals[t].got| < msgSize
    ensures var l := locals[t];
      && l.node < |m.payload| && |l.got| < |m.payload[l.node]|
      && (var locals' := locals[t := l.(got := l.got + [m.payload[l.node][|l.got|]])];
          Inv(m, locals', v, msgSize) && Abs(locals', v) == Abs(locals, v))
  {
    var l := locals[t];
    assert Owned(v, l.node, With(t)) && LocalOk(m, v, l);
    var l' := l.(got := l.got + [m.payload[l.node][|l.got|]]);
    assert l'.got == m.payload[l.node][..|l'.got|];
    assert LocalOk(m, v, l');
    HeldDataFrame(m, m, locals, v, t);
  }

  /** The message is sent when its node is linked. */
  ghost function Linked(v: View, l: Local, queue: seq<nat>): View
    requires l.SendLocal? && l.node < |v.owner|
  {
    v.(queue := queue, owner := v.owner[l.node := InQueue], sent := v.sent[l.node := l.buffer])
  }

  /** Linking the node of thread `t` at either end of the queue. */
  lemma LinkOk(m: Mem, locals: map<nat, Local>, v: View, msgSize: nat, t: nat, m': Mem, queue: seq<nat>)
    requires Inv(m, locals, v, msgSize) && t in locals && locals[t].SendLocal? && locals[t].done == |locals[t].buffer|
    requires locals[t].node < |v.owner|
    requires queue == if locals[t].urgent then [locals[t].node] + v.queue else v.queue + [locals[t].node]
    requires Relinked(m, m', v, locals[t].node, queue)
    ensures Inv(m'.(entry := m.entry + 1), locals - {t}, Linked(v, locals[t], queue), msgSize)
  {
    var l := locals[t];
    var v', m' := Linked(v, l, queue), m'.(entry := m.entry + 1);
    HeldElsewhere(locals, v, t);
    assert Lists(m', v') by {
      LinkLists(m, v, l, m', queue);
    }
    assert Owners(locals - {t}, v') by {
      QueueMembers(v.queue, l.node);
      OwnersGive(locals, v, t, v', InQueue);
    }
    assert Data(m', locals - {t}, v') by {
      QueueMembers(v.queue, l.node);
      LinkData(m, locals, v, t, m', v');
    }
    assert Sizes(m', v', msgSize);
  }

  lemma QueueMembers(queue: seq<nat>, n: nat)
    ensures forall k: nat :: k in [n] + queue <==> k in queue || k == n
    ensures forall k: nat :: k in queue + [n] <==> k in queue || k == n
  {}

  /** A held node is on no list, and no node is on both. */
  lemma HeldElsewhere(locals: map<nat, Local>, v: View, t: nat)
    requires Owners(locals, v) && t in locals
    ensures locals[t].node < |v.owner| && locals[t].node !in v.queue && locals[t].node !in v.free
    ensures forall n: nat :: n in v.free ==> n !in v.queue
  {
    assert Owned(v, locals[t].node, With(t));
    forall n: nat | n in v.free
      ensures n !in v.queue
    {
      assert Owned(v, n, InFree);
    }
  }

  lemma LinkLists(m: Mem, v: View, l: Local, m': Mem, queue: seq<nat>)
    requires Lists(m, v) && l.SendLocal? && l.node < |v.owner|
    requires l.node !in v.queue && l.node !in v.free && forall n: nat :: n in v.free ==> n !in v.queue
    requires queue == if l.urgent then [l.node] + v.queue else v.queue + [l.node]
    requires m'.free == m.free && |m'.next| == |m.next|
    requires Chain(m'.next, m'.head, queue) && m'.tail == Last(queue) && m'.entry == m.entry + 1
    requires forall n :: 0 <= n < |m.next| && n !in v.queue && n != l.node ==> m'.next[n] == m.next[n]
    ensures Lists(m', Linked(v, l, queue))
  {
    NoDupPush(v.queue, l.node);
    ChainFrame(m.next, m'.next, m.free, v.free);
  }

  lemma LinkData(m: Mem, locals: map<nat, Local>, v: View, t: nat, m': Mem, v': View)
    requires Owners(locals, v) && Data(m, locals, v)
    requires t in locals && locals[t].SendLocal? && locals[t].done == |locals[t].buffer| && locals[t].node < |v.owner|
    requires v' == Linked(v, locals[t], v'.queue)
    requires forall n: nat :: n in v'.queue ==> n in v.queue || n == locals[t].node
    requires m'.payload == m.payload && |m'.next| == |m.next|
    requires forall n :: 0 <= n < |m.next| && n !in v.queue && n != locals[t].node ==> m'.next[n] == m.next[n]
    ensures Data(m', locals - {t}, v')
  {
    var l := locals[t];
    assert Owned(v, l.node, With(t)) && LocalOk(m, v, l);
    forall n: nat | n in v'.queue
      ensures Holds(m', v', n)
    {
      if n != l.node {
        assert Holds(m, v, n);
      }
    }
    forall u | u in locals - {t}
      ensures LocalOk(m', v', locals[u])
    {
      assert Owned(v, locals[u].node, With(u)) && LocalOk(m, v, locals[u]);
      assert locals[u].node !in v.queue;
    }
  }

  lemma LinkContents(v: View, l: Local, queue: seq<nat>)
    requires l.SendLocal? && l.node < |v.owner| && l.node !in v.queue
    requires queue == if l.urgent then [l.node] + v.queue else v.queue + [l.node]
    ensures Contents(Linked(v, l, queue), queue)
      == if l.urgent then [l.buffer] + Contents(v, v.queue) else Contents(v, v.queue) + [l.buffer]
  {
    var q, r := Contents(v, v.queue), Contents(Linked(v, l, queue), queue);
    if l.urgent {
      assert r == [l.buffer] + q;
    } else {
      assert r == q + [l.buffer];
    }
  }

  lemma LinkJobs(locals: map<nat, Local>, v: View, t: nat, queue: seq<nat>)
    requires Owners(locals, v) && t in locals && locals[t].SendLocal? && locals[t].node < |v.owner|
    ensures Abs(locals - {t}, Linked(v, locals[t], queue)).jobs == Abs(locals, v).jobs - {t}
  {
    var l := locals[t];
    forall u | u in locals - {t}
      ensures JobOf(Linked(v, l, queue), locals[u]) == JobOf(v, locals[u])
    {
      assert Owned(v, locals[u].node, With(u)) && Owned(v, l.node, With(t));
    }
  }

  lemma LinkAbs(locals: map<nat, Local>, v: View, t: nat, queue: seq<nat>)
    requires Owners(locals, v) && t in locals && locals[t].SendLocal? && locals[t].node < |v.owner|
    requires locals[t].node !in v.queue
    requires queue == if locals[t].urgent then [locals[t].node] + v.queue else v.queue + [locals[t].node]
    ensures Abs(locals - {t}, Linked(v, locals[t], queue)) == Next(Abs(locals, v), SendFinish(t))
  {
    LinkContents(v, locals[t], queue);
    LinkJobs(locals, v, t, queue);
  }

  /** Thread `t` holds a node with its whole message in it. */
  ghost predicate CanLink(locals: map<nat, Local>, v: View, t: nat) {
    && t in locals && locals[t].SendLocal? && locals[t].done == |locals[t].buffer|
    && locals[t].node < |v.owner|
  }

  lemma LinkReady(m: Mem, locals: map<nat, Local>, v: View, t: nat)
    requires Owners(locals, v) && Data(m, locals, v) && t in locals && locals[t].SendLocal?
    ensures var l := locals[t];
      && l.node < |v.owner| && l.node < |m.next| && l.node !in v.queue
      && (l.cleared ==> m.next[l.node] == NULL)
  {
    HeldElsewhere(locals, v, t);
    assert LocalOk(m, v, locals[t]);
  }

  /** The memory after the link, with the message counted, stands for the next state. */
  lemma LinkDone(m: Mem, locals: map<nat, Local>, v: View, msgSize: nat, t: nat, m': Mem, queue: seq<nat>)
    requires Inv(m, locals, v, msgSize) && CanLink(locals, v, t)
    requires queue == if locals[t].urgent then [locals[t].node] + v.queue else v.queue + [locals[t].node]
    requires Relinked(m, m', v, locals[t].node, queue)
    ensures Inv(m'.(entry := m.entry + 1), locals - {t}, Linked(v, locals[t], queue), msgSize)
    ensures Abs(locals - {t}, Linked(v, locals[t], queue)) == Next(Abs(locals, v), SendFinish(t))
  {
    LinkOk(m, locals, v, msgSize, t, m', queue);
    HeldElsewhere(locals, v, t);
    LinkAbs(locals, v, t, queue);
  }

  /** What a receiver has copied so far is the message it took, as far as both reach. */
  lemma GotPrefix(m: Mem, locals: map<nat, Local>, v: View, t: nat)
    requires Owners(locals, v) && Data(m, locals, v) && t in locals && locals[t].RecvLocal?
    ensures var l := locals[t];
      && l.node < |v.owner| && l.node < |m.next| && JobOf(v, l).Receiving?
      && (var msg := JobOf(v, l).message; forall i :: 0 <= i < |msg| && i < |l.got| ==> l.got[i] == msg[i])
  {
    var l := locals[t];
    assert Owned(v, l.node, With(t)) && LocalOk(m, v, l);
    forall i | 0 <= i < |v.sent[l.node]| && i < |l.got|
      ensures l.got[i] == v.sent[l.node][i]
    {
      assert l.got[i] == m.payload[l.node][i] == m.payload[l.node][..|v.sent[l.node]|][i];
    }
  }

  /** Giving the node of a receive back to the free list. */
  lemma RecvEndOk(m: Mem, locals: map<nat, Local>, v: View, msgSize: nat, t: nat, m': Mem, v': View)
    requires Inv(m, locals, v, msgSize) && t in locals && locals[t].RecvLocal?
    requires locals[t].node < |m.next| && Moved(v, v', locals[t].node, InFree)
    requires v' == v.(free := [locals[t].node] + v.free, owner := v'.owner)
    requires m' == m.(next := m.next[locals[t].node := m.free], free := locals[t].node)
    ensures Inv(m', locals - {t}, v', msgSize)
  {
    var l := locals[t];
    HeldElsewhere(locals, v, t);
    assert Owners(locals - {t}, v') by {
      OwnersGive(locals, v, t, v', InFree);
    }
    assert Lists(m', v') by {
      NoDupPush(v.free, l.node);
      ChainFrame(m.next, m'.next, m.head, v.queue);
      ChainFrame(m.next, m'.next, m.free, v.free);
      assert v'.free[1..] == v.free;
    }
    assert Data(m', locals - {t}, v') by {
      HeldDataFrame(m, m', locals, v, t);
      assert forall n: nat :: Holds(m', v, n) ==> Holds(m', v', n);
      assert forall u :: u in locals && LocalOk(m', v, locals[u]) ==> LocalOk(m', v', locals[u]);
    }
  }

  lemma RecvEndAbs(locals: map<nat, Local>, v: View, t: nat, v': View)
    requires t in locals && locals[t].RecvLocal?
    requires v' == v.(free := [locals[t].node] + v.free, owner := v'.owner)
    ensures Abs(locals - {t}, v') == Next(Abs(locals, v), RecvFinish(t))
  {
    assert Contents(v', v'.queue) == Contents(v, v.queue);
    assert Abs(locals - {t}, v').jobs == Abs(locals, v).jobs - {t};
  }

  /** One round of the reset loop: the first queued node goes to the free list. */
  ghost function Dropped(m: Mem): Mem
    requires 0 <= m.head < |m.next| && m.entry > 0
  {
    m.(head := m.next[m.head], tail := if m.tail == m.head then NULL else m.tail,
       next := m.next[m.head := m.free], free := m.head, entry := m.entry - 1)
  }

  ghost function DroppedView(v: View): View
    requires v.queue != [] && v.queue[0] < |v.owner|
  {
    v.(queue := v.queue[1..], free := [v.queue[0]] + v.free, owner := v.owner[v.queue[0] := InFree])
  }

  lemma DropOk(m: Mem, locals: map<nat, Local>, v: View, msgSize: nat)
    requires Inv(m, locals, v, msgSize) && v.queue != []
    ensures m.head == v.queue[0] < |m.next| && v.queue[0] < |v.owner| && m.entry > 0
    ensures Inv(Dropped(m), locals, DroppedView(v), msgSize)
  {
    var n := v.queue[0];
    assert Owned(v, n, InQueue) by { assert n in v.queue; }
    var m', v' := Dropped(m), DroppedView(v);
    DropOwners(locals, v);
    assert Lists(m', v') by {
      HeadTail(v.queue);
      NoDupPush(v.free, n);
      ChainFrame(m.next, m'.next, m'.head, v'.queue);
      ChainFrame(m.next, m'.next, m.free, v.free);
      assert v'.free[1..] == v.free;
    }
    assert Data(m', locals, v') by {
      DropData(m, locals, v);
    }
  }

  lemma ResetAbs(locals: map<nat, Local>, v: View, v': View)
    requires v'.queue == [] && v'.sent == v.sent && |v'.free| == |v.free| + |v.queue|
    ensures Abs(locals, v') == Next(Abs(locals, v), ResetStep)
  {
    assert Contents(v', v'.queue) == [];
    assert Abs(locals, v').jobs == Abs(locals, v).jobs;
  }

  lemma DropOwners(locals: map<nat, Local>, v: View)
    requires Owners(locals, v) && v.queue != [] && Owned(v, v.queue[0], InQueue) && NoDup(v.queue)
    ensures Owners(locals, DroppedView(v)) && v.queue[0] !in v.free
  {
    var n, v' := v.queue[0], DroppedView(v);
    HeadTail(v.queue);
    OwnedAfter(v, v', n, InFree);
    forall k: nat, u: nat | Owned(v', k, With(u))
      ensures u in locals && locals[u].node == k
    {
      assert Owned(v, k, With(u));
    }
    forall u | u in locals
      ensures Owned(v', locals[u].node, With(u))
    {
      assert Owned(v, locals[u].node, With(u));
    }
  }

  lemma DropData(m: Mem, locals: map<nat, Local>, v: View)
    requires Owners(locals, v) && Data(m, locals, v) && v.queue != [] && Owned(v, v.queue[0], InQueue)
    requires m.head == v.queue[0] && m.head < |m.next| && m.entry > 0
    ensures Data(Dropped(m), locals, DroppedView(v))
  {
    var m', v' := Dropped(m), DroppedView(v);
    assert v.queue == [v.queue[0]] + v.queue[1..];
    forall n: nat | n in v'.queue
      ensures Holds(m', v', n)
    {
      assert n in v.queue && Holds(m, v, n);
    }
    forall u | u in locals
      ensures LocalOk(m', v', locals[u])
    {
      assert Owned(v, locals[u].node, With(u)) && LocalOk(m, v, locals[u]);
    }
  }

  /** The links of a queue with a node appended or pushed in front. */
  lemma LinkChain(m: Mem, v: View, n: nat, urgent: bool)
    requires Lists(m, v) && n < |m.next| && n !in v.queue && (urgent || m.next[n] == NULL)
    ensures urgent ==> Chain(m.next[n := m.head], n, [n] + v.queue)
    ensures Last([n] + v.queue) == (if m.tail == NULL then n as int else m.tail) && Last(v.queue + [n]) == n
    ensures !urgent && m.tail == NULL ==> m.head == NULL && Chain(m.next, n, v.queue + [n])
    ensures !urgent && m.tail != NULL ==>
      0 <= m.tail < |m.next| && m.tail in v.queue && m.head != NULL && Chain(m.next[m.tail := n], m.head, v.queue + [n])
  {
    if urgent {
      ChainInside(m.next, m.head, v.queue);
      ChainFrame(m.next, m.next[n := m.head], m.head, v.queue);
      assert ([n] + v.queue)[1..] == v.queue;
    } else {
      ChainAppend(m.next, m.head, v.queue, n);
      assert v.queue == [] ==> v.queue + [n] == [n];
    }
  }

  /** The queue is relinked as `queue`, with only links of queue nodes and of `n` written. */
  ghost predicate Relinked(m: Mem, m': Mem, v: View, n: nat, queue: seq<nat>) {
    && m'.payload == m.payload && m'.free == m.free && m'.entry == m.entry && |m'.next| == |m.next|
    && Chain(m'.next, m'.head, queue) && m'.tail == Last(queue)
    && forall k :: 0 <= k < |m.next| && k !in v.queue && k != n ==> m'.next[k] == m.next[k]
  }

  /** All nodes chained into the free list. */
  lemma AllFree(m: Mem, v: View, msgSize: nat)
    requires v == View([], v.free, seq(|m.next|, i => InFree), map[]) && NoDup(v.free) && |v.free| == |m.next|
    requires Chain(m.next, m.free, v.free) && m.head == NULL && m.tail == NULL && m.entry == 0
    requires forall n: nat :: n in v.free <==> n < |m.next|
    requires |m.payload| == |m.next| && forall n :: 0 <= n < |m.payload| ==> |m.payload[n]| == msgSize
    ensures Inv(m, map[], v, msgSize)
  {
    assert forall n: nat, o: Owner :: Owned(v, n, o) <==> n < |m.next| && o == InFree;
  }

  class Mq {
    const msgSize: nat
    const next: array<int>
    const payload: array<Message>
    var head: int                     // msg_queue_head
    var tail: int                     // msg_queue_tail
    var free: int                     // msg_queue_free
    var entry: nat
    var locals: map<nat, Local>       // the running calls, by thread
    ghost var view: View

    ghost function M(): Mem
      reads this, next, payload
    {
      Mem(next[..], payload[..], head, tail, free, entry)
    }

    ghost predicate Valid()
      reads this, next, payload
    {
      Inv(M(), locals, view, msgSize)
    }

    ghost function State(): Spec
      reads this
    {
      Abs(locals, view)
    }

    /** rt_mq_init on a pool of `max` nodes: chain them all into the free list. */
    constructor (max: nat, size: nat)
      ensures Valid() && State() == Spec(max, [], map[]) && msgSize == size
    {
      msgSize := size;
      var links := new int[max];
      var bytes := new Message[max](i => seq(size, j => 0));
      next, payload := links, bytes;
      head, tail, free, entry := NULL, NULL, NULL, 0;
      locals := map[];
      view := View([], [], [], map[]);
      new;
      var temp := 0;
      ghost var list: seq<nat> := [];
      while temp < max
        invariant head == NULL && tail == NULL && entry == 0 && locals == map[]
        invariant temp <= max && |list| == temp && NoDup(list) && Chain(next[..], free, list)
        invariant forall n: nat :: n in list <==> n < temp
        invariant forall n :: 0 <= n < max ==> |payload[n]| == size
      {
        ghost var w := next[..];
        NoDupPush(list, temp);
        next[temp] := free;
        ChainFrame(w, next[..], free, list);
        assert ([temp] + list)[1..] == list;
        free := temp;
        list := [temp] + list;
        temp := temp + 1;
      }
      view := View([], list, seq(max, i => InFree), map[]);
      AllFree(M(), view, size);
    }

    /** First critical section of rt_mq_send and rt_mq_urgent: reserve a node. */
    method SendBegin(t: nat, buffer: Message, urgent: bool) returns (r: Err)
      requires Valid() && t !in locals && buffer != []
      modifies this
      ensures Valid()
      ensures |buffer| > msgSize ==> r == ERROR && State() == old(State())
      ensures |buffer| <= msgSize && old(State()).free == 0 ==> r == EFULL && State() == old(State())
      ensures |buffer| <= msgSize && old(State()).free > 0 ==>
        r == EOK && State() == Next(old(State()), SendStart(t, buffer, urgent))
    {
      if |buffer| > msgSize {
        return ERROR;
      }
      var msg := free;
      if msg == NULL {
        return EFULL;
      }
      var l := SendLocal(msg, buffer, urgent, false, 0);
      assert Owned(view, msg, InFree) by { assert msg in view.free; }
      ghost var v := view.(free := view.free[1..], owner := view.owner[msg := With(t)]);
      SendBeginOk(M(), locals, view, msgSize, t, l, v);
      SendBeginAbs(locals, view, t, l, v);
      free := next[msg];
      locals := locals[t := l];
      view := v;
      return EOK;
    }

    /** rt_mq_send clears the link of its node, interrupts enabled. */
    method SendClear(t: nat)
      requires Valid() && t in locals && locals[t].SendLocal? && !locals[t].urgent
      modifies this`locals, next
      ensures Valid() && State() == old(State())
    {
      var l := locals[t];
      ghost var m := M();
      ClearOk(m, locals, view, msgSize, t);
      next[l.node] := NULL;
      locals := locals[t := l.(cleared := true)];
      assert M() == m.(next := m.next[l.node := NULL]);
    }

    /** One byte of rt_memcpy into the node, interrupts enabled. */
    method SendByte(t: nat)
      requires Valid() && t in locals && locals[t].SendLocal? && locals[t].done < |locals[t].buffer|
      modifies this`locals, payload
      ensures Valid() && State() == old(State())
    {
      var l := locals[t];
      ghost var m := M();
      assert LocalOk(m, view, l) && Owned(view, l.node, With(t));
      var bytes := payload[l.node][l.done := l.buffer[l.done]];
      payload[l.node] := bytes;
      assert payload[..] == m.payload[l.node := bytes];
      SendByteOk(m, locals, view, msgSize, t, bytes, M(), l.(done := l.done + 1));
      locals := locals[t := l.(done := l.done + 1)];
    }

    /** Link a cleared node behind the last one. */
    method LinkTail(msg: nat)
      requires Lists(M(), view) && msg < next.Length && msg !in view.queue && next[msg] == NULL
      modifies this`head, this`tail, next
      ensures Relinked(old(M()), M(), view, msg, view.queue + [msg])
    {
      ghost var m := M();
      LinkChain(m, view, msg, false);
      if tail != NULL {
        next[tail] := msg;
        assert next[..] == m.next[m.tail := msg];
      }
      tail := msg;
      if head == NULL {
        head := msg;
      }
    }

    /** Link a node in front of the first one. */
    method LinkHead(msg: nat)
      requires Lists(M(), view) && msg < next.Length && msg !in view.queue
      modifies this`head, this`tail, next
      ensures Relinked(old(M()), M(), view, msg, [msg] + view.queue)
    {
      ghost var m := M();
      LinkChain(m, view, msg, true);
      next[msg] := head;
      assert next[..] == m.next[msg := m.head];
      head := msg;
      if tail == NULL {
        tail := msg;
      }
    }

    /** Second critical section of rt_mq_send and rt_mq_urgent: link the node. */
    method SendLink(t: nat)
      requires Valid() && t in locals && locals[t].SendLocal?
      requires locals[t].done == |locals[t].buffer| && (locals[t].urgent || locals[t].cleared)
      modifies this, next
      ensures Valid() && State() == Next(old(State()), SendFinish(t))
    {
      ghost var m := M();
      LinkReady(m, locals, view, t);
      var msg, urgent := locals[t].node, locals[t].urgent;
      Link(msg, urgent);
      Count(t, m, if urgent then [msg] + view.queue else view.queue + [msg]);
    }

    method Link(msg: nat, urgent: bool)
      requires Lists(M(), view) && msg < next.Length && msg !in view.queue && (urgent || next[msg] == NULL)
      modifies this`head, this`tail, next
      ensures Relinked(old(M()), M(), view, msg, if urgent then [msg] + view.queue else view.queue + [msg])
    {
      if urgent {
        LinkHead(msg);
      } else {
        LinkTail(msg);
      }
    }

    /** The end of that section: the message is counted. */
    method Count(t: nat, ghost m: Mem, ghost queue: seq<nat>)
      requires Inv(m, locals, view, msgSize) && CanLink(locals, view, t)
      requires queue == if locals[t].urgent then [locals[t].node] + view.queue else view.queue + [locals[t].node]
      requires Relinked(m, M(), view, locals[t].node, queue)
      modifies this`entry, this`locals, this`view
      ensures Valid() && State() == Next(old(State()), SendFinish(t))
    {
      LinkDone(m, locals, view, msgSize, t, M(), queue);
      entry := entry + 1;
      Finish(t, Linked(view, locals[t], queue));
    }

    /** The critical section of rt_mq_recv that unlinks the first message, if there is one. */
    method RecvBegin(t: nat, size: nat) returns (r: Err)
      requires Valid() && t !in locals && size > 0
      modifies this
      ensures Valid()
      ensures old(State()).queue == [] ==> r == EMPTY && State() == old(State())
      ensures old(State()).queue != [] ==> r == EOK && State() == Next(old(State()), RecvStart(t, size))
    {
      if entry == 0 {
        return EMPTY;
      }
      var msg := head;
      var l := RecvLocal(msg, size, []);
      ghost var m := M();
      assert Owned(view, msg, InQueue) by { assert msg in view.queue; }
      ghost var v := view.(queue := view.queue[1..], owner := view.owner[msg := With(t)]);
      head := next[msg];
      if tail == msg {
        tail := NULL;
      }
      entry := entry - 1;
      RecvBeginOk(m, locals, view, msgSize, t, l, M(), v);
      RecvBeginAbs(locals, view, t, l, v);
      locals := locals[t := l];
      view := v;
      return EOK;
    }

    /** One byte of rt_memcpy out of the node, interrupts enabled. */
    method RecvByte(t: nat)
      requires Valid() && t in locals && locals[t].RecvLocal?
      requires |locals[t].got| < (if locals[t].size > msgSize then msgSize else locals[t].size)
      modifies this`locals
      ensures Valid() && State() == old(State())
    {
      var l := locals[t];
      RecvByteOk(M(), locals, view, msgSize, t);
      locals := locals[t := l.(got := l.got + [payload[l.node][|l.got|]])];
    }

    /**
      Last critical section of rt_mq_recv: give the node back. The buffer holds
      the bytes of the message that was taken, as far as both reach.
     */
    method RecvEnd(t: nat) returns (buffer: Message)
      requires Valid() && t in locals && locals[t].RecvLocal?
      requires |locals[t].got| == (if locals[t].size > msgSize then msgSize else locals[t].size)
      modifies this, next
      ensures Valid() && State() == Next(old(State()), RecvFinish(t))
      ensures t in old(State()).jobs && old(State()).jobs[t].Receiving?
      ensures var m := old(State()).jobs[t].message;
        forall i :: 0 <= i < |m| && i < |buffer| ==> buffer[i] == m[i]
      ensures |buffer| == if old(State()).jobs[t].size > msgSize then msgSize else old(State()).jobs[t].size
    {
      GotPrefix(M(), locals, view, t);
      buffer := locals[t].got;
      ReturnNode(t);
    }

    /** The critical section that puts the node back on the free list. */
    method ReturnNode(t: nat)
      requires Valid() && t in locals && locals[t].RecvLocal? && locals[t].node < |view.owner|
      requires locals[t].node < next.Length
      modifies this, next
      ensures Valid() && State() == Next(old(State()), RecvFinish(t))
    {
      var msg := locals[t].node;
      ghost var m := M();
      ghost var v := view.(free := [msg] + view.free, owner := view.owner[msg := InFree]);
      next[msg] := free;
      free := msg;
      assert M() == m.(next := m.next[msg := m.free], free := msg);
      RecvEndOk(m, locals, view, msgSize, t, M(), v);
      RecvEndAbs(locals, view, t, v);
      Finish(t, v);
    }

    method Finish(t: nat, ghost v: View)
      requires Inv(M(), locals - {t}, v, msgSize)
      modifies this`locals, this`view
      ensures Valid() && State() == Abs(old(locals) - {t}, v)
    {
      locals := locals - {t};
      view := v;
    }

    /** rt_mq_control with RT_IPC_CMD_RESET: all queued messages are dropped, running calls go on. */
    method Reset()
      requires Valid()
      modifies this, next
      ensures Valid() && State() == Next(old(State()), ResetStep)
    {
      ghost var v0 := view;
      ghost var left := entry;
      while head != NULL
        invariant left == |view.queue| && Inv(M().(entry := left), locals, view, msgSize)
        invariant locals == old(locals) && view.sent == v0.sent && |view.free| + left == |v0.free| + |v0.queue|
        decreases left
      {
        DropFirst(left);
        left := left - 1;
      }
      entry := 0;
      ResetAbs(locals, v0, view);
    }

    /** One round of the reset loop; `entry` is brought up to date only after it. */
    method DropFirst(ghost left: nat)
      requires Inv(M().(entry := left), locals, view, msgSize) && head != NULL
      modifies this`head, this`tail, this`free, this`view, next
      ensures left > 0 && Inv(M().(entry := left - 1), locals, view, msgSize)
      ensures old(view).queue != [] && old(view).queue[0] < |old(view).owner| && view == DroppedView(old(view))
    {
      ghost var m := M().(entry := left);
      DropOk(m, locals, view, msgSize);
      var msg := head;
      head := next[msg];
      if tail == msg {
        tail := NULL;
      }
      next[msg] := free;
      assert next[..] == m.next[msg := m.free];
      free := msg;
      view := DroppedView(view);
    }
  }

  // --------------------------------------------------------------- every run

  ghost function Exec(max: nat, steps: seq<Step>): Spec {
    if steps == [] then Spec(max, [], map[])
    else Next(Exec(max, steps[..|steps| - 1]), steps[|steps| - 1])
  }

  /** Every node of every run is free, queued, or with one running call. */
  lemma {:induction false} NodesConserved(max: nat, steps: seq<Step>)
    ensures var s := Exec(max, steps); s.free + |s.queue| + |s.jobs| == max
    decreases |steps|
  {
    if steps != [] {
      var s, step := Exec(max, steps[..|steps| - 1]), steps[|steps| - 1];
      NodesConserved(max, steps[..|steps| - 1]);
      if Enabled(s, step) && (step.SendFinish? || step.RecvFinish?) {
        assert |s.jobs - {step.t}| == |s.jobs| - 1;
      }
    }
  }

  /** Messages in the order in which they were linked, taken, and dropped by a reset. */
  ghost function LinkedBy(s: Spec, step: Step): seq<Message> {
    if step.SendFinish? && Enabled(s, step) then [s.jobs[step.t].buffer] else []
  }

  ghost function TakenBy(s: Spec, step: Step): seq<Message> {
    if step.RecvStart? && Enabled(s, step) then [s.queue[0]] else []
  }

  ghost function DroppedBy(s: Spec, step: Step): seq<Message> {
    if step.ResetStep? then s.queue else []
  }

  ghost function Log(max: nat, steps: seq<Step>, f: (Spec, Step) -> seq<Message>): seq<Message> {
    if steps == [] then []
    else
      var before := steps[..|steps| - 1];
      Log(max, before, f) + f(Exec(max, before), steps[|steps| - 1])
  }

  lemma StepBalance(s: Spec, step: Step)
    ensures multiset(s.queue) + multiset(LinkedBy(s, step))
         == multiset(TakenBy(s, step)) + multiset(DroppedBy(s, step)) + multiset(Next(s, step).queue)
  {
    if step.RecvStart? && Enabled(s, step) {
      assert s.queue == [s.queue[0]] + s.queue[1..];
    }
  }

  /** No message is lost, made up or duplicated: what was linked is taken, dropped, or still queued. */
  lemma {:induction false} NothingLost(max: nat, steps: seq<Step>)
    ensures multiset(Log(max, steps, LinkedBy))
         == multiset(Log(max, steps, TakenBy)) + multiset(Log(max, steps, DroppedBy)) + multiset(Exec(max, steps).queue)
    decreases |steps|
  {
    if steps != [] {
      var before, step := steps[..|steps| - 1], steps[|steps| - 1];
      var s := Exec(max, before);
      NothingLost(max, before);
      StepBalance(s, step);
      var linked, taken, dropped := Log(max, before, LinkedBy), Log(max, before, TakenBy), Log(max, before, DroppedBy);
      assert Log(max, steps, LinkedBy) == linked + LinkedBy(s, step);
      assert Log(max, steps, TakenBy) == taken + TakenBy(s, step);
      assert Log(max, steps, DroppedBy) == dropped + DroppedBy(s, step);
      Shuffle(multiset(linked), multiset(taken), multiset(dropped), multiset(s.queue), multiset(LinkedBy(s, step)),
              multiset(TakenBy(s, step)), multiset(DroppedBy(s, step)), multiset(Next(s, step).queue));
    }
  }

  lemma Shuffle(linked: multiset<Message>, taken: multiset<Message>, dropped: multiset<Message>,
      queue: multiset<Message>,
                l: multiset<Message>, t: multiset<Message>, d: multiset<Message>, q: multiset<Message>)
    requires linked == taken + dropped + queue && queue + l == t + d + q
    ensures linked + l == (taken + t) + (dropped + d) + q
  {
    forall x: Message
      ensures (linked + l)[x] == ((taken + t) + (dropped + d) + q)[x]
    {
      assert (queue + l)[x] == (t + d + q)[x];
    }
  }

  ghost predicate Plain(s: Spec) {
    forall t :: t in s.jobs && s.jobs[t].Sending? ==> !s.jobs[t].urgent
  }

  lemma PlainStep(s: Spec, step: Step)
    requires Plain(s) && !step.ResetStep? && !(step.SendStart? && step.urgent)
    ensures Plain(Next(s, step)) && s.queue + LinkedBy(s, step) == TakenBy(s, step) + Next(s, step).queue
  {
    if step.RecvStart? && Enabled(s, step) {
      assert s.queue == [s.queue[0]] + s.queue[1..];
    }
  }

  /** Without urgent sends and resets the queue is first in, first out. */
  lemma {:induction false} FirstInFirstOut(max: nat, steps: seq<Step>)
    requires forall step :: step in steps ==> !step.ResetStep? && !(step.SendStart? && step.urgent)
    ensures Log(max, steps, LinkedBy) == Log(max, steps, TakenBy) + Exec(max, steps).queue
    ensures Plain(Exec(max, steps))
    decreases |steps|
  {
    if steps != [] {
      var before, step := steps[..|steps| - 1], steps[|steps| - 1];
      var s := Exec(max, before);
      FirstInFirstOut(max, before);
      PlainStep(s, step);
      var taken := Log(max, before, TakenBy);
      assert taken + s.queue + LinkedBy(s, step) == taken + (s.queue + LinkedBy(s, step));
    }
  }

  /**
    What is sent is what is received: a message put into an empty queue, or an
    urgent one into any, is the one the next receive takes, and all nodes but the
    one in the receiver's hands are as free as before.
   */
  lemma SentIsReceived(s: Spec, t: nat, buffer: Message, urgent: bool, u: nat, size: nat)
    requires Enabled(s, SendStart(t, buffer, urgent)) && u !in s.jobs && u != t && (urgent || s.queue == [])
    ensures var sent := Next(Next(s, SendStart(t, buffer, urgent)), SendFinish(t));
      var r := Next(sent, RecvStart(u, size));
      && sent.queue == [buffer] + s.queue && t !in sent.jobs && sent.free == s.free - 1
      && u in r.jobs && r.jobs[u] == Receiving(buffer, size) && r.queue == s.queue
      && Next(r, RecvFinish(u)).free == s.free && u !in Next(r, RecvFinish(u)).jobs
  {
    assert s.queue == [] ==> s.queue + [buffer] == [buffer] + s.queue;
    assert ([buffer] + s.queue)[1..] == s.queue;
  }

  /** A send finds no node exactly if none is free, and then nothing changes. */
  lemma FullIff(s: Spec, t: nat, buffer: Message, urgent: bool)
    requires t !in s.jobs
    ensures Next(s, SendStart(t, buffer, urgent)) == s <==> s.free == 0
  {
    assert t in Next(s, SendStart(t, buffer, urgent)).jobs || s.free == 0;
  }
}
