/**
  The intrusive doubly linked lists of rtservice.h on their `next` and `prev`
  fields. A list is a ring through its head; a node that is linked nowhere points
  to itself. Insertion and removal are proved to be what the other modules take
  them for: operations on sequences of nodes, with every other list untouched.
 */
module LinkedList {
  import opened NodeList

  /** From `from` the links lead through `nodes` to `to`, and back. */
  ghost predicate Path(next: seq<nat>, prev: seq<nat>, from: nat, nodes: seq<nat>, to: nat)
    decreases |nodes|
  {
    && from < |next|
    && (nodes == [] ==> to < |prev| && next[from] == to && prev[to] == from)
    && (nodes != [] ==>
          && nodes[0] < |prev| && next[from] == nodes[0] && prev[nodes[0]] == from
          && Path(next, prev, nodes[0], nodes[1..], to))
  }

  /** The ring through `head`, no node twice. */
  ghost predicate Ring(next: seq<nat>, prev: seq<nat>, head: nat, nodes: seq<nat>) {
    |next| == |prev| && Path(next, prev, head, nodes, head) && NoDup([head] + nodes)
  }

  /** The links of node `x` are the same. */
  ghost predicate SameLinks(next: seq<nat>, prev: seq<nat>, next': seq<nat>, prev': seq<nat>, x: nat) {
    |next'| == |next| && |prev'| == |prev| && (x < |next| && x < |prev| ==> next'[x] == next[x] && prev'[x] == prev[x])
  }

  lemma {:induction false} PathInside(next: seq<nat>, prev: seq<nat>, from: nat, nodes: seq<nat>, to: nat)
    requires Path(next, prev, from, nodes, to)
    ensures to < |prev| && forall x :: x in nodes ==> x < |next| && x < |prev|
    decreases |nodes|
  {
    if nodes != [] {
      PathInside(next, prev, nodes[0], nodes[1..], to);
      assert nodes == [nodes[0]] + nodes[1..];
    }
  }

  /** A path uses `next` of all its nodes but the last and `prev` of all but the first. */
  lemma {:induction false} PathFrame(next: seq<nat>, prev: seq<nat>, next': seq<nat>, prev': seq<nat>,
      from: nat, nodes: seq<nat>, to: nat)
    requires Path(next, prev, from, nodes, to) && |next'| == |next| && |prev'| == |prev|
    requires forall x :: (x == from || x in nodes) && x < |next| ==> next'[x] == next[x]
    requires forall x :: (x == to || x in nodes) && x < |prev| ==> prev'[x] == prev[x]
    ensures Path(next', prev', from, nodes, to)
    decreases |nodes|
  {
    if nodes != [] {
      assert nodes == [nodes[0]] + nodes[1..];
      PathFrame(next, prev, next', prev', nodes[0], nodes[1..], to);
    }
  }

  /** A path through `x` is a path to `x` and a path from there. */
  lemma {:induction false} PathSplit(next: seq<nat>, prev: seq<nat>, from: nat, a: seq<nat>, x: nat,
      b: seq<nat>, to: nat)
    ensures Path(next, prev, from, a + [x] + b, to) <==> Path(next, prev, from, a, x) && Path(next, prev, x, b, to)
    decreases |a|
  {
    var all := a + [x] + b;
    if a == [] {
      assert all[0] == x && all[1..] == b;
      assert Path(next, prev, x, b, to) ==> x < |next|;
    } else {
      assert all[0] == a[0] && all[1..] == a[1..] + [x] + b;
      PathSplit(next, prev, a[0], a[1..], x, b, to);
    }
  }

  /** The node before `b` and the node behind `a`, around the ring. */
  ghost function Before(head: nat, a: seq<nat>): nat {
    if a == [] then head else a[|a| - 1]
  }

  ghost function Behind(head: nat, b: seq<nat>): nat {
    if b == [] then head else b[0]
  }

  /** The place between `a` and `b` in a ring. */
  lemma PathAround(next: seq<nat>, prev: seq<nat>, head: nat, a: seq<nat>, b: seq<nat>)
    requires Path(next, prev, head, a + b, head)
    ensures var x, y := Before(head, a), Behind(head, b);
      && x < |next| && y < |prev| && next[x] == y && prev[y] == x
      && Path(next, prev, x, b, head) && (a != [] ==> Path(next, prev, head, a[..|a| - 1], x))
  {
    if a == [] {
      assert a + b == b;
    } else {
      var x := a[|a| - 1];
      assert a + b == a[..|a| - 1] + [x] + b;
      PathSplit(next, prev, head, a[..|a| - 1], x, b, head);
    }
  }

  lemma PathJoin(next: seq<nat>, prev: seq<nat>, head: nat, a: seq<nat>, b: seq<nat>)
    requires Path(next, prev, Before(head, a), b, head)
    requires a != [] ==> Path(next, prev, head, a[..|a| - 1], Before(head, a))
    ensures Path(next, prev, head, a + b, head)
  {
    if a == [] {
      assert a + b == b;
    } else {
      assert a + b == a[..|a| - 1] + [a[|a| - 1]] + b;
      PathSplit(next, prev, head, a[..|a| - 1], a[|a| - 1], b, head);
    }
  }

  /** The nodes around a place of a ring, none of them twice. */
  lemma RingApart(head: nat, a: seq<nat>, b: seq<nat>)
    requires NoDup([head] + (a + b))
    ensures NoDup(a) && NoDup(b) && head !in a && head !in b && (forall x :: x in a ==> x !in b)
    ensures a != [] ==> Before(head, a) !in a[..|a| - 1] && Before(head, a) in a
    ensures b != [] ==> Behind(head, b) !in b[1..] && Behind(head, b) in b
  {
    NoDupParts([head], a + b);
    NoDupParts(a, b);
    if a != [] {
      NoDupParts(a[..|a| - 1], [a[|a| - 1]]);
      assert a == a[..|a| - 1] + [a[|a| - 1]];
    }
  }

  // ---------------------------------------------------------------------- inserting

  /** What an insertion of `n` between the neighbours `x` and `y` writes. */
  ghost predicate Inserted(next: seq<nat>, prev: seq<nat>, next': seq<nat>, prev': seq<nat>, x: nat, y: nat, n: nat) {
    && x < |next| && y < |prev| && n < |next| && n < |prev|
    && next' == next[n := y][x := n] && prev' == prev[y := n][n := x]
  }

  /** The part of the ring from `x` on. */
  lemma InsertTail(next: seq<nat>, prev: seq<nat>, next': seq<nat>, prev': seq<nat>, x: nat, n: nat,
      b: seq<nat>, head: nat)
    requires Path(next, prev, x, b, head) && Inserted(next, prev, next', prev', x, Behind(head, b), n)
    requires n !in b && n != head && n != x && x !in b && NoDup(b) && head !in b
    ensures Path(next', prev', x, [n] + b, head)
  {
    assert ([n] + b)[1..] == b;
    if b != [] {
      PathFrame(next, prev, next', prev', b[0], b[1..], head);
      assert b[0] in b;
    }
  }

  lemma InsertOk(next: seq<nat>, prev: seq<nat>, next': seq<nat>, prev': seq<nat>, head: nat, a: seq<nat>,
      n: nat, b: seq<nat>)
    requires Ring(next, prev, head, a + b) && n !in [head] + (a + b)
    requires Inserted(next, prev, next', prev', Before(head, a), Behind(head, b), n)
    ensures Ring(next', prev', head, a + [n] + b)
  {
    var x := Before(head, a);
    PathAround(next, prev, head, a, b);
    RingApart(head, a, b);
    assert n !in a && n !in b && n != head;
    InsertTail(next, prev, next', prev', x, n, b, head);
    if a != [] {
      PathFrame(next, prev, next', prev', head, a[..|a| - 1], x);
    }
    PathJoin(next', prev', head, a, [n] + b);
    assert a + ([n] + b) == a + [n] + b;
    InsertNoDup(head, a, n, b);
  }

  lemma InsertNoDup(head: nat, a: seq<nat>, n: nat, b: seq<nat>)
    requires NoDup([head] + (a + b)) && n !in [head] + (a + b)
    ensures NoDup([head] + (a + [n] + b))
  {
    RingApart(head, a, b);
    assert n !in a && n !in b && n != head;
    assert a + [n] + b == a + ([n] + b);
    NoDupParts([n], b);
    NoDupParts(a, [n] + b);
    NoDupParts([head], a + ([n] + b));
  }

  // ----------------------------------------------------------------------- removing

  /** What a removal of `n` with the neighbours `x` and `y` writes. */
  ghost predicate Removed(next: seq<nat>, prev: seq<nat>, next': seq<nat>, prev': seq<nat>, x: nat, y: nat, n: nat) {
    && x < |next| && y < |prev| && n < |next| && n < |prev|
    && next' == next[x := y][n := n] && prev' == prev[y := x][n := n]
  }

  lemma RemoveOk(next: seq<nat>, prev: seq<nat>, next': seq<nat>, prev': seq<nat>, head: nat, a: seq<nat>,
      n: nat, b: seq<nat>)
    requires Ring(next, prev, head, a + [n] + b)
    requires Removed(next, prev, next', prev', Before(head, a), Behind(head, b), n)
    ensures Ring(next', prev', head, a + b)
  {
    assert a + [n] + b == a + ([n] + b);
    PathAround(next, prev, head, a, [n] + b);
    RemoveApart(head, a, n, b);
    RemoveTail(next, prev, next', prev', Before(head, a), n, b, head);
    if a != [] {
      PathFrame(next, prev, next', prev', head, a[..|a| - 1], Before(head, a));
    }
    PathJoin(next', prev', head, a, b);
  }

  /** The nodes around a listed one, none of them twice. */
  lemma RemoveApart(head: nat, a: seq<nat>, n: nat, b: seq<nat>)
    requires NoDup([head] + (a + ([n] + b)))
    ensures NoDup([head] + (a + b)) && NoDup(b) && head !in a && head !in b && n != head && n !in a && n !in b
    ensures Before(head, a) !in b && Before(head, a) != n && Behind(head, b) !in a && Behind(head, b) != n
    ensures a != [] ==> Before(head, a) !in a[..|a| - 1]
  {
    RingApart(head, a, [n] + b);
    assert n in [n] + b && ([n] + b)[1..] == b;
    assert forall x :: x in b ==> x in [n] + b;
    assert b != [] ==> b[0] in b;
    NoDupParts(a, b);
    NoDupParts([head], a + b);
  }

  lemma RemoveTail(next: seq<nat>, prev: seq<nat>, next': seq<nat>, prev': seq<nat>, x: nat, n: nat,
      b: seq<nat>, head: nat)
    requires Path(next, prev, x, [n] + b, head) && Removed(next, prev, next', prev', x, Behind(head, b), n)
    requires n !in b && n != head && n != x && x !in b && NoDup(b) && head !in b
    ensures Path(next', prev', x, b, head)
  {
    assert ([n] + b)[1..] == b;
    if b != [] {
      PathFrame(next, prev, next', prev', b[0], b[1..], head);
      assert b[0] in b;
    }
  }

  /** The neighbours of a listed node. */
  lemma Neighbours(next: seq<nat>, prev: seq<nat>, head: nat, a: seq<nat>, n: nat, b: seq<nat>)
    requires Ring(next, prev, head, a + [n] + b)
    ensures n < |next| && prev[n] == Before(head, a) && next[n] == Behind(head, b)
    ensures Before(head, a) < |next| && Behind(head, b) < |prev|
  {
    assert a + [n] + b == a + ([n] + b) == (a + [n]) + b;
    PathAround(next, prev, head, a, [n] + b);
    PathAround(next, prev, head, a + [n], b);
  }

  lemma AtHead(next: seq<nat>, prev: seq<nat>, from: nat, nodes: seq<nat>, head: nat)
    requires Path(next, prev, from, nodes, head) && head !in nodes
    ensures next[from] == head <==> nodes == []
  {
    if nodes != [] {
      assert nodes[0] in nodes;
    }
  }

  /** Another ring does not notice, since it has none of the nodes whose links are written. */
  lemma RingFrame(next: seq<nat>, prev: seq<nat>, next': seq<nat>, prev': seq<nat>, head: nat, nodes: seq<nat>)
    requires Ring(next, prev, head, nodes)
    requires |next'| == |next| && |prev'| == |prev|
    requires forall x :: x in [head] + nodes ==> SameLinks(next, prev, next', prev', x)
    ensures Ring(next', prev', head, nodes)
  {
    PathInside(next, prev, head, nodes, head);
    assert head in [head] + nodes;
    assert forall x :: x in nodes ==> x in [head] + nodes;
    PathFrame(next, prev, next', prev', head, nodes, head);
  }

  lemma WithoutMiddle(a: seq<nat>, n: nat, b: seq<nat>)
    requires NoDup(a + [n] + b)
    ensures Without(a + [n] + b, n) == a + b
  {
    assert a + [n] + b == a + ([n] + b);
    NoDupParts(a, [n] + b);
    assert n in [n] + b;
    WithoutAt(a, [n] + b);
    assert ([n] + b)[1..] == b;
  }

  /** The removed node is a ring of its own, and links of nodes that were not in the ring are as before. */
  lemma RemoveRest(next: seq<nat>, prev: seq<nat>, next': seq<nat>, prev': seq<nat>, head: nat, a: seq<nat>,
      n: nat, b: seq<nat>)
    requires |next| == |prev| && NoDup([head] + (a + [n] + b))
    requires Removed(next, prev, next', prev', Before(head, a), Behind(head, b), n)
    ensures Ring(next', prev', n, []) && Without(a + [n] + b, n) == a + b
    ensures forall x :: x !in [head] + (a + [n] + b) ==> SameLinks(next, prev, next', prev', x)
  {
    NoDupParts([head], a + [n] + b);
    WithoutMiddle(a, n, b);
    assert [n] + [] == [n] && [n][1..] == [];
    assert a != [] ==> Before(head, a) in a;
    assert b != [] ==> Behind(head, b) in b;
  }

  class Links {
    const next: array<nat>
    const prev: array<nat>

    /** The list with this head holds these nodes. */
    ghost predicate List(head: nat, nodes: seq<nat>)
      reads next, prev
    {
      next != prev && Ring(next[..], prev[..], head, nodes)
    }

    /** rt_list_init of every node: each is linked nowhere, and an empty list if it serves as a head. */
    constructor (count: nat)
      ensures next.Length == prev.Length == count
      ensures forall x: nat :: x < count ==> List(x, [])
    {
      next, prev := new nat[count](i => i), new nat[count](i => i);
      new;
      forall x: nat | x < count ensures List(x, []) {
        assert [x] + [] == [x] && [x][1..] == [];
      }
    }

    /** rt_list_insert_after: behind the head, or behind a listed node. */
    method InsertAfter(l: nat, n: nat, ghost head: nat, ghost a: seq<nat>, ghost b: seq<nat>)
      requires List(head, a + b) && l == Before(head, a) && n !in [head] + (a + b) && n < next.Length
      modifies next, prev
      ensures List(head, a + [n] + b)
      ensures forall x :: x !in [head, n] + (a + b) ==> SameLinks(old(next[..]), old(prev[..]), next[..], prev[..], x)
    {
      ghost var w, v := next[..], prev[..];
      PathAround(w, v, head, a, b);
      Listed(head, a, b);
      prev[next[l]] := n;
      next[n] := next[l];
      next[l] := n;
      prev[n] := l;
      InsertOk(w, v, next[..], prev[..], head, a, n, b);
    }

    /** rt_list_insert_before: in front of the head, which is the end of the list, or of a listed node. */
    method InsertBefore(l: nat, n: nat, ghost head: nat, ghost a: seq<nat>, ghost b: seq<nat>)
      requires List(head, a + b) && l == Behind(head, b) && n !in [head] + (a + b) && n < next.Length
      modifies next, prev
      ensures List(head, a + [n] + b)
      ensures forall x :: x !in [head, n] + (a + b) ==> SameLinks(old(next[..]), old(prev[..]), next[..], prev[..], x)
    {
      ghost var w, v := next[..], prev[..];
      PathAround(w, v, head, a, b);
      Listed(head, a, b);
      next[prev[l]] := n;
      prev[n] := prev[l];
      prev[l] := n;
      next[n] := l;
      InsertOk(w, v, next[..], prev[..], head, a, n, b);
    }

    lemma Listed(head: nat, a: seq<nat>, b: seq<nat>)
      ensures Before(head, a) in [head] + (a + b) && Behind(head, b) in [head] + (a + b)
    {
      assert a != [] ==> Before(head, a) in a;
      assert b != [] ==> Behind(head, b) in b;
    }

    /** rt_list_remove of a listed node: the others stay in order, and it is linked nowhere. */
    method Remove(n: nat, ghost head: nat, ghost a: seq<nat>, ghost b: seq<nat>)
      requires List(head, a + [n] + b)
      modifies next, prev
      ensures List(head, Without(a + [n] + b, n)) && List(n, [])
      ensures forall x :: x !in [head] + (a + [n] + b) ==>
        SameLinks(old(next[..]), old(prev[..]), next[..], prev[..], x)
    {
      ghost var w, v := next[..], prev[..];
      Neighbours(w, v, head, a, n, b);
      Unlink(n);
      RemoveOk(w, v, next[..], prev[..], head, a, n, b);
      RemoveRest(w, v, next[..], prev[..], head, a, n, b);
    }

    /** rt_list_remove of a node that is linked nowhere changes nothing. */
    method RemoveUnlinked(n: nat)
      requires List(n, [])
      modifies next, prev
      ensures next[..] == old(next[..]) && prev[..] == old(prev[..])
    {
      Unlink(n);
    }

    /** The body of rt_list_remove. */
    method Unlink(n: nat)
      requires n < next.Length && n < prev.Length && next[n] < prev.Length && prev[n] < next.Length
      modifies next, prev
      ensures Removed(old(next[..]), old(prev[..]), next[..], prev[..], old(prev[n]), old(next[n]), n)
    {
      prev[next[n]] := prev[n];
      next[prev[n]] := next[n];
      next[n], prev[n] := n, n;
    }

    /** rt_list_isempty */
    method IsEmpty(head: nat, ghost nodes: seq<nat>) returns (b: bool)
      requires List(head, nodes)
      ensures b <==> nodes == []
    {
      assert ([head] + nodes)[1..] == nodes;
      AtHead(next[..], prev[..], head, nodes, head);
      b := next[head] == head;
    }

    /** rt_list_len: the loop reaches the head again after as many steps as there are nodes. */
    method Length(head: nat, ghost nodes: seq<nat>) returns (len: nat)
      requires List(head, nodes)
      ensures len == |nodes|
    {
      len := 0;
      var p: nat := head;
      ghost var rest := nodes;
      assert ([head] + nodes)[1..] == nodes;
      while next[p] != head
        invariant len + |rest| == |nodes| && head !in rest && Path(next[..], prev[..], p, rest, head) && p < next.Length
        decreases |rest|
      {
        p := next[p];
        len := len + 1;
        rest := rest[1..];
      }
      AtHead(next[..], prev[..], p, rest, head);
    }
  }
}
