/**
  The intrusive lists of rtservice.h as sequences of node names. A node that is
  linked nowhere points to itself, so removing it changes nothing.
 */
module NodeList {

  ghost predicate NoDup(list: seq<nat>) {
    list == [] || (list[0] !in list[1..] && NoDup(list[1..]))
  }

  /** `rt_list_remove`: unlinks a node if it is linked. */
  function Without(list: seq<nat>, t: nat): (r: seq<nat>)
    ensures forall x :: x in r <==> x in list && x != t
  {
    if list == [] then []
    else if list[0] == t then Without(list[1..], t)
    else [list[0]] + Without(list[1..], t)
  }

  lemma {:induction false} WithoutNoDup(list: seq<nat>, t: nat)
    requires NoDup(list)
    ensures NoDup(Without(list, t))
    decreases |list|
  {
    if list != [] {
      WithoutNoDup(list[1..], t);
      if list[0] != t {
        assert Without(list, t)[1..] == Without(list[1..], t);
      }
    }
  }

  lemma {:induction false} WithoutAbsent(list: seq<nat>, t: nat)
    requires t !in list
    ensures Without(list, t) == list
    decreases |list|
  {
    if list != [] {
      WithoutAbsent(list[1..], t);
    }
  }

  lemma HeadTail(list: seq<nat>)
    requires list != [] && NoDup(list)
    ensures NoDup(list[1..]) && forall t :: t in list <==> t == list[0] || t in list[1..]
    ensures list[0] !in list[1..]
  {
    assert list == [list[0]] + list[1..];
  }

  lemma {:induction false} NoDupPush(list: seq<nat>, n: nat)
    requires NoDup(list) && n !in list
    ensures NoDup([n] + list) && NoDup(list + [n])
    decreases |list|
  {
    assert ([n] + list)[1..] == list;
    if list != [] {
      NoDupPush(list[1..], n);
      assert (list + [n])[1..] == list[1..] + [n];
    } else {
      assert list + [n] == [n] && [n][1..] == [];
    }
  }

  lemma {:induction false} NoDupParts(a: seq<nat>, b: seq<nat>)
    ensures NoDup(a + b) <==> NoDup(a) && NoDup(b) && forall x :: x in a ==> x !in b
    decreases |a|
  {
    if a == [] {
      assert a + b == b;
    } else {
      assert (a + b)[1..] == a[1..] + b;
      NoDupParts(a[1..], b);
      assert a == [a[0]] + a[1..];
    }
  }

  ghost function Members(list: seq<nat>): set<nat> {
    set t | t in list
  }

  /** Removing at most one element. */
  lemma LessOne(s: set<nat>, t: nat)
    ensures |s - {t}| >= |s| - 1 && |s + {t}| == if t in s then |s| else |s| + 1
  {
    if t in s {
      assert s == (s - {t}) + {t};
    } else {
      assert s - {t} == s;
    }
  }

  lemma MembersMore(list: seq<nat>, k: nat)
    requires k < |list|
    ensures Members(list[..k + 1]) == Members(list[..k]) + {list[k]}
  {
    assert list[..k + 1] == list[..k] + [list[k]];
  }

  lemma WithoutHead(list: seq<nat>)
    requires list != [] && NoDup(list)
    ensures Without(list, list[0]) == list[1..]
  {
    WithoutAbsent(list[1..], list[0]);
  }

  lemma {:induction false} WithoutAt(kept: seq<nat>, rest: seq<nat>)
    requires rest != [] && rest[0] !in kept && NoDup(rest)
    ensures Without(kept + rest, rest[0]) == kept + rest[1..]
    decreases |kept|
  {
    if kept == [] {
      assert kept + rest == rest;
      WithoutHead(rest);
    } else {
      WithoutAt(kept[1..], rest);
      assert (kept + rest)[1..] == kept[1..] + rest;
    }
  }
}
