/**
  The rows of the timer skip list as values. Row 0 is the sparsest and the last
  row holds every listed timer. Each row is sorted by true deadline and start
  order, and each is contained in the row below it.
 */
module TimerRows {
  import opened TimerSpec
  import opened NodeList

  const TickSpan: nat := 0x1_0000_0000
  const HalfTick: nat := 0x7fff_ffff // RT_TICK_MAX / 2

  // ------------------------------------------------------------ wrapping ticks

  /** Subtraction of 32-bit unsigned ticks. */
  function TickSub(a: nat, b: nat): (r: nat)
    requires a < TickSpan && b < TickSpan
    ensures r < TickSpan && (r + b) % TickSpan == a
  {
    (a - b) % TickSpan
  }

  /**
    The test `(a - b) < RT_TICK_MAX / 2` on wrapped ticks, for true times less
    than a full turn apart: it decides `a >= b` exactly when the two lie within
    this window. Outside it the test is wrong.
   */
  lemma TickOrderIff(a: nat, b: nat)
    requires -(TickSpan as int) < a - b < TickSpan
    ensures TickSub(a % TickSpan, b % TickSpan) == (a - b) % TickSpan
    ensures (TickSub(a % TickSpan, b % TickSpan) < HalfTick <==> a >= b)
      <==> -(TickSpan - HalfTick) <= a - b < HalfTick
    ensures TickSub(a % TickSpan, b % TickSpan) == 0 <==> a == b
  {
    ModSub(a, b);
    if a >= b {
      assert (a - b) % TickSpan == a - b;
    } else {
      assert (a - b) % TickSpan == a - b + TickSpan;
    }
  }

  /** Half a turn ahead the test says the opposite of the truth, and from more than half a turn behind too. */
  lemma TickOrderFails()
    ensures TickSub(HalfTick, 0) >= HalfTick
    ensures TickSub(0, HalfTick + 3) < HalfTick
  {
    TickOrderIff(HalfTick, 0);
    TickOrderIff(0, HalfTick + 3);
  }

  lemma ModSub(a: nat, b: nat)
    ensures (a % TickSpan - b % TickSpan) % TickSpan == (a - b) % TickSpan
  {
    var q := a / TickSpan - b / TickSpan;
    assert a - b == (a % TickSpan - b % TickSpan) + q * TickSpan;
    ModShift(a % TickSpan - b % TickSpan, q);
  }

  lemma ModShift(x: int, q: int)
    ensures (x + q * TickSpan) % TickSpan == x % TickSpan
  {
  }

  // ----------------------------------------------------------------------- rows

  /** The abstract entry of a timer; `key` holds those that are listed. */
  ghost function At(key: map<nat, Entry>, id: nat): Entry {
    if id in key then key[id] else Entry(id, 0, 0)
  }

  ghost function Entries(row: seq<nat>, key: map<nat, Entry>): (r: seq<Entry>)
    ensures |r| == |row|
    ensures forall i :: 0 <= i < |row| ==> r[i] == At(key, row[i])
  {
    seq(|row|, i requires 0 <= i < |row| => At(key, row[i]))
  }

  ghost predicate RowSorted(row: seq<nat>, key: map<nat, Entry>) {
    forall i, j :: 0 <= i < j < |row| ==> Before(At(key, row[i]), At(key, row[j]))
  }

  ghost predicate Within(a: seq<nat>, b: seq<nat>) {
    forall x :: x in a ==> x in b
  }

  ghost predicate AllSorted(rows: seq<seq<nat>>, key: map<nat, Entry>) {
    forall r :: 0 <= r < |rows| ==> RowSorted(rows[r], key)
  }

  /** Each row is contained in every row below it. */
  ghost predicate Nested(rows: seq<seq<nat>>) {
    forall r, s :: 0 <= r <= s < |rows| ==> Within(rows[r], rows[s])
  }

  /** Sorted rows, each contained in the next, over exactly the listed timers. */
  ghost predicate RowsOk(rows: seq<seq<nat>>, key: map<nat, Entry>) {
    && rows != []
    && AllSorted(rows, key)
    && Nested(rows)
    && (forall id :: id in key <==> id in rows[|rows| - 1])
  }

  /** The listed entries are within reach of the wrapped tick. */
  ghost predicate KeysOk(key: map<nat, Entry>, now: nat, stamp: nat) {
    forall id :: id in key ==>
      && key[id].id == id && key[id].stamp < stamp
      && now <= key[id].due + 1 && key[id].due < now + HalfTick
  }

  /** `a` can be obtained from `b` by leaving elements out. */
  ghost predicate Subsequence(a: seq<nat>, b: seq<nat>) {
    a == [] || (b != [] && if a[0] == b[0] then Subsequence(a[1..], b[1..]) else Subsequence(a, b[1..]))
  }

  lemma {:induction false} SortedWithin(a: seq<nat>, b: seq<nat>, key: map<nat, Entry>)
    requires RowSorted(a, key) && RowSorted(b, key) && Within(a, b)
    ensures Subsequence(a, b)
    decreases |b|
  {
    if a != [] {
      assert a[0] in b;
      var x := b[0];
      if a[0] == x {
        forall y | y in a[1..] ensures y in b[1..] {
          assert y in a && y in b;
          assert y != x;
        }
        SortedWithin(a[1..], b[1..], key);
      } else {
        forall y | y in a ensures y in b[1..] {
          assert y in b;
          assert y != x; // else x lies behind a[0] in `a` but before it in `b`
        }
        SortedWithin(a, b[1..], key);
      }
    }
  }

  /** Every row is a subsequence of the row below. */
  lemma RowsAreSubsequences(rows: seq<seq<nat>>, key: map<nat, Entry>, r: nat)
    requires RowsOk(rows, key) && r + 1 < |rows|
    ensures Subsequence(rows[r], rows[r + 1])
  {
    assert Within(rows[r], rows[r + 1]);
    SortedWithin(rows[r], rows[r + 1], key);
  }

  /** The bottom row, as entries, is a flat sorted list. */
  ghost function Flat(rows: seq<seq<nat>>, key: map<nat, Entry>): (fl: seq<Entry>)
    requires rows != []
  {
    Entries(rows[|rows| - 1], key)
  }

  lemma FlatSorted(rows: seq<seq<nat>>, key: map<nat, Entry>)
    requires RowsOk(rows, key)
    ensures Sorted(Flat(rows, key))
  {
    var row, fl := rows[|rows| - 1], Flat(rows, key);
    assert RowSorted(row, key);
    forall i, j | 0 <= i < j < |fl| ensures Before(fl[i], fl[j]) {
      assert Before(At(key, row[i]), At(key, row[j]));
    }
  }

  // ------------------------------------------------------------------- removing

  lemma {:induction false} WithoutSorted(row: seq<nat>, id: nat, key: map<nat, Entry>)
    requires RowSorted(row, key)
    ensures RowSorted(Without(row, id), key - {id})
    decreases |row|
  {
    if row != [] {
      WithoutSorted(row[1..], id, key);
      var w := Without(row[1..], id);
      if row[0] != id {
        assert forall x :: x in w ==> At(key - {id}, x) == At(key, x);
        forall j | 0 <= j < |w| ensures Before(At(key - {id}, row[0]), At(key - {id}, w[j])) {
          assert w[j] in row[1..];
        }
      }
    }
  }

  lemma {:induction false} WithoutEntries(row: seq<nat>, id: nat, key: map<nat, Entry>)
    requires forall x :: x in row ==> At(key, x).id == x
    ensures Entries(Without(row, id), key - {id}) == Remove(Entries(row, key), id)
    decreases |row|
  {
    if row != [] {
      WithoutEntries(row[1..], id, key);
      assert row[0] in row;
      assert Entries(row, key)[1..] == Entries(row[1..], key);
      var w := Without(row[1..], id);
      if row[0] != id {
        assert Entries([row[0]] + w, key - {id}) == [At(key, row[0])] + Entries(w, key - {id});
      }
    }
  }

  lemma RemoveOk(rows: seq<seq<nat>>, key: map<nat, Entry>, id: nat, rows': seq<seq<nat>>)
    requires RowsOk(rows, key) && |rows'| == |rows|
    requires forall r :: 0 <= r < |rows| ==> rows'[r] == Without(rows[r], id)
    ensures RowsOk(rows', key - {id})
  {
    forall r | 0 <= r < |rows| ensures RowSorted(rows'[r], key - {id}) {
      WithoutSorted(rows[r], id, key);
    }
    forall r, s | 0 <= r <= s < |rows'| ensures Within(rows'[r], rows'[s]) {
      assert Within(rows[r], rows[s]);
    }
  }

  lemma RemoveFlat(rows: seq<seq<nat>>, key: map<nat, Entry>, now: nat, stamp: nat, id: nat, rows': seq<seq<nat>>)
    requires RowsOk(rows, key) && KeysOk(key, now, stamp) && |rows'| == |rows|
    requires forall r :: 0 <= r < |rows| ==> rows'[r] == Without(rows[r], id)
    ensures Flat(rows', key - {id}) == Remove(Flat(rows, key), id)
  {
    WithoutEntries(rows[|rows| - 1], id, key);
  }

  // ------------------------------------------------------------------ inserting

  /** `k` entries of the row are due no later than `due`, and the rest later. */
  ghost predicate Splits(row: seq<nat>, key: map<nat, Entry>, due: nat, k: nat) {
    && k <= |row|
    && (forall i :: 0 <= i < k ==> At(key, row[i]).due <= due)
    && (k < |row| ==> due < At(key, row[k]).due)
  }

  function Put(row: seq<nat>, k: nat, id: nat): seq<nat>
    requires k <= |row|
  {
    row[..k] + [id] + row[k..]
  }

  lemma PutSorted(row: seq<nat>, key: map<nat, Entry>, e: Entry, k: nat)
    requires RowSorted(row, key) && e.id !in key
    requires forall x :: x in row ==> x in key && key[x].stamp < e.stamp
    requires Splits(row, key, e.due, k)
    ensures RowSorted(Put(row, k, e.id), key[e.id := e])
    ensures RowSorted(row, key[e.id := e])
  {
    var key' := key[e.id := e];
    var p := Put(row, k, e.id);
    assert forall i :: 0 <= i < |row| ==> row[i] in row && At(key', row[i]) == At(key, row[i]);
    forall i | k <= i < |row| ensures Before(e, At(key, row[i])) {
      assert i > k ==> Before(At(key, row[k]), At(key, row[i]));
    }
    forall i, j | 0 <= i < j < |p| ensures Before(At(key', p[i]), At(key', p[j])) {
      assert p[i] == if i < k then row[i] else if i == k then e.id else row[i - 1];
      assert p[j] == if j < k then row[j] else if j == k then e.id else row[j - 1];
    }
  }

  ghost predicate Positions(rows: seq<seq<nat>>, pos: seq<nat>) {
    |pos| == |rows| && forall r :: 0 <= r < |rows| ==> pos[r] <= |rows[r]|
  }

  /** The timer goes into the rows from `top` down, at the positions found. */
  ghost predicate PutFrom(rows: seq<seq<nat>>, pos: seq<nat>, id: nat, top: nat, rows': seq<seq<nat>>) {
    && |rows| == |rows'| && top < |rows| && Positions(rows, pos)
    && (forall r :: 0 <= r < top ==> rows'[r] == rows[r])
    && (forall r :: top <= r < |rows| ==> rows'[r] == Put(rows[r], pos[r], id))
  }

  /** The timer enters the next row above. */
  lemma PutOneMore(rows: seq<seq<nat>>, pos: seq<nat>, id: nat, top: nat, rows': seq<seq<nat>>)
    requires PutFrom(rows, pos, id, top, rows') && top > 0
    ensures pos[top - 1] <= |rows'[top - 1]|
    ensures PutFrom(rows, pos, id, top - 1, rows'[top - 1 := Put(rows'[top - 1], pos[top - 1], id)])
  {
  }

  lemma PutHas(row: seq<nat>, k: nat, id: nat)
    requires k <= |row|
    ensures forall x :: x in Put(row, k, id) <==> x in row || x == id
  {
    assert row == row[..k] + row[k..];
  }

  ghost predicate SplitsAll(rows: seq<seq<nat>>, key: map<nat, Entry>, due: nat, pos: seq<nat>) {
    |pos| == |rows| && forall r :: 0 <= r < |rows| ==> Splits(rows[r], key, due, pos[r])
  }

  lemma SplitsBound(rows: seq<seq<nat>>, key: map<nat, Entry>, due: nat, pos: seq<nat>)
    requires SplitsAll(rows, key, due, pos)
    ensures Positions(rows, pos)
  {
    forall r | 0 <= r < |rows| ensures pos[r] <= |rows[r]| {
      assert Splits(rows[r], key, due, pos[r]);
    }
  }

  lemma InsertNested(rows: seq<seq<nat>>, pos: seq<nat>, id: nat, top: nat, rows': seq<seq<nat>>)
    requires PutFrom(rows, pos, id, top, rows') && Nested(rows)
    ensures Nested(rows')
  {
    forall r, s | 0 <= r <= s < |rows'| ensures Within(rows'[r], rows'[s]) {
      assert Within(rows[r], rows[s]);
      PutHas(rows[r], pos[r], id);
      PutHas(rows[s], pos[s], id);
    }
  }

  lemma InsertSorted(rows: seq<seq<nat>>, key: map<nat, Entry>, e: Entry, pos: seq<nat>, top: nat, rows': seq<seq<nat>>)
    requires PutFrom(rows, pos, e.id, top, rows') && RowsOk(rows, key) && e.id !in key
    requires forall x :: x in key ==> key[x].stamp < e.stamp
    requires SplitsAll(rows, key, e.due, pos)
    ensures AllSorted(rows', key[e.id := e])
  {
    forall r | 0 <= r < |rows'| ensures RowSorted(rows'[r], key[e.id := e]) {
      assert Within(rows[r], rows[|rows| - 1]);
      PutSorted(rows[r], key, e, pos[r]);
    }
  }

  lemma InsertOk(rows: seq<seq<nat>>, key: map<nat, Entry>, e: Entry, pos: seq<nat>, top: nat, rows': seq<seq<nat>>)
    requires RowsOk(rows, key) && e.id !in key
    requires forall x :: x in key ==> key[x].stamp < e.stamp
    requires PutFrom(rows, pos, e.id, top, rows')
    requires SplitsAll(rows, key, e.due, pos)
    ensures RowsOk(rows', key[e.id := e])
  {
    InsertSorted(rows, key, e, pos, top, rows');
    InsertNested(rows, pos, e.id, top, rows');
    PutHas(rows[|rows| - 1], pos[|rows| - 1], e.id);
  }

  lemma PutEntries(row: seq<nat>, key: map<nat, Entry>, e: Entry, k: nat)
    requires e.id !in row && Splits(row, key, e.due, k)
    ensures Entries(Put(row, k, e.id), key[e.id := e]) == Insert(Entries(row, key), e)
  {
    var fl, p := Entries(row, key), Put(row, k, e.id);
    var r, w := Entries(p, key[e.id := e]), fl[..k] + [e] + fl[k..];
    forall i | 0 <= i < |p| ensures r[i] == w[i] {
      assert p[i] == if i < k then row[i] else if i == k then e.id else row[i - 1];
    }
    InsertAt(fl, e, k);
  }

  lemma InsertFlat(rows: seq<seq<nat>>, key: map<nat, Entry>, e: Entry, k: nat, rows': seq<seq<nat>>)
    requires |rows'| == |rows| > 0 && e.id !in rows[|rows| - 1]
    requires Splits(rows[|rows| - 1], key, e.due, k) && rows'[|rows| - 1] == Put(rows[|rows| - 1], k, e.id)
    ensures Flat(rows', key[e.id := e]) == Insert(Flat(rows, key), e)
  {
    PutEntries(rows[|rows| - 1], key, e, k);
  }
}
