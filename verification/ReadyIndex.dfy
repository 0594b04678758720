/**
  The two-level index of ready priorities: a 32-bit group word with one bit for
  every eight priorities, and a byte of the ready table for each group. The
  highest ready priority is found with two table look-ups.
 */
module ReadyIndex {

  // --------------------------------------------------------------- find first set

  /**
    __lowest_bit_bitmap. Its sixteen rows of sixteen are alike except for their
    first column.
   */
  function LowestBit(x: bv8): bv8 {
    var column := x & 0xf;
    if column == 0 then FirstColumn(x >> 4)
    else if column == 2 || column == 6 || column == 10 || column == 14 then 1
    else if column == 4 || column == 12 then 2
    else if column == 8 then 3
    else 0
  }

  function FirstColumn(row: bv8): bv8 {
    if row == 0 then 0
    else if row == 2 || row == 6 || row == 10 || row == 14 then 5
    else if row == 4 || row == 12 then 6
    else if row == 8 then 7
    else 4
  }

  /** __rt_ffs: bits are numbered from 1, and 0 means no bit. */
  function Ffs(v: bv32): bv8 {
    if v == 0 then 0
    else if v & 0xff != 0 then LowestBit((v & 0xff) as bv8) + 1
    else if v & 0xff00 != 0 then LowestBit(((v & 0xff00) >> 8) as bv8) + 9
    else if v & 0xff_0000 != 0 then LowestBit(((v & 0xff_0000) >> 16) as bv8) + 17
    else LowestBit(((v & 0xff00_0000) >> 24) as bv8) + 25
  }

  predicate Bit(w: bv32, i: bv8)
    requires i < 32
  {
    (w >> i) & 1 == 1
  }

  /** __rt_ffs gives the lowest bit that is set. */
  lemma FfsIsSet(v: bv32)
    requires v != 0
    ensures 0 < Ffs(v) <= 32 && Bit(v, Ffs(v) - 1)
  {
  }

  lemma FfsIsLowest(v: bv32, j: bv8)
    requires v != 0 && j < 32 && Bit(v, j)
    ensures Ffs(v) - 1 <= j
  {
  }

  lemma BitSet(w: bv32, i: bv8, j: bv8)
    requires i < 32 && j < 32
    ensures Bit(w | (1 << i), j) <==> Bit(w, j) || i == j
  {
  }

  lemma BitClear(w: bv32, i: bv8, j: bv8)
    requires i < 32 && j < 32
    ensures Bit(w & !(1 << i), j) <==> Bit(w, j) && i != j
  {
  }

  // ----------------------------------------------- words as sets of bit positions

  predicate Has(w: bv32, i: nat)
    requires i < 32
  {
    Bit(w, i as bv8)
  }

  /** `w |= 1 << i` */
  function Set(w: bv32, i: nat): bv32
    requires i < 32
  {
    w | (1 << (i as bv8))
  }

  /** `w &= ~(1 << i)` */
  function Clear(w: bv32, i: nat): bv32
    requires i < 32
  {
    w & !(1 << (i as bv8))
  }

  /** `__rt_ffs(w) - 1` */
  function First(w: bv32): (i: nat)
    requires w != 0
    ensures i < 32
  {
    FfsIsSet(w);
    (Ffs(w) - 1) as int
  }

  lemma SamePosition(i: nat, j: nat)
    requires i < 32 && j < 32
    ensures i as bv8 == j as bv8 <==> i == j
    ensures i as bv8 <= j as bv8 <==> i <= j
  {
    RoundTrip(i);
    RoundTrip(j);
  }

  lemma HasSet(w: bv32, i: nat, j: nat)
    requires i < 32 && j < 32
    ensures Has(Set(w, i), j) <==> Has(w, j) || i == j
  {
    SamePosition(i, j);
    BitSet(w, i as bv8, j as bv8);
  }

  lemma HasClear(w: bv32, i: nat, j: nat)
    requires i < 32 && j < 32
    ensures Has(Clear(w, i), j) <==> Has(w, j) && i != j
  {
    SamePosition(i, j);
    var a, b := i as bv8, j as bv8;
    BitClear(w, a, b);
    assert Has(Clear(w, i), j) == Bit(w & !(1 << a), b);
  }

  lemma HasFirst(w: bv32)
    requires w != 0
    ensures Has(w, First(w))
  {
    FfsIsSet(w);
    var i := Ffs(w) - 1;
    assert (i as int) as bv8 == i;
  }

  lemma FirstLeast(w: bv32, j: nat)
    requires j < 32 && Has(w, j)
    ensures w != 0 && First(w) <= j
  {
    FirstBelow(w, j as bv8);
    RoundTrip(j);
  }

  lemma FirstBelow(w: bv32, b: bv8)
    requires b < 32 && Bit(w, b)
    ensures w != 0 && First(w) <= b as int
  {
    NoBit(b);
    FfsIsLowest(w, b);
    SameOrder(Ffs(w) - 1, b);
  }

  lemma RoundTrip(j: nat)
    requires j < 32
    ensures (j as bv8) as int == j
  {
  }

  lemma SameOrder(a: bv8, b: bv8)
    requires a <= b
    ensures a as int <= b as int
  {
  }

  lemma NoBit(n: bv8)
    requires n < 32
    ensures !Bit(0, n)
  {
  }

  /** A word is zero exactly if it has no bit. */
  lemma ZeroIff(w: bv32)
    ensures w != 0 <==> exists i: nat :: i < 32 && Has(w, i)
  {
    if w != 0 {
      HasFirst(w);
    } else {
      forall i: nat | i < 32 ensures !Has(w, i) {
        NoBit(i as bv8);
      }
    }
  }

  // ------------------------------------------------------------------- two levels

  /** Byte `n` of the table holds the marked priorities from 8 * n on. */
  ghost predicate ByteOk(byte: bv32, n: nat, marked: set<nat>) {
    forall k: nat :: k < 32 ==> (Has(byte, k) <==> k < 8 && 8 * n + k in marked)
  }

  ghost predicate TableOk(table: seq<bv32>, marked: set<nat>) {
    |table| == 32 && forall n: nat :: n < 32 ==> ByteOk(table[n], n, marked)
  }

  /** The group word has a bit for each byte that is not zero. */
  ghost predicate GroupOk(group: bv32, table: seq<bv32>) {
    |table| == 32 && forall n: nat :: n < 32 ==> (Has(group, n) <==> table[n] != 0)
  }

  /** The index stands for the set of marked priorities. */
  ghost predicate Index(group: bv32, table: seq<bv32>, marked: set<nat>) {
    GroupOk(group, table) && TableOk(table, marked) && forall p :: p in marked ==> p < 256
  }

  lemma MarkByte(byte: bv32, n: nat, p: nat, marked: set<nat>)
    requires ByteOk(byte, n, marked)
    ensures ByteOk(if p / 8 == n then Set(byte, p % 8) else byte, n, marked + {p})
  {
    var b := if p / 8 == n then Set(byte, p % 8) else byte;
    forall k: nat | k < 32 ensures Has(b, k) <==> k < 8 && 8 * n + k in marked + {p} {
      HasSet(byte, p % 8, k);
    }
  }

  lemma MarkGroup(group: bv32, table: seq<bv32>, n: nat, byte: bv32)
    requires GroupOk(group, table) && n < 32 && byte != 0
    ensures GroupOk(Set(group, n), table[n := byte])
  {
    forall m: nat | m < 32 ensures Has(Set(group, n), m) <==> table[n := byte][m] != 0 {
      HasSet(group, n, m);
      assert Has(group, m) <==> table[m] != 0;
    }
  }

  lemma UnmarkByte(byte: bv32, n: nat, p: nat, marked: set<nat>)
    requires ByteOk(byte, n, marked)
    ensures ByteOk(if p / 8 == n then Clear(byte, p % 8) else byte, n, marked - {p})
  {
    var b := if p / 8 == n then Clear(byte, p % 8) else byte;
    forall k: nat | k < 32 ensures Has(b, k) <==> k < 8 && 8 * n + k in marked - {p} {
      HasClear(byte, p % 8, k);
    }
  }

  lemma UnmarkGroup(group: bv32, table: seq<bv32>, n: nat, byte: bv32)
    requires GroupOk(group, table) && n < 32 && (byte != 0 ==> table[n] != 0)
    ensures GroupOk(if byte == 0 then Clear(group, n) else group, table[n := byte])
  {
    var g := if byte == 0 then Clear(group, n) else group;
    forall m: nat | m < 32 ensures Has(g, m) <==> table[n := byte][m] != 0 {
      HasClear(group, n, m);
      assert Has(group, m) <==> table[m] != 0;
    }
  }

  /** The masks set by rt_schedule_insert_thread. */
  method Mark(group: bv32, table: seq<bv32>, p: nat, ghost marked: set<nat>) returns (group': bv32, table': seq<bv32>)
    requires Index(group, table, marked) && p < 256
    ensures Index(group', table', marked + {p})
  {
    var number := p / 8;
    var byte := Set(table[number], p % 8);
    table' := table[number := byte];
    group' := Set(group, number);
    HasSet(table[number], p % 8, p % 8);
    ZeroIff(byte);
    MarkGroup(group, table, number, byte);
    forall n: nat | n < 32 ensures ByteOk(table'[n], n, marked + {p}) {
      MarkByte(table[n], n, p, marked);
    }
  }

  /** The masks cleared by rt_schedule_remove_thread when a queue has become empty. */
  method Unmark(group: bv32, table: seq<bv32>, p: nat, ghost marked: set<nat>) returns (group': bv32, table': seq<bv32>)
    requires Index(group, table, marked) && p < 256
    ensures Index(group', table', marked - {p})
  {
    var number := p / 8;
    var byte := Clear(table[number], p % 8);
    table' := table[number := byte];
    group' := group;
    if table'[number] == 0 {
      group' := Clear(group, number);
    }
    ClearZero(table[number], p % 8);
    UnmarkGroup(group, table, number, byte);
    forall n: nat | n < 32 ensures ByteOk(table'[n], n, marked - {p}) {
      UnmarkByte(table[n], n, p, marked);
    }
  }

  lemma ClearZero(w: bv32, i: nat)
    requires i < 32
    ensures Clear(w, i) != 0 ==> w != 0
  {
    ZeroIff(w);
    ZeroIff(Clear(w, i));
    forall j: nat | j < 32 ensures Has(Clear(w, i), j) ==> Has(w, j) {
      HasClear(w, i, j);
    }
  }

  /** The bytes named by the group word are those that hold marks. */
  lemma GroupOfMark(group: bv32, table: seq<bv32>, marked: set<nat>, p: nat)
    requires Index(group, table, marked) && p in marked
    ensures p < 256 && Has(table[p / 8], p % 8) && Has(group, p / 8) && group != 0
  {
    assert ByteOk(table[p / 8], p / 8, marked) && 8 * (p / 8) + p % 8 == p;
    ZeroIff(table[p / 8]);
    ZeroIff(group);
  }

  /** _get_highest_priority_thread: the numerically least marked priority. */
  method Highest(group: bv32, table: seq<bv32>, ghost marked: set<nat>) returns (p: nat)
    requires Index(group, table, marked) && group != 0
    ensures p < 256 && p in marked && forall q :: q in marked ==> p <= q
  {
    var number := First(group);
    HasFirst(group);
    assert table[number] != 0;
    var place := First(table[number]);
    HasFirst(table[number]);
    assert ByteOk(table[number], number, marked);
    p := 8 * number + place;
    forall q | q in marked ensures p <= q {
      GroupOfMark(group, table, marked, q);
      FirstLeast(group, q / 8);
      FirstLeast(table[q / 8], q % 8);
    }
  }

  /** The group word is zero exactly when no priority is marked. */
  lemma EmptyIff(group: bv32, table: seq<bv32>, marked: set<nat>)
    requires Index(group, table, marked)
    ensures group == 0 <==> marked == {}
  {
    if group != 0 {
      var n := First(group);
      HasFirst(group);
      HasFirst(table[n]);
      assert ByteOk(table[n], n, marked);
    } else if marked != {} {
      var p :| p in marked;
      GroupOfMark(group, table, marked, p);
    }
  }

  lemma NothingMarked(table: seq<bv32>)
    requires |table| == 32 && forall n :: 0 <= n < 32 ==> table[n] == 0
    ensures Index(0, table, {})
  {
    ZeroIff(0);
  }
}
