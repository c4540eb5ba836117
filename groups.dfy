/**
 * pandas `groupby(key)` over a sequence of readings: the groups come out in
 * ascending key order, one per distinct key value, each holding the rows with
 * that key.  `nunique()` is the number of distinct values of a column.
 */
module Groups {
  import opened Order
  import opened Readings

  /** `df[key]`: the column of `key` values, row by row. */
  function Column<K>(rows: seq<Reading>, key: Reading -> K): seq<K> {
    seq(|rows|, i requires 0 <= i < |rows| => key(rows[i]))
  }

  lemma ColumnOfFirstRow<K>(rows: seq<Reading>, key: Reading -> K)
    requires rows != []
    ensures Column(rows, key) == [key(rows[0])] + Column(rows[1..], key)
  {
  }

  lemma InColumn<K>(rows: seq<Reading>, key: Reading -> K, r: Reading)
    requires r in rows
    ensures key(r) in Column(rows, key)
  {
    var i :| 0 <= i < |rows| && rows[i] == r;
    assert Column(rows, key)[i] == key(r);
  }

  /** `set(df[key])`; its size is `nunique()`, never more than the number of rows. */
  function Unique<K(==,!new)>(rows: seq<Reading>, key: Reading -> K): (u: set<K>)
    ensures forall k :: k in u <==> k in Column(rows, key)
    ensures |u| <= |rows|
    ensures |u| == 0 <==> rows == []
  {
    if rows == [] then {}
    else
      var rest := Unique(rows[1..], key);
      ColumnOfFirstRow(rows, key);
      {key(rows[0])} + rest
  }

  /** The mask `df[key] == k`. */
  function KeyIs<K(==,!new)>(key: Reading -> K, k: K): Reading -> bool {
    r => key(r) == k
  }

  /** The group of key `k`: the rows whose key is `k`; it has rows exactly when `k` occurs in the column. */
  function Group<K(==,!new)>(rows: seq<Reading>, key: Reading -> K, k: K): (g: seq<Reading>)
    ensures forall r :: r in g <==> r in rows && key(r) == k
    ensures g != [] <==> k in Column(rows, key)
  {
    var g := Where(rows, KeyIs(key, k));
    assert k in Column(rows, key) ==> g != [] by {
      if k in Column(rows, key) {
        var i :| 0 <= i < |rows| && Column(rows, key)[i] == k;
        assert rows[i] in g;
      }
    }
    assert g != [] ==> k in Column(rows, key) by {
      if g != [] {
        assert g[0] in g;
        var i :| 0 <= i < |rows| && rows[i] == g[0];
        assert Column(rows, key)[i] == k;
      }
    }
    g
  }

  /** The group keys in the order `groupby` returns them: the distinct values of the column, ascending. */
  function Keys<K(==,!new)>(rows: seq<Reading>, key: Reading -> K, less: (K, K) -> bool): (ks: seq<K>)
    requires StrictTotal(less)
    ensures StrictlyAscending(ks, less)
    ensures forall k :: k in ks <==> k in Column(rows, key)
  {
    SortedDistinct(Column(rows, key), less)
  }

  /** The index column of a table. */
  function KeysOf<K, V>(t: seq<(K, V)>): seq<K> {
    seq(|t|, i requires 0 <= i < |t| => t[i].0)
  }

  /** `groupby(key)["peopleCount"].sum()` over the keys `ks`. */
  function Totals<K(==,!new)>(rows: seq<Reading>, key: Reading -> K, ks: seq<K>): (t: seq<(K, nat)>)
    ensures |t| == |ks| && KeysOf(t) == ks
    ensures forall i :: 0 <= i < |ks| ==> t[i] == (ks[i], SumPeople(Group(rows, key, ks[i])))
  {
    if ks == [] then []
    else [(ks[0], SumPeople(Group(rows, key, ks[0])))] + Totals(rows, key, ks[1..])
  }

  /** `groupby(key)["peopleCount"].mean()` over keys that all occur in the column. */
  function Means<K(==,!new)>(rows: seq<Reading>, key: Reading -> K, ks: seq<K>): (t: seq<(K, real)>)
    requires forall k :: k in ks ==> k in Column(rows, key)
    ensures |t| == |ks| && KeysOf(t) == ks
    ensures forall i :: 0 <= i < |ks| ==> t[i] == (ks[i], Mean(Group(rows, key, ks[i])))
  {
    if ks == [] then []
    else [(ks[0], Mean(Group(rows, key, ks[0])))] + Means(rows, key, ks[1..])
  }

  /** `groupby(key)["peopleCount"].max()` over keys that all occur in the column. */
  function Peaks<K(==,!new)>(rows: seq<Reading>, key: Reading -> K, ks: seq<K>): (t: seq<(K, nat)>)
    requires forall k :: k in ks ==> k in Column(rows, key)
    ensures |t| == |ks| && KeysOf(t) == ks
    ensures forall i :: 0 <= i < |ks| ==> t[i] == (ks[i], Peak(Group(rows, key, ks[i])))
  {
    if ks == [] then []
    else [(ks[0], Peak(Group(rows, key, ks[0])))] + Peaks(rows, key, ks[1..])
  }

  /** The sum of the second column of a table of totals. */
  function SumTotals<K>(t: seq<(K, nat)>): nat {
    if t == [] then 0 else t[0].1 + SumTotals(t[1..])
  }

  lemma {:induction false} TotalsOfNoRows<K(!new)>(key: Reading -> K, ks: seq<K>)
    ensures SumTotals(Totals([], key, ks)) == 0
  {
    if ks != [] {
      TotalsOfNoRows(key, ks[1..]);
    }
  }

  /** Peeling the first row off: it adds its count once, to the one group of its key. */
  lemma {:induction false} TotalsOfFirstRow<K(!new)>(rows: seq<Reading>, key: Reading -> K, ks: seq<K>)
    requires rows != [] && NoDuplicates(ks)
    ensures SumTotals(Totals(rows, key, ks))
         == (if key(rows[0]) in ks then rows[0].peopleCount else 0) + SumTotals(Totals(rows[1..], key, ks))
  {
    if ks != [] {
      var r := rows[0];
      var k := ks[0];
      assert NoDuplicates(ks[1..]);
      TotalsOfFirstRow(rows, key, ks[1..]);
      var here := if key(r) == k then [r] else [];
      assert Group(rows, key, k) == here + Group(rows[1..], key, k);
      SumPeopleAppend(here, Group(rows[1..], key, k));
      assert key(r) in ks <==> key(r) == k || key(r) in ks[1..];
      assert key(r) == k ==> key(r) !in ks[1..];
    }
  }

  /**
   * Group totals over keys that cover every row, each key once, add up to the
   * total people count of the rows.
   */
  lemma {:induction false} TotalsAddUp<K(!new)>(rows: seq<Reading>, key: Reading -> K, ks: seq<K>)
    requires NoDuplicates(ks)
    requires forall r :: r in rows ==> key(r) in ks
    ensures SumTotals(Totals(rows, key, ks)) == SumPeople(rows)
  {
    if rows == [] {
      TotalsOfNoRows(key, ks);
    } else {
      assert rows[0] in rows;
      assert forall r :: r in rows[1..] ==> r in rows;
      TotalsOfFirstRow(rows, key, ks);
      TotalsAddUp(rows[1..], key, ks);
    }
  }

  /** The same, for the keys `groupby` uses. */
  lemma KeyTotalsAddUp<K(!new)>(rows: seq<Reading>, key: Reading -> K, less: (K, K) -> bool)
    requires StrictTotal(less)
    ensures SumTotals(Totals(rows, key, Keys(rows, key, less))) == SumPeople(rows)
  {
    var ks := Keys(rows, key, less);
    AscendingHasNoDuplicates(ks, less);
    forall r | r in rows ensures key(r) in ks {
      var i :| 0 <= i < |rows| && rows[i] == r;
      assert Column(rows, key)[i] == key(r);
    }
    TotalsAddUp(rows, key, ks);
  }
}
