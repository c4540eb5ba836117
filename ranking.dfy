/**
 * The "top 5 desks" view: each desk's occupancy rate,
 * `peopleCount.sum() / capacity.sum() * 100` over its readings, and pandas'
 * `nlargest(5)` of those rates.  The desks come out of `groupby("name")` in
 * ascending name order and `nlargest` keeps the first of equal values at the
 * cut; the ranking here is a stable sort by descending rate, so equal rates
 * stay in name order.  When every desk fits, `nlargest` sorts without
 * stability and leaves the order of equal rates open; name order is one of
 * the orders it allows.
 */
module Ranking {
  import opened Order
  import opened Readings
  import opened Groups

  /** The number of desks the view shows. */
  const TopCount: nat := 5

  datatype DeskRate = DeskRate(name: string, rate: real)

  /** The occupancy rate of a non-empty group of readings, in percent. */
  function Rate(g: seq<Reading>): real
    requires g != []
  {
    (SumPeople(g) as real / SumCapacity(g) as real) * 100.0
  }

  /** Comparing two rates is comparing the integer cross products. */
  lemma RateOrderIsCrossMultiplication(g: seq<Reading>, h: seq<Reading>)
    requires g != [] && h != []
    ensures Rate(g) <= Rate(h) <==> SumPeople(g) * SumCapacity(h) <= SumPeople(h) * SumCapacity(g)
  {
    var p, c, q, d := SumPeople(g), SumCapacity(g), SumPeople(h), SumCapacity(h);
    CrossMultiply(p, c, q, d);
  }

  lemma CrossMultiply(p: nat, c: nat, q: nat, d: nat)
    requires c > 0 && d > 0
    ensures (p as real / c as real) * 100.0 <= (q as real / d as real) * 100.0 <==> p * d <= q * c
  {
    var x, y := p as real / c as real, q as real / d as real;
    assert x * c as real == p as real;
    assert y * d as real == q as real;
    assert (p * d) as real == p as real * d as real;
    assert (q * c) as real == q as real * c as real;
    assert x <= y <==> x * (c as real * d as real) <= y * (c as real * d as real);
    assert x * (c as real * d as real) == p as real * d as real;
    assert y * (c as real * d as real) == q as real * c as real;
  }

  /** The entry of desk `k`: its name and, when it has readings, its occupancy rate. */
  function RateOf(rows: seq<Reading>, k: string): (e: DeskRate)
    ensures e.name == k
    ensures Group(rows, DeskOf, k) != [] ==> e.rate == Rate(Group(rows, DeskOf, k))
  {
    var g := Group(rows, DeskOf, k);
    DeskRate(k, if g == [] then 0.0 else Rate(g))
  }

  /** The desk column of a table of rates. */
  function NamesOf(t: seq<DeskRate>): seq<string> {
    seq(|t|, i requires 0 <= i < |t| => t[i].name)
  }

  /** The rates of the desks `ks`, in the order of `ks`. */
  function Rates(rows: seq<Reading>, ks: seq<string>): (t: seq<DeskRate>)
    ensures NamesOf(t) == ks
    ensures forall i :: 0 <= i < |t| ==> t[i] == RateOf(rows, ks[i])
  {
    if ks == [] then []
    else
      var rest := Rates(rows, ks[1..]);
      var t := [RateOf(rows, ks[0])] + rest;
      assert NamesOf(t) == [ks[0]] + NamesOf(rest);
      t
  }

  /** Desk names strictly ascending: each desk once, in `groupby` order. */
  ghost predicate NamesAscending(s: seq<DeskRate>) {
    forall i, j :: 0 <= i < j < |s| ==> StringLess(s[i].name, s[j].name)
  }

  ghost predicate Descending(s: seq<DeskRate>) {
    forall i, j :: 0 <= i < j < |s| ==> s[i].rate >= s[j].rate
  }

  /** Among equal rates, names ascend. */
  ghost predicate TiesByName(s: seq<DeskRate>) {
    forall i, j :: 0 <= i < j < |s| && s[i].rate == s[j].rate ==> StringLess(s[i].name, s[j].name)
  }

  /**
   * `groupby("name").apply(rate)`: one entry per desk present, ascending by
   * name, each holding that desk's occupancy rate.
   */
  function DeskRates(rows: seq<Reading>): (t: seq<DeskRate>)
    ensures NamesAscending(t)
    ensures forall d :: d in NamesOf(t) <==> d in Column(rows, DeskOf)
    ensures forall i :: 0 <= i < |t| ==>
      Group(rows, DeskOf, t[i].name) != [] && t[i].rate == Rate(Group(rows, DeskOf, t[i].name))
  {
    StringLessIsStrictTotal();
    var ks := Keys(rows, DeskOf, StringLess);
    var t := Rates(rows, ks);
    assert forall i :: 0 <= i < |t| ==> t[i].name == NamesOf(t)[i] == ks[i] && ks[i] in ks;
    t
  }

  /** Places `x` before the first entry whose rate does not exceed its own. */
  function InsertByRate(x: DeskRate, s: seq<DeskRate>): (r: seq<DeskRate>)
    requires Descending(s)
    ensures Descending(r)
    ensures multiset(r) == multiset(s) + multiset{x}
    ensures |r| == |s| + 1
  {
    if s == [] || x.rate >= s[0].rate then
      [x] + s
    else
      var t := InsertByRate(x, s[1..]);
      BelowHead(x, s, t);
      assert s == [s[0]] + s[1..];
      [s[0]] + t
  }

  /** What is inserted after the head of a descending list rates at most the head. */
  lemma BelowHead(x: DeskRate, s: seq<DeskRate>, t: seq<DeskRate>)
    requires Descending(s) && s != [] && x.rate < s[0].rate
    requires multiset(t) == multiset(s[1..]) + multiset{x}
    ensures forall j :: 0 <= j < |t| ==> t[j].rate <= s[0].rate
  {
    forall j | 0 <= j < |t| ensures s[0].rate >= t[j].rate {
      assert t[j] in multiset(t);
      if t[j] != x {
        assert t[j] in s[1..];
        var m :| 0 <= m < |s[1..]| && s[1..][m] == t[j];
        assert s[m + 1] == t[j];
      }
    }
  }

  /** Stable sort by descending rate: a permutation, in descending order. */
  function RankByRate(s: seq<DeskRate>): (r: seq<DeskRate>)
    ensures Descending(r)
    ensures multiset(r) == multiset(s)
    ensures |r| == |s|
  {
    if s == [] then []
    else
      assert s == [s[0]] + s[1..];
      InsertByRate(s[0], RankByRate(s[1..]))
  }

  /** Putting `h` in front keeps ties in name order if `h`'s name precedes every entry it ties with. */
  lemma TiesAfterHead(h: DeskRate, t: seq<DeskRate>)
    requires TiesByName(t)
    requires forall y :: y in t && y.rate == h.rate ==> StringLess(h.name, y.name)
    ensures TiesByName([h] + t)
  {
    var r := [h] + t;
    forall i, j | 0 <= i < j < |r| && r[i].rate == r[j].rate
      ensures StringLess(r[i].name, r[j].name)
    {
      if i == 0 {
        assert r[j] == t[j - 1] && t[j - 1] in t;
      } else {
        assert r[i] == t[i - 1] && r[j] == t[j - 1];
      }
    }
  }

  lemma HeadTiesByName(s: seq<DeskRate>, y: DeskRate)
    requires TiesByName(s) && s != [] && y in s[1..] && y.rate == s[0].rate
    ensures StringLess(s[0].name, y.name)
  {
    var m :| 0 <= m < |s[1..]| && s[1..][m] == y;
    assert s[m + 1] == y;
  }

  lemma {:induction false} InsertKeepsTiesByName(x: DeskRate, s: seq<DeskRate>)
    requires Descending(s) && TiesByName(s)
    requires forall y :: y in s ==> StringLess(x.name, y.name)
    ensures TiesByName(InsertByRate(x, s))
  {
    if s == [] || x.rate >= s[0].rate {
      TiesAfterHead(x, s);
    } else {
      assert forall y :: y in s[1..] ==> y in s;
      assert TiesByName(s[1..]) by {
        forall i, j | 0 <= i < j < |s[1..]| && s[1..][i].rate == s[1..][j].rate
          ensures StringLess(s[1..][i].name, s[1..][j].name)
        {
          assert s[1..][i] == s[i + 1] && s[1..][j] == s[j + 1];
        }
      }
      InsertKeepsTiesByName(x, s[1..]);
      var t := InsertByRate(x, s[1..]);
      forall y | y in t && y.rate == s[0].rate ensures StringLess(s[0].name, y.name) {
        assert y in multiset(t);
        assert y == x || y in multiset(s[1..]);
        HeadTiesByName(s, y);
      }
      TiesAfterHead(s[0], t);
    }
  }

  /** Ranking entries that arrive in name order leaves equal rates in name order. */
  lemma {:induction false} RankKeepsTiesByName(s: seq<DeskRate>)
    requires NamesAscending(s)
    ensures TiesByName(RankByRate(s))
  {
    if s != [] {
      assert NamesAscending(s[1..]);
      RankKeepsTiesByName(s[1..]);
      var t := RankByRate(s[1..]);
      forall y | y in t ensures StringLess(s[0].name, y.name) {
        assert y in multiset(s[1..]);
        var m :| 0 <= m < |s[1..]| && s[1..][m] == y;
        assert s[m + 1] == y;
      }
      InsertKeepsTiesByName(s[0], t);
    }
  }

  function Min(a: int, b: int): int {
    if a <= b then a else b
  }

  /**
   * `nlargest(5)` of the desk rates: as many desks as there are, up to five,
   * taken from the desk rates, in descending order of rate with ties in name
   * order, each desk once; no desk left out has a higher rate than a desk kept.
   */
  function TopDesks(rows: seq<Reading>): (top: seq<DeskRate>)
    ensures |top| == Min(TopCount, |DeskRates(rows)|)
    ensures forall d :: d in top ==> d in DeskRates(rows)
    ensures Descending(top)
    ensures TiesByName(top)
    ensures forall i, j :: 0 <= i < j < |top| ==> top[i].name != top[j].name
    ensures forall d, e :: d in DeskRates(rows) && d !in top && e in top ==> d.rate <= e.rate
    ensures forall d, e :: d in DeskRates(rows) && d !in top && e in top && d.rate == e.rate ==>
      StringLess(e.name, d.name)
  {
    var all := DeskRates(rows);
    var k := Min(TopCount, |all|);
    RankedPrefix(all, k);
    RankByRate(all)[..k]
  }

  /** The first `k` entries of the ranking of a name-ordered list. */
  lemma RankedPrefix(all: seq<DeskRate>, k: nat)
    requires NamesAscending(all) && k <= |all|
    ensures var top := RankByRate(all)[..k];
      && (forall d :: d in top ==> d in all)
      && Descending(top)
      && TiesByName(top)
      && (forall i, j :: 0 <= i < j < |top| ==> top[i].name != top[j].name)
      && (forall d, e :: d in all && d !in top && e in top ==> d.rate <= e.rate)
      && (forall d, e :: d in all && d !in top && e in top && d.rate == e.rate ==> StringLess(e.name, d.name))
  {
    var ranked := RankByRate(all);
    RankKeepsTiesByName(all);
    RankedHasSameEntries(all);
    LeftOutRankLower(ranked, k);
    LeftOutTieRanksAfter(ranked, k);
    RankedNamesDistinct(all);
  }

  lemma RankedHasSameEntries(all: seq<DeskRate>)
    ensures forall d :: d in RankByRate(all) <==> d in all
  {
    var ranked := RankByRate(all);
    forall d ensures d in ranked <==> d in all {
      assert d in ranked <==> d in multiset(ranked);
      assert d in all <==> d in multiset(all);
    }
  }

  /** Every entry past position `k` of a descending list rates at most every entry before it. */
  lemma LeftOutRankLower(ranked: seq<DeskRate>, k: nat)
    requires Descending(ranked) && k <= |ranked|
    ensures forall d, e :: d in ranked && d !in ranked[..k] && e in ranked[..k] ==> d.rate <= e.rate
  {
    var top := ranked[..k];
    forall d, e | d in ranked && d !in top && e in top ensures d.rate <= e.rate {
      var j :| 0 <= j < |ranked| && ranked[j] == d;
      var i :| 0 <= i < k && top[i] == e;
      assert ranked[i] == e;
      assert forall m :: 0 <= m < k ==> ranked[m] == top[m] && top[m] in top;
      assert i < j;
    }
  }

  /**
   * Cutting a list whose ties are in name order: an entry left out that ties
   * with one kept comes later by name, so the cut keeps the first of equals.
   */
  lemma LeftOutTieRanksAfter(ranked: seq<DeskRate>, k: nat)
    requires TiesByName(ranked) && k <= |ranked|
    ensures forall d, e :: d in ranked && d !in ranked[..k] && e in ranked[..k] && d.rate == e.rate ==>
      StringLess(e.name, d.name)
  {
    var top := ranked[..k];
    forall d, e | d in ranked && d !in top && e in top && d.rate == e.rate ensures StringLess(e.name, d.name) {
      var j :| 0 <= j < |ranked| && ranked[j] == d;
      var i :| 0 <= i < k && top[i] == e;
      assert ranked[i] == e;
      assert forall m :: 0 <= m < k ==> ranked[m] == top[m] && top[m] in top;
      assert i < j;
    }
  }

  /** Each desk appears once in the ranking of a name-ordered list. */
  lemma RankedNamesDistinct(all: seq<DeskRate>)
    requires NamesAscending(all)
    ensures forall i, j :: 0 <= i < j < |RankByRate(all)| ==> RankByRate(all)[i].name != RankByRate(all)[j].name
  {
    var ranked := RankByRate(all);
    RankKeepsTiesByName(all);
    RankedHasSameEntries(all);
    StringLessIsStrictTotal();
    forall i, j | 0 <= i < j < |ranked| ensures ranked[i].name != ranked[j].name {
      assert ranked[i] in ranked && ranked[j] in ranked;
      SameNameSameEntry(all, ranked[i], ranked[j]);
      assert ranked[i].rate == ranked[j].rate ==> StringLess(ranked[i].name, ranked[j].name);
      assert !StringLess(ranked[i].name, ranked[i].name);
    }
  }

  /** In a list with each name once, an entry is determined by its name. */
  lemma SameNameSameEntry(all: seq<DeskRate>, a: DeskRate, b: DeskRate)
    requires NamesAscending(all) && a in all && b in all
    ensures a.name == b.name ==> a == b
  {
    StringLessIsStrictTotal();
    var i :| 0 <= i < |all| && all[i] == a;
    var j :| 0 <= j < |all| && all[j] == b;
    assert i < j ==> StringLess(a.name, b.name);
    assert j < i ==> StringLess(b.name, a.name);
  }
}
