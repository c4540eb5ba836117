/**
 * One row of the occupancy spreadsheet, and the operations on a sequence of
 * rows that every view of the dashboard is built from: row selection by a
 * boolean mask (`df[mask]`), and the sum, maximum and mean of `peopleCount`.
 */
module Readings {

  /** `Datetime.dt.hour`. */
  type Hour = h: int | 0 <= h < 24

  /** Seating capacity of a desk; the occupancy rate divides by it, so it is positive. */
  type Capacity = c: int | c > 0 witness 1

  /**
   * A sensor reading.  `day` is the date part of `Datetime` as a day number
   * (days since 1970-01-01, so day 0 is a Thursday) and `hour` its hour;
   * `name` is the desk.
   */
  datatype Reading = Reading(
    floor: string,
    day: int,
    hour: Hour,
    sensorId: string,
    building: string,
    name: string,
    department: string,
    peopleCount: nat,
    capacity: Capacity)

  // Columns, as functions so that they can be handed to a group-by.
  function FloorOf(r: Reading): string { r.floor }
  function SensorOf(r: Reading): string { r.sensorId }
  function BuildingOf(r: Reading): string { r.building }
  function DeskOf(r: Reading): string { r.name }
  function DepartmentOf(r: Reading): string { r.department }
  function DayOf(r: Reading): int { r.day }
  function HourOf(r: Reading): int { r.hour }

  /** Weekday index of a day number, Monday = 0 (day 0, 1970-01-01, is a Thursday). */
  function Weekday(day: int): (w: nat)
    ensures w < 7
  {
    (day + 3) % 7
  }

  /** `Timestamp.day_name()` for a weekday index. */
  function DayName(w: nat): string
    requires w < 7
  {
    ["Monday", "Tuesday", "Wednesday", "Thursday", "Friday", "Saturday", "Sunday"][w]
  }

  function DayNameOf(r: Reading): string { DayName(Weekday(r.day)) }

  /**
   * `df[mask]`: the rows for which `keep` holds, in their original order.
   * No row is added, and a row is kept exactly when the mask holds of it.
   */
  function Where(s: seq<Reading>, keep: Reading -> bool): (r: seq<Reading>)
    ensures |r| <= |s|
    ensures forall x :: x in r <==> x in s && keep(x)
  {
    if s == [] then []
    else (if keep(s[0]) then [s[0]] else []) + Where(s[1..], keep)
  }

  /** `a` is obtained from `b` by deleting elements: an order-preserving subsequence. */
  ghost predicate IsSubsequence<T>(a: seq<T>, b: seq<T>)
    decreases |b|
  {
    if a == [] then true
    else if b == [] then false
    else (a[0] == b[0] && IsSubsequence(a[1..], b[1..])) || IsSubsequence(a, b[1..])
  }

  lemma {:induction false} WhereIsSubsequence(s: seq<Reading>, keep: Reading -> bool)
    ensures IsSubsequence(Where(s, keep), s)
    decreases |s|
  {
    if s != [] {
      WhereIsSubsequence(s[1..], keep);
      var rest := Where(s[1..], keep);
      if keep(s[0]) {
        assert Where(s, keep) == [s[0]] + rest;
        assert ([s[0]] + rest)[1..] == rest;
      } else {
        assert Where(s, keep) == rest;
        if rest != [] {
          assert IsSubsequence(rest, s[1..]);
        }
      }
    }
  }

  /** A row occurs in `Where(s, keep)` as often as in `s` when the mask holds of it, else never. */
  lemma {:induction false} WhereMultiplicity(s: seq<Reading>, keep: Reading -> bool, x: Reading)
    ensures multiset(Where(s, keep))[x] == if keep(x) then multiset(s)[x] else 0
  {
    if s != [] {
      WhereMultiplicity(s[1..], keep, x);
      assert s == [s[0]] + s[1..];
      assert multiset(s) == multiset{s[0]} + multiset(s[1..]);
    }
  }

  /** Masks that agree on every row of `s` select the same rows of it. */
  lemma {:induction false} WhereExtensional(s: seq<Reading>, p: Reading -> bool, q: Reading -> bool)
    requires forall x :: x in s ==> p(x) == q(x)
    ensures Where(s, p) == Where(s, q)
  {
    if s != [] {
      assert forall x :: x in s[1..] ==> x in s;
      WhereExtensional(s[1..], p, q);
    }
  }

  /** Applying mask `q` after mask `p` is applying their conjunction `pq` once. */
  lemma {:induction false} WhereThen(s: seq<Reading>, p: Reading -> bool, q: Reading -> bool, pq: Reading -> bool)
    requires forall x :: pq(x) == (p(x) && q(x))
    ensures Where(Where(s, p), q) == Where(s, pq)
  {
    if s != [] {
      WhereThen(s[1..], p, q, pq);
      var rest := Where(s[1..], p);
      if p(s[0]) {
        assert Where(s, p) == [s[0]] + rest;
        assert ([s[0]] + rest)[1..] == rest;
      } else {
        assert Where(s, p) == rest;
      }
    }
  }

  /** A mask that holds of every row keeps the whole sequence. */
  lemma {:induction false} WhereKeepsAll(s: seq<Reading>, keep: Reading -> bool)
    requires forall x :: x in s ==> keep(x)
    ensures Where(s, keep) == s
  {
    if s != [] {
      WhereKeepsAll(s[1..], keep);
      assert s == [s[0]] + s[1..];
    }
  }

  /** A mask that holds of no row keeps nothing. */
  lemma {:induction false} WhereKeepsNone(s: seq<Reading>, keep: Reading -> bool)
    requires forall x :: x in s ==> !keep(x)
    ensures Where(s, keep) == []
  {
    if s != [] {
      assert forall x :: x in s[1..] ==> x in s;
      WhereKeepsNone(s[1..], keep);
    }
  }

  /**
   * `df["peopleCount"].sum()`.  Every row's count is at most the total, and the
   * total is 0 exactly when every row counts 0 people (in particular when there
   * are no rows).
   */
  function SumPeople(s: seq<Reading>): (total: nat)
    ensures forall x :: x in s ==> x.peopleCount <= total
    ensures total == 0 <==> forall x :: x in s ==> x.peopleCount == 0
  {
    if s == [] then 0
    else
      var rest := SumPeople(s[1..]);
      assert forall x :: x in s ==> x == s[0] || x in s[1..];
      s[0].peopleCount + rest
  }

  /** `df["capacity"].sum()`: at least one seat per row, since every capacity is positive. */
  function SumCapacity(s: seq<Reading>): (total: nat)
    ensures total >= |s|
  {
    if s == [] then 0 else s[0].capacity + SumCapacity(s[1..])
  }

  lemma {:induction false} SumPeopleAppend(a: seq<Reading>, b: seq<Reading>)
    ensures SumPeople(a + b) == SumPeople(a) + SumPeople(b)
  {
    if a != [] {
      assert (a + b)[0] == a[0] && (a + b)[1..] == a[1..] + b;
      SumPeopleAppend(a[1..], b);
    } else {
      assert a + b == b;
    }
  }

  /** `max()` of `peopleCount` over non-empty rows: an upper bound that some row attains. */
  function Peak(s: seq<Reading>): (m: nat)
    requires s != []
    ensures forall x :: x in s ==> x.peopleCount <= m
    ensures exists x :: x in s && x.peopleCount == m
  {
    if |s| == 1 then s[0].peopleCount
    else
      var rest := Peak(s[1..]);
      assert s[1..][0] in s;
      assert forall x :: x in s ==> x == s[0] || x in s[1..];
      if s[0].peopleCount >= rest then s[0].peopleCount else rest
  }

  /** `mean()` of `peopleCount` over non-empty rows, as an exact ratio. */
  function Mean(s: seq<Reading>): real
    requires s != []
  {
    SumPeople(s) as real / |s| as real
  }

  lemma {:induction false} SumAtMostCountTimes(s: seq<Reading>, m: nat)
    requires forall x :: x in s ==> x.peopleCount <= m
    ensures SumPeople(s) <= |s| * m
  {
    if s != [] {
      assert forall x :: x in s[1..] ==> x in s;
      SumAtMostCountTimes(s[1..], m);
      MultiplyStep(|s| - 1, m);
    }
  }

  /** The mean of a group lies between 0 and its peak. */
  lemma MeanAtMostPeak(s: seq<Reading>)
    requires s != []
    ensures 0.0 <= Mean(s) <= Peak(s) as real
  {
    SumAtMostCountTimes(s, Peak(s));
    RatioBounds(SumPeople(s), |s|, Peak(s));
  }

  lemma MultiplyStep(k: nat, m: nat)
    ensures (k + 1) * m == k * m + m
  {
  }

  lemma RatioBounds(a: nat, n: nat, m: nat)
    requires n > 0 && a <= n * m
    ensures 0.0 <= a as real / n as real <= m as real
  {
    var q := a as real / n as real;
    assert q * n as real == a as real;
    assert (n * m) as real == n as real * m as real;
  }
}
