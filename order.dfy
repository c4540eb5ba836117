/**
 * Orders used by the dashboard: Python's `sorted` on the option lists and the
 * key order in which a pandas `groupby` returns its groups.  Strings compare
 * lexicographically by code point (a proper prefix comes first), integers
 * numerically.  `SortedDistinct` is `sorted(column.unique())`.
 */
module Order {

  /** `less` is a strict total order: irreflexive, transitive and connected. */
  ghost predicate StrictTotal<T(!new)>(less: (T, T) -> bool) {
    && (forall a :: !less(a, a))
    && (forall a, b, c :: less(a, b) && less(b, c) ==> less(a, c))
    && (forall a, b :: a != b ==> less(a, b) || less(b, a))
  }

  /** Every element is strictly below every later one (sorted, no repeats). */
  ghost predicate StrictlyAscending<T>(s: seq<T>, less: (T, T) -> bool) {
    forall i, j :: 0 <= i < j < |s| ==> less(s[i], s[j])
  }

  ghost predicate NoDuplicates<T>(s: seq<T>) {
    forall i, j :: 0 <= i < j < |s| ==> s[i] != s[j]
  }

  /** Python's `<` on `str`: lexicographic on code points. */
  predicate StringLess(a: string, b: string) {
    if |a| == 0 then |b| > 0
    else if |b| == 0 then false
    else if a[0] != b[0] then a[0] < b[0]
    else StringLess(a[1..], b[1..])
  }

  predicate IntLess(a: int, b: int) {
    a < b
  }

  lemma {:induction false} StringLessIrreflexive(a: string)
    ensures !StringLess(a, a)
  {
    if |a| > 0 {
      StringLessIrreflexive(a[1..]);
    }
  }

  lemma {:induction false} StringLessTransitive(a: string, b: string, c: string)
    requires StringLess(a, b) && StringLess(b, c)
    ensures StringLess(a, c)
  {
    if |a| > 0 && |b| > 0 && |c| > 0 && a[0] == b[0] && b[0] == c[0] {
      StringLessTransitive(a[1..], b[1..], c[1..]);
    }
  }

  lemma {:induction false} StringLessConnected(a: string, b: string)
    requires a != b
    ensures StringLess(a, b) || StringLess(b, a)
  {
    if |a| > 0 && |b| > 0 && a[0] == b[0] {
      assert a == [a[0]] + a[1..] && b == [b[0]] + b[1..];
      StringLessConnected(a[1..], b[1..]);
    }
  }

  lemma StringLessIsStrictTotal()
    ensures StrictTotal(StringLess)
  {
    forall a: string ensures !StringLess(a, a) {
      StringLessIrreflexive(a);
    }
    forall a: string, b: string, c: string | StringLess(a, b) && StringLess(b, c)
      ensures StringLess(a, c)
    {
      StringLessTransitive(a, b, c);
    }
    forall a: string, b: string | a != b
      ensures StringLess(a, b) || StringLess(b, a)
    {
      StringLessConnected(a, b);
    }
  }

  lemma IntLessIsStrictTotal()
    ensures StrictTotal(IntLess)
  {
  }

  lemma AscendingHasNoDuplicates<T(!new)>(s: seq<T>, less: (T, T) -> bool)
    requires StrictTotal(less) && StrictlyAscending(s, less)
    ensures NoDuplicates(s)
  {
    forall i, j | 0 <= i < j < |s| ensures s[i] != s[j] {
      assert less(s[i], s[j]);
    }
  }

  /** Adds `x` to an ascending list of distinct values, keeping it ascending and distinct. */
  function Insert<T(==,!new)>(x: T, s: seq<T>, less: (T, T) -> bool): (r: seq<T>)
    requires StrictTotal(less) && StrictlyAscending(s, less)
    ensures StrictlyAscending(r, less)
    ensures forall y :: y in r <==> y == x || y in s
    ensures |r| <= |s| + 1
  {
    if s == [] then [x]
    else if x == s[0] then s
    else if less(x, s[0]) then
      assert forall j :: 0 < j < |s| ==> less(s[0], s[j]);
      [x] + s
    else
      assert less(s[0], x);
      assert StrictlyAscending(s[1..], less);
      var t := Insert(x, s[1..], less);
      assert forall j :: 0 <= j < |t| ==> less(s[0], t[j]) by {
        forall j | 0 <= j < |t| ensures less(s[0], t[j]) {
          assert t[j] in t;
        }
      }
      [s[0]] + t
  }

  /**
   * `sorted(xs.unique())`: the distinct values of `xs` in ascending order.
   * The result is strictly ascending, holds exactly the values of `xs`,
   * and is never longer than `xs`.
   */
  function SortedDistinct<T(==,!new)>(xs: seq<T>, less: (T, T) -> bool): (r: seq<T>)
    requires StrictTotal(less)
    ensures StrictlyAscending(r, less)
    ensures forall y :: y in r <==> y in xs
    ensures |r| <= |xs|
  {
    if xs == [] then []
    else
      Insert(xs[0], SortedDistinct(xs[1..], less), less)
  }

  lemma FirstIsLeast<T>(s: seq<T>, less: (T, T) -> bool, y: T)
    requires StrictlyAscending(s, less) && y in s
    ensures y == s[0] || less(s[0], y)
  {
    var i :| 0 <= i < |s| && s[i] == y;
    assert i > 0 ==> less(s[0], s[i]);
  }

  /** Two strictly ascending lists with the same elements are equal: the option lists are unique. */
  lemma {:induction false} AscendingUnique<T(!new)>(s: seq<T>, t: seq<T>, less: (T, T) -> bool)
    requires StrictTotal(less) && StrictlyAscending(s, less) && StrictlyAscending(t, less)
    requires forall y :: y in s <==> y in t
    ensures s == t
  {
    assert s != [] ==> s[0] in t;
    assert t != [] ==> t[0] in s;
    if s != [] && t != [] {
      FirstIsLeast(s, less, t[0]);
      FirstIsLeast(t, less, s[0]);
      assert s[0] == t[0];
      forall y ensures y in s[1..] <==> y in t[1..] {
        if y in s[1..] {
          var i :| 1 <= i < |s| && s[i] == y;
          assert less(s[0], y);
          assert y != t[0];
          assert y in t;
        }
        if y in t[1..] {
          var i :| 1 <= i < |t| && t[i] == y;
          assert less(t[0], y);
          assert y != s[0];
          assert y in s;
        }
      }
      AscendingUnique(s[1..], t[1..], less);
      assert s == [s[0]] + s[1..] && t == [t[0]] + t[1..];
    }
  }
}
