/** Database tables as sequences of rows in insertion order, and the
    row-at-a-time searches the repositories' derived queries perform. */
module Tables {
  import opened Wrappers

  /** Position of the first row satisfying `p`. */
  function FirstIndex<T>(rows: seq<T>, p: T -> bool): (r: Option<nat>)
    ensures r.Some? ==> r.value < |rows| && p(rows[r.value])
    ensures r.Some? ==> forall k :: 0 <= k < r.value ==> !p(rows[k])
    ensures r.None? ==> forall k :: 0 <= k < |rows| ==> !p(rows[k])
  {
    if rows == [] then None
    else if p(rows[0]) then Some(0)
    else match FirstIndex(rows[1..], p)
      case None => None
      case Some(k) => Some(k + 1)
  }

  /** The first row satisfying `p`, as a single-result query returns it. */
  function FirstMatch<T>(rows: seq<T>, p: T -> bool): (r: Option<T>)
    ensures r.Some? ==> r.value in rows
    ensures r.None? <==> FirstIndex(rows, p).None?
    ensures r.Some? ==> r.value == rows[FirstIndex(rows, p).value]
  {
    match FirstIndex(rows, p)
    case None => None
    case Some(k) => Some(rows[k])
  }

  /** The rows satisfying `p`, in table order. Rows hold no references, so
      the result is allocated wherever the arguments are. */
  function Filter<T(!new)>(rows: seq<T>, p: T -> bool): (r: seq<T>)
    ensures |r| <= |rows|
    ensures forall k :: 0 <= k < |r| ==> r[k] in rows && p(r[k])
    ensures forall k :: 0 <= k < |rows| && p(rows[k]) ==> rows[k] in r
  {
    if rows == [] then []
    else if p(rows[0]) then [rows[0]] + Filter(rows[1..], p)
    else Filter(rows[1..], p)
  }

  /** Filtering by `p` and then by `q` is filtering once by both. */
  lemma {:induction false} FilterTwice<T(!new)>(rows: seq<T>, p: T -> bool, q: T -> bool, both: T -> bool)
    requires forall x :: both(x) <==> p(x) && q(x)
    ensures Filter(Filter(rows, p), q) == Filter(rows, both)
  {
    if rows != [] {
      FilterTwice(rows[1..], p, q, both);
    }
  }

  /** `SELECT COUNT(*) … WHERE p`. */
  function Count<T>(rows: seq<T>, p: T -> bool): (n: nat)
    ensures n <= |rows|
    ensures n == 0 <==> forall k :: 0 <= k < |rows| ==> !p(rows[k])
  {
    if rows == [] then 0
    else (if p(rows[0]) then 1 else 0) + Count(rows[1..], p)
  }

  lemma {:induction false} CountIsFilterSize<T(!new)>(rows: seq<T>, p: T -> bool)
    ensures Count(rows, p) == |Filter(rows, p)|
  {
    if rows != [] {
      CountIsFilterSize(rows[1..], p);
    }
  }

  /** Appending a row adds one to a count exactly when the row matches. */
  lemma {:induction false} CountAppend<T>(rows: seq<T>, x: T, p: T -> bool)
    ensures Count(rows + [x], p) == Count(rows, p) + (if p(x) then 1 else 0)
  {
    if rows != [] {
      assert (rows + [x])[1..] == rows[1..] + [x];
      CountAppend(rows[1..], x, p);
    }
  }

  /** A filter that keeps every row keeps the table as it is. */
  lemma {:induction false} FilterKeepsAll<T(!new)>(rows: seq<T>, p: T -> bool)
    requires forall k :: 0 <= k < |rows| ==> p(rows[k])
    ensures Filter(rows, p) == rows
  {
    if rows != [] {
      FilterKeepsAll(rows[1..], p);
      assert [rows[0]] + rows[1..] == rows;
    }
  }

  /** Deleting rows none of which match leaves a count as it was. */
  lemma {:induction false} CountFilterKeeps<T(!new)>(rows: seq<T>, keep: T -> bool, p: T -> bool)
    requires forall k :: 0 <= k < |rows| && p(rows[k]) ==> keep(rows[k])
    ensures Count(Filter(rows, keep), p) == Count(rows, p)
  {
    if rows != [] {
      CountFilterKeeps(rows[1..], keep, p);
      if keep(rows[0]) {
        var r := Filter(rows, keep);
        assert r[1..] == Filter(rows[1..], keep);
      }
    }
  }

  /** Deleting the one copy of `x` from a table without duplicates lowers
      a count by one exactly when `x` matches. */
  lemma {:induction false} CountFilterOut<T(!new)>(rows: seq<T>, keep: T -> bool, x: T, p: T -> bool)
    requires NoDuplicates(rows) && x in rows
    requires forall y :: keep(y) <==> y != x
    ensures Count(Filter(rows, keep), p) == Count(rows, p) - (if p(x) then 1 else 0)
  {
    var rest := rows[1..];
    assert NoDuplicates(rest);
    if rows[0] == x {
      assert x !in rest;
      FilterKeepsAll(rest, keep);
    } else {
      CountFilterOut(rest, keep, x, p);
      var r := Filter(rows, keep);
      assert r == [rows[0]] + Filter(rest, keep);
      assert r[1..] == Filter(rest, keep);
    }
  }

  /** `SELECT DISTINCT` of an id column: each id once, in the order it first
      occurs. */
  function DistinctIds(xs: seq<int>): (r: seq<int>)
    ensures forall i, j :: 0 <= i < j < |r| ==> r[i] != r[j]
    ensures forall x :: x in r <==> x in xs
  {
    if xs == [] then []
    else
      var rest := DistinctIds(xs[..|xs| - 1]);
      assert xs == xs[..|xs| - 1] + [xs[|xs| - 1]];
      if xs[|xs| - 1] in rest then rest else rest + [xs[|xs| - 1]]
  }

  ghost predicate NoDuplicates<T>(s: seq<T>) {
    forall i, j :: 0 <= i < j < |s| ==> s[i] != s[j]
  }

  /** Deleting rows from a table without duplicate rows leaves none. */
  lemma {:induction false} FilterKeepsDistinct<T(!new)>(rows: seq<T>, p: T -> bool)
    requires NoDuplicates(rows)
    ensures NoDuplicates(Filter(rows, p))
  {
    if rows != [] {
      var t := Filter(rows[1..], p);
      FilterKeepsDistinct(rows[1..], p);
      var r := Filter(rows, p);
      if p(rows[0]) {
        assert rows[0] !in rows[1..];
        assert r == [rows[0]] + t;
        forall i, j | 0 <= i < j < |r|
          ensures r[i] != r[j]
        {
          if i == 0 {
            assert r[j] == t[j - 1];
            assert r[j] in rows[1..];
          } else {
            assert r[i] == t[i - 1] && r[j] == t[j - 1];
          }
        }
      } else {
        assert r == t;
      }
    }
  }
}
