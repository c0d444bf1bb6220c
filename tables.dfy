/**
 * Row selection shared by every `ORDER BY key DESC LIMIT 1` query of the system.
 * Table order is insertion order, so of two rows with the same key the later one
 * is taken.
 */
module Tables {
  import opened Wrappers

  /**
   * Index of the matching row with the largest key, if any. SQL leaves the order of
   * rows with equal keys unspecified; the model settles a tie on the later row.
   */
  function Newest<T>(rows: seq<T>, key: T -> int, p: T -> bool): (r: Option<nat>)
    ensures r.Some? ==> r.value < |rows| && p(rows[r.value])
    ensures r.Some? ==> forall j :: 0 <= j < |rows| && p(rows[j]) ==> key(rows[j]) <= key(rows[r.value])
    ensures r.Some? ==> forall j :: r.value < j < |rows| ==> !p(rows[j]) || key(rows[j]) < key(rows[r.value])
    ensures r.None? <==> forall j :: 0 <= j < |rows| ==> !p(rows[j])
  {
    if rows == [] then None
    else
      var init := rows[..|rows| - 1];
      var last := rows[|rows| - 1];
      var rest := Newest(init, key, p);
      if p(last) && (rest.None? || key(init[rest.value]) <= key(last)) then Some(|rows| - 1)
      else rest
  }

  /** Index of the first row satisfying `p`, as a `fetchone` over an unordered query reads it. */
  function First<T>(rows: seq<T>, p: T -> bool): (r: Option<nat>)
    ensures r.Some? ==> r.value < |rows| && p(rows[r.value])
    ensures r.Some? ==> forall j :: 0 <= j < r.value ==> !p(rows[j])
    ensures r.None? <==> forall j :: 0 <= j < |rows| ==> !p(rows[j])
  {
    if rows == [] then None
    else if p(rows[0]) then Some(0)
    else match First(rows[1..], p)
      case None => None
      case Some(k) => Some(k + 1)
  }

  /** Two tables whose rows pass their filters at the same positions give the same first hit. */
  lemma {:induction false} FirstAgrees<T>(a: seq<T>, b: seq<T>, p: T -> bool, q: T -> bool)
    requires |a| == |b| && forall j :: 0 <= j < |a| ==> p(a[j]) == q(b[j])
    ensures First(a, p) == First(b, q)
  {
    if a != [] {
      assert p(a[0]) == q(b[0]);
      FirstAgrees(a[1..], b[1..], p, q);
    }
  }

  /** A `DELETE` whose WHERE clause is `!keep(row)`: the rows that pass `keep`, in table order. */
  function Filter<T(!new)>(rows: seq<T>, keep: T -> bool): (r: seq<T>)
    ensures |r| <= |rows|
    ensures forall x :: x in r <==> x in rows && keep(x)
  {
    if rows == [] then []
    else (if keep(rows[0]) then [rows[0]] else []) + Filter(rows[1..], keep)
  }

  /** No two rows share a key. */
  predicate DistinctBy<T>(rows: seq<T>, key: T -> int) {
    forall i, j :: 0 <= i < j < |rows| ==> key(rows[i]) != key(rows[j])
  }

  /** Deleting rows keeps a key that was distinct across the table distinct. */
  lemma {:induction false} FilterKeepsDistinct<T(!new)>(rows: seq<T>, keep: T -> bool, key: T -> int)
    requires DistinctBy(rows, key)
    ensures DistinctBy(Filter(rows, keep), key)
  {
    if rows != [] {
      var tail := rows[1..];
      assert DistinctBy(tail, key) by {
        forall i, j | 0 <= i < j < |tail|
          ensures key(tail[i]) != key(tail[j])
        {
          assert tail[i] == rows[i + 1] && tail[j] == rows[j + 1];
        }
      }
      FilterKeepsDistinct(tail, keep, key);
      var rest := Filter(tail, keep);
      if keep(rows[0]) {
        var r := [rows[0]] + rest;
        assert Filter(rows, keep) == r;
        forall i, j | 0 <= i < j < |r|
          ensures key(r[i]) != key(r[j])
        {
          assert r[j] == rest[j - 1] && rest[j - 1] in tail;
          var k :| 0 <= k < |tail| && tail[k] == rest[j - 1];
          assert rows[k + 1] == r[j];
          if i > 0 {
            assert r[i] == rest[i - 1];
          } else {
            assert r[i] == rows[0];
          }
        }
      } else {
        assert Filter(rows, keep) == rest;
      }
    }
  }
}
