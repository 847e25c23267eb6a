/** The three query shapes the handlers use on a table held as a sequence of rows in
    insertion order: `filter_by(...).all()`, `filter_by(...).first()` and `.count()`. */
module Query {
  import opened Wrappers

  /** The rows satisfying `p`, in table order. */
  function Filter<T>(rows: seq<T>, p: T -> bool): (r: seq<T>)
    ensures |r| <= |rows|
    ensures forall i :: 0 <= i < |r| ==> p(r[i])
  {
    if rows == [] then []
    else Filter(rows[..|rows| - 1], p) + (if p(rows[|rows| - 1]) then [rows[|rows| - 1]] else [])
  }

  /** The earliest row satisfying `p`, if any. */
  function First<T>(rows: seq<T>, p: T -> bool): (r: Option<T>)
    ensures r.Some? <==> exists i :: 0 <= i < |rows| && p(rows[i])
    ensures r.Some? ==> r.value in rows && p(r.value)
  {
    if rows == [] then None
    else if p(rows[0]) then Some(rows[0])
    else
      var rest := First(rows[1..], p);
      assert forall i :: 1 <= i < |rows| ==> rows[i] == rows[1..][i - 1];
      rest
  }

  function Count<T>(rows: seq<T>, p: T -> bool): nat {
    |Filter(rows, p)|
  }

  /** A unique column, or a unique constraint over several: no two rows share a `key`.
      The quantifier fires only on applications of `key`, so a proof that needs two rows
      to differ names their keys. */
  predicate Unique<T, K(==)>(rows: seq<T>, key: T -> K) {
    forall i, j {:trigger key(rows[i]), key(rows[j])} :: 0 <= i < j < |rows| ==> key(rows[i]) != key(rows[j])
  }

  /** The rows inserted before some point were unique already. */
  lemma UniquePrefix<T, K>(rows: seq<T>, n: nat, key: T -> K)
    requires Unique(rows, key) && n <= |rows|
    ensures Unique(rows[..n], key)
  {
    var init := rows[..n];
    forall i, j | 0 <= i < j < |init| ensures key(init[i]) != key(init[j]) {
      assert init[i] == rows[i] && init[j] == rows[j];
    }
  }

  /** Rewriting rows without touching their keys keeps the column unique. */
  lemma UniqueSameKeys<T, K>(rows: seq<T>, other: seq<T>, key: T -> K)
    requires Unique(rows, key) && |other| == |rows|
    requires forall i :: 0 <= i < |rows| ==> key(other[i]) == key(rows[i])
    ensures Unique(other, key)
  {
    forall i, j | 0 <= i < j < |other| ensures key(other[i]) != key(other[j]) {
      assert key(rows[i]) != key(rows[j]);
    }
  }

  /** Giving the row at position `k` a key no other row has keeps the column unique. */
  lemma UniqueReplace<T, K>(rows: seq<T>, other: seq<T>, k: nat, key: T -> K)
    requires Unique(rows, key) && |other| == |rows| && k < |rows|
    requires forall i :: 0 <= i < |rows| && i != k ==> key(other[i]) == key(rows[i]) && key(rows[i]) != key(other[k])
    ensures Unique(other, key)
  {
    forall i, j | 0 <= i < j < |other| ensures key(other[i]) != key(other[j]) {
      if i != k && j != k {
        assert key(rows[i]) != key(rows[j]);
      }
    }
  }

  /** A row whose key no row has yet keeps the column unique. */
  lemma UniqueSnoc<T, K>(rows: seq<T>, x: T, key: T -> K)
    requires Unique(rows, key)
    requires forall i :: 0 <= i < |rows| ==> key(rows[i]) != key(x)
    ensures Unique(rows + [x], key)
  {
    var all := rows + [x];
    forall i, j | 0 <= i < j < |all| ensures key(all[i]) != key(all[j]) {
      assert all[i] == rows[i];
      if j < |rows| {
        assert all[j] == rows[j];
      }
    }
  }

  /** The table after an assignment on a loaded row and a commit: the row with `x`'s key
      is replaced by `x`. */
  function Replace<T>(rows: seq<T>, x: T, key: T -> int): (r: seq<T>)
    ensures |r| == |rows|
    ensures forall i :: 0 <= i < |rows| ==> r[i] == if key(rows[i]) == key(x) then x else rows[i]
  {
    seq(|rows|, i requires 0 <= i < |rows| => if key(rows[i]) == key(x) then x else rows[i])
  }

  /** On a table keyed by position, replacing a row changes exactly the one position its
      key names, and nothing else. */
  lemma ReplaceKeyed<T>(rows: seq<T>, x: T, key: T -> int)
    requires forall i :: 0 <= i < |rows| ==> key(rows[i]) == i + 1
    requires 1 <= key(x) <= |rows|
    ensures Replace(rows, x, key) == rows[key(x) - 1 := x]
  {
  }

  /** A row is in the answer of a query exactly when it is in the table and matches. */
  lemma {:induction false} FilterMember<T>(rows: seq<T>, p: T -> bool, x: T)
    ensures x in Filter(rows, p) <==> x in rows && p(x)
  {
    if rows != [] {
      var init := rows[..|rows| - 1];
      FilterMember(init, p, x);
      assert rows == init + [rows[|rows| - 1]];
    }
  }

  /** Appending a row extends the filtered rows by that row exactly when it matches. */
  lemma FilterSnoc<T>(rows: seq<T>, x: T, p: T -> bool)
    ensures Filter(rows + [x], p) == Filter(rows, p) + (if p(x) then [x] else [])
  {
    assert (rows + [x])[..|rows|] == rows;
  }

  /** A query that found nothing finds the appended row exactly when it matches. */
  lemma {:induction false} FirstSnoc<T>(rows: seq<T>, x: T, p: T -> bool)
    requires First(rows, p).None?
    ensures First(rows + [x], p) == if p(x) then Some(x) else None
  {
    if rows != [] {
      assert (rows + [x])[1..] == rows[1..] + [x];
      FirstSnoc(rows[1..], x, p);
    }
  }

  /** No matching row, nothing found. */
  lemma {:induction false} FilterNone<T>(rows: seq<T>, p: T -> bool)
    requires forall i :: 0 <= i < |rows| ==> !p(rows[i])
    ensures Filter(rows, p) == []
  {
    if rows != [] {
      FilterNone(rows[..|rows| - 1], p);
    }
  }
}
