/**
 * The handful of SQL statement shapes the handlers issue, over a table held
 * as the sequence of its rows in table order: a single-row lookup by a
 * unique column (`QueryRowx(... WHERE key = $1)`), a filter (`WHERE`, used by
 * queries and by `DELETE`), and an `INSERT` guarded by a unique constraint.
 */
module Relational {
  import opened Wrappers

  /** No two rows agree on `key`: the column carries a unique constraint. */
  predicate KeysDistinct<T, K(==)>(rows: seq<T>, key: T -> K)
  {
    forall i, j :: 0 <= i < j < |rows| ==> key(rows[i]) != key(rows[j])
  }

  /** Some row already has the value `k` in the `key` column. */
  predicate KeyTaken<T(==,!new), K(==)>(rows: seq<T>, key: T -> K, k: K)
  {
    exists x :: x in rows && key(x) == k
  }

  /** The rows that satisfy `keep`, in table order. */
  function Where<T(==,!new)>(rows: seq<T>, keep: T -> bool): (r: seq<T>)
    ensures |r| <= |rows|
    ensures forall x :: x in r <==> x in rows && keep(x)
    ensures (forall x :: x in rows ==> keep(x)) ==> r == rows
  {
    if rows == [] then []
    else if keep(rows[0]) then [rows[0]] + Where(rows[1..], keep)
    else Where(rows[1..], keep)
  }

  /** Filtering a table cannot break a unique constraint. */
  lemma {:induction false} WhereKeepsKeysDistinct<T(!new), K>(rows: seq<T>, keep: T -> bool, key: T -> K)
    requires KeysDistinct(rows, key)
    ensures KeysDistinct(Where(rows, keep), key)
  {
    if rows != [] {
      var tail := Where(rows[1..], keep);
      assert KeysDistinct(rows[1..], key) by {
        forall i, j | 0 <= i < j < |rows[1..]|
          ensures key(rows[1..][i]) != key(rows[1..][j])
        {
          assert rows[1..][i] == rows[i + 1] && rows[1..][j] == rows[j + 1];
        }
      }
      WhereKeepsKeysDistinct(rows[1..], keep, key);
      if keep(rows[0]) {
        var r := [rows[0]] + tail;
        forall i, j | 0 <= i < j < |r| ensures key(r[i]) != key(r[j]) {
          if i == 0 {
            assert r[j] in rows[1..];
            var m :| 0 <= m < |rows[1..]| && rows[1..][m] == r[j];
            assert rows[m + 1] == r[j];
          } else {
            assert r[i] == tail[i - 1] && r[j] == tail[j - 1];
          }
        }
      }
    }
  }

  /** `QueryRowx(... WHERE key = k)`: the first row with that key, if any. */
  function FindByKey<T(==,!new), K(==)>(rows: seq<T>, key: T -> K, k: K): (r: Option<T>)
    ensures r.Some? ==> r.value in rows && key(r.value) == k
    ensures r.None? <==> !KeyTaken(rows, key, k)
  {
    if rows == [] then None
    else if key(rows[0]) == k then Some(rows[0])
    else FindByKey(rows[1..], key, k)
  }

  /** Under a unique constraint the lookup by key finds exactly the row holding that key. */
  lemma FindByKeyUnique<T(!new), K>(rows: seq<T>, key: T -> K, x: T)
    requires KeysDistinct(rows, key)
    requires x in rows
    ensures FindByKey(rows, key, key(x)) == Some(x)
  {
    var r := FindByKey(rows, key, key(x));
    assert KeyTaken(rows, key, key(x));
    var i :| 0 <= i < |rows| && rows[i] == x;
    var j :| 0 <= j < |rows| && rows[j] == r.value;
    if i < j {
      assert key(rows[i]) != key(rows[j]);
    } else if j < i {
      assert key(rows[j]) != key(rows[i]);
    }
  }

  /**
   * `INSERT` into a table whose `key` column is unique: it fails (None) when
   * the key is taken, and otherwise appends the row.
   */
  function InsertUnique<T(==,!new), K(==)>(rows: seq<T>, key: T -> K, row: T): (r: Option<seq<T>>)
    ensures r.None? <==> KeyTaken(rows, key, key(row))
    ensures r.Some? ==> r.value == rows + [row]
    ensures r.Some? && KeysDistinct(rows, key) ==> KeysDistinct(r.value, key)
  {
    if KeyTaken(rows, key, key(row)) then None
    else
      var r := rows + [row];
      assert KeysDistinct(rows, key) ==> KeysDistinct(r, key) by {
        if KeysDistinct(rows, key) {
          forall i, j | 0 <= i < j < |r| ensures key(r[i]) != key(r[j]) {
            if j == |rows| {
              assert r[i] in rows;
            }
          }
        }
      }
      Some(r)
  }
}
