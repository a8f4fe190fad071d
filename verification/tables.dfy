/**
 * Query semantics of the relational store, independent of any one table.
 *
 * A table is a sequence of rows in insertion order. `findOne({ where })`
 * returns the first row satisfying the condition; `destroy({ where })`
 * removes every row satisfying it and keeps the others in order.
 */
module Tables {

  datatype Option<+T> = None | Some(value: T)

  /** Index of the first row satisfying `p`: the row `findOne` returns. */
  function FindFirst<T>(rows: seq<T>, p: T -> bool): (r: Option<nat>)
    ensures r.Some? ==> r.value < |rows| && p(rows[r.value])
    ensures r.Some? ==> forall j :: 0 <= j < r.value ==> !p(rows[j])
    ensures r.None? <==> forall j :: 0 <= j < |rows| ==> !p(rows[j])
  {
    if rows == [] then None
    else if p(rows[0]) then Some(0)
    else
      match FindFirst(rows[1..], p)
      case None => None
      case Some(k) => Some(k + 1)
  }

  /** The rows that survive `destroy` with condition `!keep`. */
  function Filter<T(!new)>(rows: seq<T>, keep: T -> bool): (r: seq<T>)
    ensures |r| <= |rows|
    ensures forall x :: x in r <==> x in rows && keep(x)
  {
    if rows == [] then []
    else
      var rest := Filter(rows[1..], keep);
      assert rows == [rows[0]] + rows[1..];
      if keep(rows[0]) then [rows[0]] + rest else rest
  }

  /** No two rows share a key. */
  ghost predicate KeysDistinct<T, K>(rows: seq<T>, key: T -> K) {
    forall i, j :: 0 <= i < j < |rows| ==> key(rows[i]) != key(rows[j])
  }

  /** Every key lies below `next`, the counter the next insert takes its key from. */
  ghost predicate KeysBelow<T>(rows: seq<T>, key: T -> nat, next: nat) {
    forall i :: 0 <= i < |rows| ==> key(rows[i]) < next
  }

  /** Filtering a table extended by one row filters the old rows and then that row. */
  lemma {:induction false} FilterAppend<T(!new)>(rows: seq<T>, x: T, keep: T -> bool)
    ensures Filter(rows + [x], keep) == Filter(rows, keep) + (if keep(x) then [x] else [])
  {
    if rows == [] {
      assert [x] + [] == [x];
    } else {
      assert (rows + [x])[1..] == rows[1..] + [x];
      FilterAppend(rows[1..], x, keep);
    }
  }

  /** `destroy` removes every copy of a matching row and keeps every copy of the others. */
  lemma {:induction false} FilterCounts<T(!new)>(rows: seq<T>, keep: T -> bool, x: T)
    ensures multiset(Filter(rows, keep))[x] == if keep(x) then multiset(rows)[x] else 0
  {
    if rows != [] {
      FilterCounts(rows[1..], keep, x);
      assert rows == [rows[0]] + rows[1..];
      assert multiset(rows) == multiset([rows[0]]) + multiset(rows[1..]);
      if keep(rows[0]) {
        assert multiset([rows[0]] + Filter(rows[1..], keep))
            == multiset([rows[0]]) + multiset(Filter(rows[1..], keep));
      }
    }
  }

  /** A `destroy` whose condition matches no row leaves the table as it was. */
  lemma {:induction false} FilterKeepsAll<T(!new)>(rows: seq<T>, keep: T -> bool)
    requires forall j :: 0 <= j < |rows| ==> keep(rows[j])
    ensures Filter(rows, keep) == rows
  {
    if rows != [] {
      FilterKeepsAll(rows[1..], keep);
      assert rows == [rows[0]] + rows[1..];
    }
  }

  /** Removing rows never makes two keys collide. */
  lemma {:induction false} FilterKeepsKeysDistinct<T(!new), K>(rows: seq<T>, keep: T -> bool, key: T -> K)
    requires KeysDistinct(rows, key)
    ensures KeysDistinct(Filter(rows, keep), key)
  {
    if rows != [] {
      var tail := rows[1..];
      assert KeysDistinct(tail, key) by {
        forall i, j | 0 <= i < j < |tail| ensures key(tail[i]) != key(tail[j]) {
          assert tail[i] == rows[i + 1] && tail[j] == rows[j + 1];
        }
      }
      FilterKeepsKeysDistinct(tail, keep, key);
      if keep(rows[0]) {
        var rest := Filter(tail, keep);
        var r := [rows[0]] + rest;
        forall j | 0 < j < |r| ensures key(r[0]) != key(r[j]) {
          assert r[j] in tail;
          var k :| 0 <= k < |tail| && tail[k] == r[j];
          assert tail[k] == rows[k + 1];
        }
        forall i, j | 0 <= i < j < |r| ensures key(r[i]) != key(r[j]) {
          if i > 0 {
            assert r[i] == rest[i - 1] && r[j] == rest[j - 1];
          }
        }
      }
    }
  }

  /** Appending a row whose key no row carries keeps the keys distinct. */
  lemma AppendNewKey<T, K>(rows: seq<T>, x: T, key: T -> K)
    requires KeysDistinct(rows, key)
    requires forall y :: y in rows ==> key(y) != key(x)
    ensures KeysDistinct(rows + [x], key)
  {
  }

  /** A table whose keys are distinct and below `key(x)` stays keyed after appending `x`. */
  lemma AppendFreshKey<T>(rows: seq<T>, x: T, key: T -> nat, next: nat)
    requires KeysDistinct(rows, key) && KeysBelow(rows, key, next)
    requires key(x) == next
    ensures KeysDistinct(rows + [x], key) && KeysBelow(rows + [x], key, next + 1)
  {
  }
}
