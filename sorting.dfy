/** `DataFrame.sort_values(by=keys, ascending=...)`: rows ordered on one or more key
    columns, missing keys last. pandas does not promise which of two rows
    with equal keys comes first, so everything proved about a sorted frame
    here rests on two facts only: the result is sorted, and it is a
    permutation of the input. */
module Sorting {
  import opened Cells
  import opened Tables

  /** Row `a` may stand before row `b`: compare the first key column, and on
      a tie the next one. */
  predicate RowBefore(keys: seq<string>, ascending: bool, a: Row, b: Row)
    decreases |keys|
  {
    keys == [] ||
    (SortsBefore(ascending, Get(a, keys[0]), Get(b, keys[0])) &&
     (Get(a, keys[0]) == Get(b, keys[0]) ==> RowBefore(keys[1..], ascending, a, b)))
  }

  /** Comparing rows on key columns is a total preorder. */
  lemma {:induction false} RowBeforeTotalPreorder(keys: seq<string>, ascending: bool, a: Row, b: Row, c: Row)
    ensures RowBefore(keys, ascending, a, a)
    ensures RowBefore(keys, ascending, a, b) || RowBefore(keys, ascending, b, a)
    ensures RowBefore(keys, ascending, a, b) && RowBefore(keys, ascending, b, c) ==> RowBefore(keys, ascending, a, c)
    decreases |keys|
  {
    if keys != [] {
      var u, v, w := Get(a, keys[0]), Get(b, keys[0]), Get(c, keys[0]);
      SortsBeforeTotalOrder(ascending, u, v, w);
      SortsBeforeTotalOrder(ascending, w, u, v);
      RowBeforeTotalPreorder(keys[1..], ascending, a, b, c);
    }
  }

  predicate Sorted(keys: seq<string>, ascending: bool, s: seq<Row>)
  {
    forall i, j :: 0 <= i < j < |s| ==> RowBefore(keys, ascending, s[i], s[j])
  }

  function Insert(keys: seq<string>, ascending: bool, x: Row, s: seq<Row>): seq<Row>
    decreases |s|
  {
    if s == [] then [x]
    else if RowBefore(keys, ascending, x, s[0]) then [x] + s
    else [s[0]] + Insert(keys, ascending, x, s[1..])
  }

  /** Insertion adds exactly `x`. */
  lemma {:induction false} InsertPermutes(keys: seq<string>, ascending: bool, x: Row, s: seq<Row>)
    ensures multiset(Insert(keys, ascending, x, s)) == multiset(s) + multiset{x}
    ensures |Insert(keys, ascending, x, s)| == |s| + 1
    decreases |s|
  {
    if s != [] && !RowBefore(keys, ascending, x, s[0]) {
      InsertPermutes(keys, ascending, x, s[1..]);
      assert s == [s[0]] + s[1..];
    }
  }

  /** Every element of an insertion is `x` or came from `s`. */
  lemma InsertMembers(keys: seq<string>, ascending: bool, x: Row, s: seq<Row>, y: Row)
    requires y in Insert(keys, ascending, x, s)
    ensures y == x || y in s
  {
    InsertPermutes(keys, ascending, x, s);
    assert y in multiset(Insert(keys, ascending, x, s));
  }

  /** Insertion into a sorted sequence keeps it sorted. */
  lemma {:induction false} InsertSorted(keys: seq<string>, ascending: bool, x: Row, s: seq<Row>)
    requires Sorted(keys, ascending, s)
    ensures Sorted(keys, ascending, Insert(keys, ascending, x, s))
    decreases |s|
  {
    if s == [] {
    } else if RowBefore(keys, ascending, x, s[0]) {
      var r := [x] + s;
      forall i, j | 0 <= i < j < |r| ensures RowBefore(keys, ascending, r[i], r[j]) {
        if i == 0 && j > 1 {
          RowBeforeTotalPreorder(keys, ascending, x, s[0], s[j - 1]);
        }
      }
    } else {
      RowBeforeTotalPreorder(keys, ascending, x, s[0], s[0]);
      assert Sorted(keys, ascending, s[1..]) by {
        forall i, j | 0 <= i < j < |s[1..]| ensures RowBefore(keys, ascending, s[1..][i], s[1..][j]) {
          assert s[1..][i] == s[i + 1] && s[1..][j] == s[j + 1];
        }
      }
      InsertSorted(keys, ascending, x, s[1..]);
      var t := Insert(keys, ascending, x, s[1..]);
      var r := [s[0]] + t;
      forall i, j | 0 <= i < j < |r| ensures RowBefore(keys, ascending, r[i], r[j]) {
        if i == 0 {
          assert r[j] == t[j - 1] && t[j - 1] in t;
          InsertMembers(keys, ascending, x, s[1..], t[j - 1]);
          if t[j - 1] != x {
            var k :| 0 <= k < |s[1..]| && s[1..][k] == t[j - 1];
            assert s[k + 1] == t[j - 1];
          }
        } else {
          assert r[i] == t[i - 1] && r[j] == t[j - 1];
        }
      }
    }
  }

  /** `sort_values(by=keys, ascending=ascending)`, as an insertion sort. */
  function SortValues(rows: seq<Row>, keys: seq<string>, ascending: bool): seq<Row>
    decreases |rows|
  {
    if rows == [] then [] else Insert(keys, ascending, rows[0], SortValues(rows[1..], keys, ascending))
  }

  /** The sorted rows are in key order and are the input rows rearranged. */
  lemma {:induction false} SortValuesSpec(rows: seq<Row>, keys: seq<string>, ascending: bool)
    ensures Sorted(keys, ascending, SortValues(rows, keys, ascending))
    ensures multiset(SortValues(rows, keys, ascending)) == multiset(rows)
    ensures |SortValues(rows, keys, ascending)| == |rows|
    decreases |rows|
  {
    if rows != [] {
      var t := SortValues(rows[1..], keys, ascending);
      SortValuesSpec(rows[1..], keys, ascending);
      InsertSorted(keys, ascending, rows[0], t);
      InsertPermutes(keys, ascending, rows[0], t);
      assert rows == [rows[0]] + rows[1..];
    }
  }

  /** Leaving rows out of a sorted sequence keeps it sorted. */
  lemma {:induction false} SortedSubsequence(keys: seq<string>, ascending: bool, a: seq<Row>, b: seq<Row>)
    requires Subsequence(a, b) && Sorted(keys, ascending, b)
    ensures Sorted(keys, ascending, a)
    decreases |b|
  {
    if a != [] {
      assert Sorted(keys, ascending, b[1..]) by {
        forall i, j | 0 <= i < j < |b[1..]| ensures RowBefore(keys, ascending, b[1..][i], b[1..][j]) {
          assert b[1..][i] == b[i + 1] && b[1..][j] == b[j + 1];
        }
      }
      if a[0] == b[0] && Subsequence(a[1..], b[1..]) {
        SortedSubsequence(keys, ascending, a[1..], b[1..]);
        SubsequenceMembers(a[1..], b[1..]);
        forall i, j | 0 <= i < j < |a| ensures RowBefore(keys, ascending, a[i], a[j]) {
          if i == 0 {
            assert a[j] == a[1..][j - 1] && a[1..][j - 1] in a[1..];
            var k :| 0 <= k < |b[1..]| && b[1..][k] == a[j];
            assert b[k + 1] == a[j];
          } else {
            assert a[i] == a[1..][i - 1] && a[j] == a[1..][j - 1];
          }
        }
      } else {
        SortedSubsequence(keys, ascending, a, b[1..]);
      }
    }
  }
}
