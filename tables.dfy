/** Tables as the pipeline sees them: a DataFrame is an ordered list of
    column labels and a sequence of rows, and the pandas primitives the
    pipeline uses on them (boolean filtering, `drop_duplicates`, column
    assignment, `drop`, `nunique`, column selection) become functions on
    those values. A `Table` object stands for a DataFrame that a function
    changes in place. */
module Tables {
  import opened Cells

  /** A row maps each column label to its cell. */
  type Row = map<string, Value>

  datatype Frame = Frame(columns: seq<string>, rows: seq<Row>)

  /** The exceptions the pipeline can raise: `KeyError` for a column that is
      not there, `MergeError` for a merge whose suffixes would give two
      columns the same label. */
  datatype Error = KeyError(column: string) | MergeError

  datatype Result<T> = Ok(value: T) | Err(error: Error)

  /** The end of a function that changes a frame in place: it either returns
      normally or raises. */
  datatype Outcome = Pass | Fail(error: Error)

  /** The cell of `r` in column `c`; a row without that column reads as missing. */
  function Get(r: Row, c: string): Value
  {
    if c in r then r[c] else Missing
  }

  predicate Distinct<T(==)>(s: seq<T>)
  {
    forall i, j :: 0 <= i < j < |s| ==> s[i] != s[j]
  }

  function ColumnSet(cols: seq<string>): set<string>
  {
    set c | c in cols
  }

  /** A DataFrame's shape: distinct labels, and every row has exactly those columns. */
  predicate WellFormed(f: Frame)
  {
    Distinct(f.columns) && forall r :: r in f.rows ==> r.Keys == ColumnSet(f.columns)
  }

  /** Two rows agree on the given columns. */
  predicate AgreeOn(x: Row, y: Row, cols: seq<string>)
  {
    forall c :: c in cols ==> Get(x, c) == Get(y, c)
  }

  /** Some row of `g` has the cells of `r` in `cols`. */
  predicate Shows(g: seq<Row>, r: Row, cols: seq<string>)
  {
    exists j :: 0 <= j < |g| && AgreeOn(g[j], r, cols)
  }

  /** A row that shows in one part shows in the whole. */
  lemma ShowsConcat(a: seq<Row>, b: seq<Row>, r: Row, cols: seq<string>)
    requires Shows(a, r, cols) || Shows(b, r, cols)
    ensures Shows(a + b, r, cols)
  {
    if Shows(a, r, cols) {
      var j :| 0 <= j < |a| && AgreeOn(a[j], r, cols);
      assert (a + b)[j] == a[j];
    } else {
      var j :| 0 <= j < |b| && AgreeOn(b[j], r, cols);
      assert (a + b)[|a| + j] == b[j];
    }
  }

  /** Each row of `l` shows up in `g` with the same cells in `cols`. */
  predicate Covers(g: seq<Row>, l: seq<Row>, cols: seq<string>)
  {
    forall i :: 0 <= i < |l| ==> Shows(g, l[i], cols)
  }

  /** Row `g` agrees in `cols` with some row of `l`. */
  predicate TracedTo(g: Row, l: seq<Row>, cols: seq<string>)
  {
    exists i :: 0 <= i < |l| && AgreeOn(g, l[i], cols)
  }

  /** Every row of `g` agrees in `cols` with some row of `l`. */
  predicate Traces(g: seq<Row>, l: seq<Row>, cols: seq<string>)
  {
    forall j :: 0 <= j < |g| ==> TracedTo(g[j], l, cols)
  }

  /** Tracing is transitive, on the labels of the far end. */
  lemma TracesTransitive(x: seq<Row>, y: seq<Row>, z: seq<Row>, ycols: seq<string>, cols: seq<string>)
    requires Traces(x, y, ycols) && Traces(y, z, cols)
    requires forall c :: c in cols ==> c in ycols
    ensures Traces(x, z, cols)
  {
    forall j | 0 <= j < |x| ensures TracedTo(x[j], z, cols) {
      var k :| 0 <= k < |y| && AgreeOn(x[j], y[k], ycols);
      assert TracedTo(y[k], z, cols);
      var i :| 0 <= i < |z| && AgreeOn(y[k], z[i], cols);
      assert AgreeOn(x[j], z[i], cols);
    }
  }

  /** Covering is transitive. */
  lemma CoversTransitive(x: seq<Row>, y: seq<Row>, z: seq<Row>, cols: seq<string>)
    requires Covers(x, y, cols) && Covers(y, z, cols)
    ensures Covers(x, z, cols)
  {
    forall i | 0 <= i < |z| ensures Shows(x, z[i], cols) {
      assert Shows(y, z[i], cols);
      var k :| 0 <= k < |y| && AgreeOn(y[k], z[i], cols);
      assert Shows(x, y[k], cols);
      var j :| 0 <= j < |x| && AgreeOn(x[j], y[k], cols);
      assert AgreeOn(x[j], z[i], cols) by {
        forall c | c in cols ensures Get(x[j], c) == Get(z[i], c) {
          assert Get(x[j], c) == Get(y[k], c);
        }
      }
    }
  }

  /** Agreeing on some labels means agreeing on fewer. */
  lemma CoversFewer(g: seq<Row>, l: seq<Row>, more: seq<string>, fewer: seq<string>)
    requires Covers(g, l, more)
    requires forall c :: c in fewer ==> c in more
    ensures Covers(g, l, fewer)
  {
    forall i | 0 <= i < |l| ensures Shows(g, l[i], fewer) {
      assert Shows(g, l[i], more);
      var j :| 0 <= j < |g| && AgreeOn(g[j], l[i], more);
      assert AgreeOn(g[j], l[i], fewer);
    }
  }

  // ---------------------------------------------------------------------
  // Filtering and order

  /** Boolean-mask selection `s[mask]`: the elements that pass, in order. */
  function Filter<T>(s: seq<T>, p: T -> bool): (r: seq<T>)
    ensures |r| <= |s|
    ensures forall x :: x in r ==> x in s && p(x)
    ensures forall x :: x in s && p(x) ==> x in r
    decreases |s|
  {
    if s == [] then [] else (if p(s[0]) then [s[0]] else []) + Filter(s[1..], p)
  }

  /** Filtering commutes with concatenation, so it keeps relative order. */
  lemma {:induction false} FilterConcat<T>(a: seq<T>, b: seq<T>, p: T -> bool)
    ensures Filter(a + b, p) == Filter(a, p) + Filter(b, p)
    decreases |a|
  {
    if a != [] {
      var ab := a + b;
      assert ab[0] == a[0];
      assert ab[1..] == a[1..] + b;
      FilterConcat(a[1..], b, p);
      var h := if p(a[0]) then [a[0]] else [];
      var fa, fb, fr := Filter(a[1..], p), Filter(b, p), Filter(a[1..] + b, p);
      assert Filter(ab, p) == h + fr;
      assert Filter(a, p) == h + fa;
      assert h + (fa + fb) == (h + fa) + fb;
    } else {
      assert a + b == b;
    }
  }

  /** Filtering a sequence extended by one element. */
  lemma FilterSnoc<T>(a: seq<T>, x: T, p: T -> bool)
    ensures Filter(a + [x], p) == Filter(a, p) + (if p(x) then [x] else [])
  {
    FilterConcat(a, [x], p);
    assert Filter([x], p) == (if p(x) then [x] else []) + Filter([x][1..], p);
  }

  /** `a` is `b` with some elements left out, the rest in their order. */
  predicate Subsequence<T(==)>(a: seq<T>, b: seq<T>)
    decreases |b|
  {
    a == [] || (b != [] && ((a[0] == b[0] && Subsequence(a[1..], b[1..])) || Subsequence(a, b[1..])))
  }

  lemma {:induction false} FilterIsSubsequence<T>(s: seq<T>, p: T -> bool)
    ensures Subsequence(Filter(s, p), s)
    decreases |s|
  {
    if s != [] {
      FilterIsSubsequence(s[1..], p);
      if p(s[0]) {
        assert Filter(s, p) == [s[0]] + Filter(s[1..], p);
        assert Filter(s, p)[1..] == Filter(s[1..], p);
      } else {
        assert Filter(s, p) == Filter(s[1..], p);
      }
    }
  }

  /** A subsequence of distinct labels has distinct labels. */
  lemma {:induction false} SubsequenceDistinct(a: seq<string>, b: seq<string>)
    requires Subsequence(a, b) && Distinct(b)
    ensures Distinct(a)
    decreases |b|
  {
    if a != [] {
      assert Distinct(b[1..]) by {
        forall i, j | 0 <= i < j < |b[1..]| ensures b[1..][i] != b[1..][j] {
          assert b[1..][i] == b[i + 1] && b[1..][j] == b[j + 1];
        }
      }
      if a[0] == b[0] && Subsequence(a[1..], b[1..]) {
        SubsequenceDistinct(a[1..], b[1..]);
        SubsequenceMembers(a[1..], b[1..]);
        forall i, j | 0 <= i < j < |a| ensures a[i] != a[j] {
          if i == 0 {
            assert a[j] == a[1..][j - 1] && a[1..][j - 1] in a[1..];
            var k :| 0 <= k < |b[1..]| && b[1..][k] == a[j];
            assert b[k + 1] == a[j];
          } else {
            assert a[i] == a[1..][i - 1] && a[j] == a[1..][j - 1];
          }
        }
      } else {
        SubsequenceDistinct(a, b[1..]);
      }
    }
  }

  // ---------------------------------------------------------------------
  // drop_duplicates(subset=[key]), keep='first'

  /** Row `i` is the first row carrying its key; missing keys count as equal
      to one another, as they do in `drop_duplicates`. */
  predicate FirstOccurrence(rows: seq<Row>, key: string, i: int)
    requires 0 <= i < |rows|
  {
    forall j :: 0 <= j < i ==> Get(rows[j], key) != Get(rows[i], key)
  }

  function KeySet(rows: seq<Row>, key: string): set<Value>
  {
    set r | r in rows :: Get(r, key)
  }

  /** No two rows share a key. */
  predicate KeyUnique(rows: seq<Row>, key: string)
  {
    forall i, j :: 0 <= i < j < |rows| ==> Get(rows[i], key) != Get(rows[j], key)
  }

  /** `drop_duplicates(subset=[key])`, keeping the first row of each key. */
  function DropDuplicates(rows: seq<Row>, key: string): seq<Row>
    decreases |rows|
  {
    if rows == [] then []
    else
      var n := |rows| - 1;
      DropDuplicates(rows[..n], key) + (if FirstOccurrence(rows, key, n) then [rows[n]] else [])
  }

  /** The last row is its key's first occurrence exactly when no earlier row
      carries that key. */
  lemma LastIsFirstOccurrence(rows: seq<Row>, key: string)
    requires rows != []
    ensures FirstOccurrence(rows, key, |rows| - 1) <==> Get(rows[|rows| - 1], key) !in KeySet(rows[..|rows| - 1], key)
  {
    var n := |rows| - 1;
    if Get(rows[n], key) in KeySet(rows[..n], key) {
      var w :| w in rows[..n] && Get(w, key) == Get(rows[n], key);
      var j :| 0 <= j < n && rows[..n][j] == w;
    } else {
      forall j | 0 <= j < n ensures Get(rows[j], key) != Get(rows[n], key) {
        assert rows[j] in rows[..n];
      }
    }
  }

  /** The kept rows are input rows, in input order, and every key of the
      input is still there. */
  lemma {:induction false} DropDuplicatesKeepsOrder(rows: seq<Row>, key: string)
    ensures Subsequence(DropDuplicates(rows, key), rows)
    ensures KeySet(DropDuplicates(rows, key), key) == KeySet(rows, key)
    decreases |rows|
  {
    if rows != [] {
      var n := |rows| - 1;
      var init := rows[..n];
      var kept := DropDuplicates(init, key);
      DropDuplicatesKeepsOrder(init, key);
      assert rows == init + [rows[n]];
      assert KeySet(rows, key) == KeySet(init, key) + {Get(rows[n], key)};
      LastIsFirstOccurrence(rows, key);
      if FirstOccurrence(rows, key, n) {
        assert DropDuplicates(rows, key) == kept + [rows[n]];
        SubsequenceAppend(kept, init, rows[n]);
        assert KeySet(kept + [rows[n]], key) == KeySet(kept, key) + {Get(rows[n], key)};
      } else {
        assert DropDuplicates(rows, key) == kept;
        SubsequenceExtend(kept, init, rows[n]);
      }
    }
  }

  /** After `drop_duplicates` no two rows share a key. */
  lemma {:induction false} DropDuplicatesUnique(rows: seq<Row>, key: string)
    ensures KeyUnique(DropDuplicates(rows, key), key)
    decreases |rows|
  {
    if rows != [] {
      var n := |rows| - 1;
      var init := rows[..n];
      var kept := DropDuplicates(init, key);
      DropDuplicatesUnique(init, key);
      DropDuplicatesKeepsOrder(init, key);
      LastIsFirstOccurrence(rows, key);
      if FirstOccurrence(rows, key, n) {
        var r := kept + [rows[n]];
        forall i, j | 0 <= i < j < |r| ensures Get(r[i], key) != Get(r[j], key) {
          if j == |r| - 1 {
            assert r[i] in kept;
            assert Get(r[i], key) in KeySet(kept, key);
          }
        }
      }
    }
  }

  /** Each kept row comes no later than any input row with its key: it is
      that key's first row. */
  lemma {:induction false} DropDuplicatesKeepsFirst(rows: seq<Row>, key: string, y: Row, j: int)
    requires y in DropDuplicates(rows, key)
    requires 0 <= j < |rows| && Get(rows[j], key) == Get(y, key)
    ensures y in rows[..j + 1]
    decreases |rows|
  {
    var n := |rows| - 1;
    var init := rows[..n];
    var kept := DropDuplicates(init, key);
    if y in kept {
      DropDuplicatesKeepsOrder(init, key);
      SubsequenceMembers(kept, init);
      if j < n {
        DropDuplicatesKeepsFirst(init, key, y, j);
        assert rows[..j + 1] == init[..j + 1];
      } else {
        assert init <= rows[..j + 1];
      }
    } else {
      assert DropDuplicates(rows, key) == kept + (if FirstOccurrence(rows, key, n) then [rows[n]] else []);
      assert y == rows[n] && FirstOccurrence(rows, key, n);
      if j < n {
        assert false;
      }
      assert rows[..j + 1][j] == rows[n];
    }
  }

  lemma {:induction false} SubsequenceExtend<T>(a: seq<T>, b: seq<T>, x: T)
    requires Subsequence(a, b)
    ensures Subsequence(a, b + [x])
    decreases |b|
  {
    if a != [] {
      assert (b + [x])[1..] == b[1..] + [x];
      if a[0] == b[0] && Subsequence(a[1..], b[1..]) {
        SubsequenceExtend(a[1..], b[1..], x);
      } else {
        SubsequenceExtend(a, b[1..], x);
      }
    }
  }

  lemma {:induction false} SubsequenceAppend<T>(a: seq<T>, b: seq<T>, x: T)
    requires Subsequence(a, b)
    ensures Subsequence(a + [x], b + [x])
    decreases |b|
  {
    if a == [] {
      if b != [] {
        assert (b + [x])[1..] == b[1..] + [x];
        SubsequenceAppend(a, b[1..], x);
      }
    } else {
      assert (b + [x])[1..] == b[1..] + [x];
      assert (a + [x])[1..] == a[1..] + [x];
      if a[0] == b[0] && Subsequence(a[1..], b[1..]) {
        SubsequenceAppend(a[1..], b[1..], x);
      } else {
        SubsequenceAppend(a, b[1..], x);
      }
    }
  }

  /** Elements of a subsequence come from the sequence. */
  lemma {:induction false} SubsequenceMembers<T>(a: seq<T>, b: seq<T>)
    requires Subsequence(a, b)
    ensures forall x :: x in a ==> x in b
    decreases |b|
  {
    if a != [] {
      if a[0] == b[0] && Subsequence(a[1..], b[1..]) {
        SubsequenceMembers(a[1..], b[1..]);
        assert a == [a[0]] + a[1..];
      } else {
        SubsequenceMembers(a, b[1..]);
      }
    }
  }

  // ---------------------------------------------------------------------
  // Columns

  /** The cells of column `c`, top to bottom (`df[c]`). */
  function Column(f: Frame, c: string): seq<Value>
  {
    seq(|f.rows|, i requires 0 <= i < |f.rows| => Get(f.rows[i], c))
  }

  /** The distinct non-missing cells of column `c`. */
  function PresentValues(f: Frame, c: string): set<Value>
  {
    set v | v in Column(f, c) && !v.Missing?
  }

  /** `df[c].nunique()`: missing cells are not counted. */
  function NUnique(f: Frame, c: string): nat
  {
    |PresentValues(f, c)|
  }

  /** A column has at most one distinct value exactly when all its present
      cells are equal (an all-missing column included). */
  lemma NUniqueAtMostOne(f: Frame, c: string)
    ensures NUnique(f, c) <= 1 <==>
      forall i, j :: 0 <= i < |f.rows| && 0 <= j < |f.rows| && !Get(f.rows[i], c).Missing? && !Get(f.rows[j], c).Missing?
        ==> Get(f.rows[i], c) == Get(f.rows[j], c)
  {
    var s := PresentValues(f, c);
    var col := Column(f, c);
    if NUnique(f, c) <= 1 {
      forall i, j | 0 <= i < |f.rows| && 0 <= j < |f.rows| && !Get(f.rows[i], c).Missing? && !Get(f.rows[j], c).Missing?
        ensures Get(f.rows[i], c) == Get(f.rows[j], c)
      {
        var a, b := Get(f.rows[i], c), Get(f.rows[j], c);
        assert col[i] == a && col[j] == b;
        assert a in s && b in s;
        if a != b {
          assert {a, b} <= s;
          assert |{a, b}| == 2;
          SubsetCard({a, b}, s);
        }
      }
    } else {
      var a :| a in s;
      assert |s - {a}| == |s| - 1;
      var b :| b in s - {a};
      assert a in col && b in col;
      var i :| 0 <= i < |col| && col[i] == a;
      var j :| 0 <= j < |col| && col[j] == b;
    }
  }

  lemma SubsetCard<T>(a: set<T>, b: set<T>)
    requires a <= b
    ensures |a| <= |b|
  {
    assert b == a + (b - a);
  }

  /** Column assignment `df[c] = vals`: an existing column is overwritten
      where it stands, a new one is appended on the right. */
  function WithColumn(f: Frame, c: string, vals: seq<Value>): Frame
    requires |vals| == |f.rows|
  {
    Frame(if c in f.columns then f.columns else f.columns + [c],
          seq(|f.rows|, i requires 0 <= i < |f.rows| => f.rows[i][c := vals[i]]))
  }

  /** Assigning a column keeps the frame's shape, adds `c` to the labels,
      fills it with `vals` and leaves every other cell as it was. */
  lemma WithColumnShape(f: Frame, c: string, vals: seq<Value>)
    requires |vals| == |f.rows|
    requires WellFormed(f)
    ensures WellFormed(WithColumn(f, c, vals))
    ensures ColumnSet(WithColumn(f, c, vals).columns) == ColumnSet(f.columns) + {c}
    ensures |WithColumn(f, c, vals).rows| == |f.rows|
    ensures forall i :: 0 <= i < |f.rows| ==> Get(WithColumn(f, c, vals).rows[i], c) == vals[i]
    ensures forall i, d :: 0 <= i < |f.rows| && d != c ==> Get(WithColumn(f, c, vals).rows[i], d) == Get(f.rows[i], d)
  {
    var g := WithColumn(f, c, vals);
    assert ColumnSet(g.columns) == ColumnSet(f.columns) + {c};
    forall r | r in g.rows ensures r.Keys == ColumnSet(g.columns) {
      var i :| 0 <= i < |g.rows| && g.rows[i] == r;
      assert f.rows[i] in f.rows;
    }
  }

  /** The labels after assigning the columns `added`, in order, to a
      frame labelled `cols`: a label already there keeps its place, the
      others are appended in the order they are assigned. */
  function AddedLabels(cols: seq<string>, added: seq<string>): seq<string>
  {
    cols + Filter(added, (c: string) => c !in cols)
  }

  /** Assigning one more column, not assigned before, extends the labels. */
  lemma WithColumnLabels(f: Frame, c: string, vals: seq<Value>, base: seq<string>, added: seq<string>)
    requires |vals| == |f.rows|
    requires f.columns == AddedLabels(base, added) && c !in added
    ensures WithColumn(f, c, vals).columns == AddedLabels(base, added + [c])
  {
    FilterSnoc(added, c, (x: string) => x !in base);
  }

  /** The labels `cols` without `c`. */
  function Remove(cols: seq<string>, c: string): (r: seq<string>)
    ensures forall x :: x in r <==> x in cols && x != c
    decreases |cols|
  {
    if cols == [] then []
    else
      assert cols == [cols[0]] + cols[1..];
      if cols[0] == c then Remove(cols[1..], c) else [cols[0]] + Remove(cols[1..], c)
  }

  /** Removing a label takes it out of the label set. */
  lemma RemoveLabels(cols: seq<string>, c: string)
    ensures ColumnSet(Remove(cols, c)) == ColumnSet(cols) - {c}
  {
  }

  /** Removing a label that is not there changes nothing. */
  lemma {:induction false} RemoveAbsent(cols: seq<string>, c: string)
    requires c !in cols
    ensures Remove(cols, c) == cols
    decreases |cols|
  {
    if cols != [] {
      assert cols == [cols[0]] + cols[1..];
      RemoveAbsent(cols[1..], c);
    }
  }

  lemma {:induction false} RemoveSplit(a: seq<string>, c: string, b: seq<string>)
    requires c !in a && c !in b
    ensures Remove(a + [c] + b, c) == a + b
    decreases |a|
  {
    var x := a + [c] + b;
    if a == [] {
      assert x[0] == c && x[1..] == b;
      RemoveAbsent(b, c);
    } else {
      assert x[0] == a[0] && a[0] != c;
      assert x[1..] == a[1..] + [c] + b;
      assert a == [a[0]] + a[1..];
      RemoveSplit(a[1..], c, b);
      assert Remove(x, c) == [a[0]] + Remove(x[1..], c);
      assert [a[0]] + (a[1..] + b) == a + b;
    }
  }

  /** `df.drop(columns=[c])`. */
  function DropColumn(f: Frame, c: string): Frame
  {
    Frame(Remove(f.columns, c), seq(|f.rows|, i requires 0 <= i < |f.rows| => f.rows[i] - {c}))
  }

  /** The row cut down to the given columns. */
  function Restrict(r: Row, cols: set<string>): Row
  {
    map c | c in r && c in cols :: r[c]
  }

  /** Column selection `df[cols]`. */
  function Select(f: Frame, cols: seq<string>): Frame
  {
    Frame(cols, seq(|f.rows|, i requires 0 <= i < |f.rows| => Restrict(f.rows[i], ColumnSet(cols))))
  }

  /** Selecting distinct labels that all exist keeps a frame well formed. */
  lemma SelectWellFormed(f: Frame, cols: seq<string>)
    requires WellFormed(f) && Distinct(cols)
    requires forall c :: c in cols ==> c in f.columns
    ensures WellFormed(Select(f, cols))
  {
    var g := Select(f, cols);
    forall r | r in g.rows ensures r.Keys == ColumnSet(cols) {
      var k :| 0 <= k < |g.rows| && g.rows[k] == r;
      assert f.rows[k] in f.rows;
    }
  }

  // ---------------------------------------------------------------------
  // A DataFrame changed in place

  /** A DataFrame object that functions modify in place. */
  class Table {
    var columns: seq<string>
    var rows: seq<Row>

    constructor (f: Frame)
      ensures Snapshot() == f
    {
      columns := f.columns;
      rows := f.rows;
    }

    /** The frame the object holds now. */
    function Snapshot(): Frame
      reads this
    {
      Frame(columns, rows)
    }

    /** `df[c] = vals` on this object. */
    method Assign(c: string, vals: seq<Value>)
      requires |vals| == |rows|
      modifies this
      ensures Snapshot() == WithColumn(old(Snapshot()), c, vals)
    {
      var f := Snapshot();
      columns := WithColumn(f, c, vals).columns;
      rows := WithColumn(f, c, vals).rows;
    }
  }
}
