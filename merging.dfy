/** `left.merge(right, on=key, how="left", suffixes=("", suffix))`: every
    left row, in order, is paired with each right row that has the same key
    (in right-hand order), or, when none does, with missing cells. As in
    pandas, two missing keys match each other. */
module Merging {
  import opened Cells
  import opened Tables

  /** The labels the right-hand columns other than the key get: a label the
      left frame already has takes the suffix. */
  function Renamed(carried: seq<string>, left: seq<string>, suffix: string): seq<string>
  {
    seq(|carried|, i requires 0 <= i < |carried| => if carried[i] in left then carried[i] + suffix else carried[i])
  }

  /** `base` extended with the cells of `src` in the `carried` columns,
      filed under `names`; an empty `src` gives missing cells. */
  function Attach(base: Row, src: Row, carried: seq<string>, names: seq<string>): Row
    requires |carried| == |names|
    decreases |carried|
  {
    if carried == [] then base
    else Attach(base[names[0] := Get(src, carried[0])], src, carried[1..], names[1..])
  }

  /** Attaching fills each new label from its source column and leaves the
      other cells alone. */
  lemma {:induction false} AttachSpec(base: Row, src: Row, carried: seq<string>, names: seq<string>)
    requires |carried| == |names| && Distinct(names)
    ensures forall c :: c !in names ==> Get(Attach(base, src, carried, names), c) == Get(base, c)
    ensures forall k :: 0 <= k < |names| ==> Get(Attach(base, src, carried, names), names[k]) == Get(src, carried[k])
    decreases |carried|
  {
    if carried != [] {
      var b := base[names[0] := Get(src, carried[0])];
      AttachSpec(b, src, carried[1..], names[1..]);
      forall k | 0 <= k < |names| ensures Get(Attach(base, src, carried, names), names[k]) == Get(src, carried[k]) {
        if k > 0 {
          assert names[1..][k - 1] == names[k];
        } else {
          assert names[0] !in names[1..];
        }
      }
    }
  }

  /** The rows of `right` whose key equals `v`. */
  function Matching(right: seq<Row>, key: string, v: Value): seq<Row>
  {
    Filter(right, (r: Row) => Get(r, key) == v)
  }

  /** The output rows one left row gives rise to. */
  function JoinOne(l: Row, right: seq<Row>, key: string, carried: seq<string>, names: seq<string>): seq<Row>
    requires |carried| == |names|
  {
    var m := Matching(right, key, Get(l, key));
    if m == [] then [Attach(l, map[], carried, names)]
    else seq(|m|, i requires 0 <= i < |m| => Attach(l, m[i], carried, names))
  }

  function JoinAll(left: seq<Row>, right: seq<Row>, key: string, carried: seq<string>, names: seq<string>): seq<Row>
    requires |carried| == |names|
    decreases |left|
  {
    if left == [] then [] else JoinOne(left[0], right, key, carried, names) + JoinAll(left[1..], right, key, carried, names)
  }

  /** The labels of the merged frame. */
  function MergedColumns(left: Frame, right: Frame, key: string, suffix: string): seq<string>
  {
    left.columns + Renamed(Remove(right.columns, key), left.columns, suffix)
  }

  /** `left.merge(right, on=key, how="left", suffixes=("", suffix))`. */
  function LeftMerge(left: Frame, right: Frame, key: string, suffix: string): Result<Frame>
  {
    if key !in left.columns || key !in right.columns then Err(KeyError(key))
    else if !Distinct(MergedColumns(left, right, key, suffix)) then Err(MergeError)
    else
      var carried := Remove(right.columns, key);
      var names := Renamed(carried, left.columns, suffix);
      Ok(Frame(left.columns + names, JoinAll(left.rows, right.rows, key, carried, names)))
  }

  /** A merge fails exactly when the key is absent from either side or the
      suffixed labels collide; otherwise the left labels come first, then
      the right-hand labels other than the key, and a well-formed pair of
      frames gives a well-formed result. */
  lemma LeftMergeShape(left: Frame, right: Frame, key: string, suffix: string)
    requires WellFormed(left) && WellFormed(right)
    ensures LeftMerge(left, right, key, suffix).Ok? <==>
      key in left.columns && key in right.columns && Distinct(MergedColumns(left, right, key, suffix))
    ensures LeftMerge(left, right, key, suffix).Ok? ==>
      var g := LeftMerge(left, right, key, suffix).value;
      && g.columns == MergedColumns(left, right, key, suffix)
      && ColumnSet(g.columns) == ColumnSet(left.columns) + ColumnSet(Renamed(Remove(right.columns, key), left.columns, suffix))
      && WellFormed(g)
  {
    if LeftMerge(left, right, key, suffix).Ok? {
      var carried := Remove(right.columns, key);
      var names := Renamed(carried, left.columns, suffix);
      var g := LeftMerge(left, right, key, suffix).value;
      DistinctSuffix(left.columns, names);
      JoinAllKeys(left.rows, right.rows, key, carried, names, ColumnSet(left.columns));
      assert ColumnSet(g.columns) == ColumnSet(left.columns) + ColumnSet(names);
    }
  }

  lemma DistinctSuffix(a: seq<string>, b: seq<string>)
    requires Distinct(a + b)
    ensures Distinct(a) && Distinct(b)
    ensures forall c :: c in b ==> c !in a
  {
    forall i, j | 0 <= i < j < |b| ensures b[i] != b[j] {
      assert (a + b)[|a| + i] == b[i] && (a + b)[|a| + j] == b[j];
    }
    forall c | c in b ensures c !in a {
      var j :| 0 <= j < |b| && b[j] == c;
      forall i | 0 <= i < |a| ensures a[i] != c {
        assert (a + b)[i] == a[i] && (a + b)[|a| + j] == b[j];
      }
    }
    forall i, j | 0 <= i < j < |a| ensures a[i] != a[j] {
      assert (a + b)[i] == a[i] && (a + b)[j] == a[j];
    }
  }

  lemma {:induction false} JoinAllKeys(left: seq<Row>, right: seq<Row>, key: string, carried: seq<string>, names: seq<string>, cols: set<string>)
    requires |carried| == |names| && Distinct(names)
    requires forall l :: l in left ==> l.Keys == cols
    ensures forall r :: r in JoinAll(left, right, key, carried, names) ==> r.Keys == cols + ColumnSet(names)
    decreases |left|
  {
    if left != [] {
      var one := JoinOne(left[0], right, key, carried, names);
      var rest := JoinAll(left[1..], right, key, carried, names);
      assert left[0] in left;
      JoinAllKeys(left[1..], right, key, carried, names, cols);
      JoinOneKeys(left[0], right, key, carried, names);
      forall r: Row | r in one + rest ensures r.Keys == cols + ColumnSet(names) {
        assert r in one || r in rest;
      }
    }
  }

  /** Each output row of one left row has its labels and the new ones. */
  lemma JoinOneKeys(l: Row, right: seq<Row>, key: string, carried: seq<string>, names: seq<string>)
    requires |carried| == |names|
    ensures forall r :: r in JoinOne(l, right, key, carried, names) ==> r.Keys == l.Keys + ColumnSet(names)
  {
    var m := Matching(right, key, Get(l, key));
    var out := JoinOne(l, right, key, carried, names);
    forall r | r in out ensures r.Keys == l.Keys + ColumnSet(names) {
      if m == [] {
        AttachKeys(l, map[], carried, names);
      } else {
        var i :| 0 <= i < |m| && out[i] == r;
        AttachKeys(l, m[i], carried, names);
      }
    }
  }

  /** Attaching adds exactly the new labels. */
  lemma {:induction false} AttachKeys(base: Row, src: Row, carried: seq<string>, names: seq<string>)
    requires |carried| == |names|
    ensures Attach(base, src, carried, names).Keys == base.Keys + ColumnSet(names)
    decreases |carried|
  {
    if carried != [] {
      AttachKeys(base[names[0] := Get(src, carried[0])], src, carried[1..], names[1..]);
      assert ColumnSet(names) == {names[0]} + ColumnSet(names[1..]);
    }
  }

  /** Each output row of one left row agrees with it on the left columns,
      and there is at least one. */
  lemma JoinOneAgrees(l: Row, right: seq<Row>, key: string, carried: seq<string>, names: seq<string>, cols: seq<string>)
    requires |carried| == |names| && Distinct(names)
    requires forall c :: c in names ==> c !in cols
    ensures |JoinOne(l, right, key, carried, names)| >= 1
    ensures forall r :: r in JoinOne(l, right, key, carried, names) ==> AgreeOn(r, l, cols)
  {
    var m := Matching(right, key, Get(l, key));
    AttachSpec(l, map[], carried, names);
    forall r | r in JoinOne(l, right, key, carried, names) ensures AgreeOn(r, l, cols) {
      if m != [] {
        var i :| 0 <= i < |m| && r == Attach(l, m[i], carried, names);
        AttachSpec(l, m[i], carried, names);
      }
    }
  }

  /** With a unique key on the right, each left row gives exactly one row. */
  lemma {:induction false} MatchingUnique(right: seq<Row>, key: string, v: Value)
    requires KeyUnique(right, key)
    ensures |Matching(right, key, v)| <= 1
    decreases |right|
  {
    if right != [] {
      assert KeyUnique(right[1..], key) by {
        forall i, j | 0 <= i < j < |right[1..]| ensures Get(right[1..][i], key) != Get(right[1..][j], key) {
          assert right[1..][i] == right[i + 1] && right[1..][j] == right[j + 1];
        }
      }
      MatchingUnique(right[1..], key, v);
      if Get(right[0], key) == v {
        forall x | x in right[1..] ensures Get(x, key) != v {
          var k :| 0 <= k < |right[1..]| && right[1..][k] == x;
          assert right[1..][k] == right[k + 1];
        }
        NoneMatching(right[1..], key, v);
      }
    }
  }

  lemma {:induction false} NoneMatching(right: seq<Row>, key: string, v: Value)
    requires forall x :: x in right ==> Get(x, key) != v
    ensures Matching(right, key, v) == []
    decreases |right|
  {
    if right != [] {
      NoneMatching(right[1..], key, v);
      assert right[0] in right;
    }
  }

  /** Every left row gives at least one output row; a unique key on the
      right gives exactly one, agreeing with it on the left columns. */
  lemma {:induction false} JoinAllCount(left: seq<Row>, right: seq<Row>, key: string, carried: seq<string>, names: seq<string>, cols: seq<string>)
    requires |carried| == |names| && Distinct(names)
    requires forall c :: c in names ==> c !in cols
    ensures |JoinAll(left, right, key, carried, names)| >= |left|
    ensures KeyUnique(right, key) ==>
      |JoinAll(left, right, key, carried, names)| == |left| &&
      forall i :: 0 <= i < |left| ==> AgreeOn(JoinAll(left, right, key, carried, names)[i], left[i], cols)
    decreases |left|
  {
    if left != [] {
      var one := JoinOne(left[0], right, key, carried, names);
      var rest := JoinAll(left[1..], right, key, carried, names);
      var all := JoinAll(left, right, key, carried, names);
      assert all == one + rest;
      JoinOneAgrees(left[0], right, key, carried, names, cols);
      JoinAllCount(left[1..], right, key, carried, names, cols);
      if KeyUnique(right, key) {
        MatchingUnique(right, key, Get(left[0], key));
        assert |one| == 1 && one[0] in one;
        AgreeOnCons(one[0], rest, left, cols);
      }
    }
  }

  /** Row by row agreement extends to one more row in front. */
  lemma AgreeOnCons(x: Row, rest: seq<Row>, left: seq<Row>, cols: seq<string>)
    requires |left| == |rest| + 1 && AgreeOn(x, left[0], cols)
    requires forall i :: 0 <= i < |rest| ==> AgreeOn(rest[i], left[1..][i], cols)
    ensures forall i :: 0 <= i < |left| ==> AgreeOn(([x] + rest)[i], left[i], cols)
  {
    forall i | 0 <= i < |left| ensures AgreeOn(([x] + rest)[i], left[i], cols) {
      if i > 0 {
        assert ([x] + rest)[i] == rest[i - 1] && left[1..][i - 1] == left[i];
      }
    }
  }

  /** Every left row appears in the output, with its left-hand cells intact. */
  lemma {:induction false} JoinAllCovers(left: seq<Row>, right: seq<Row>, key: string, carried: seq<string>, names: seq<string>, cols: seq<string>, i: int)
    requires |carried| == |names| && Distinct(names)
    requires forall c :: c in names ==> c !in cols
    requires 0 <= i < |left|
    ensures Shows(JoinAll(left, right, key, carried, names), left[i], cols)
    decreases |left|
  {
    var one := JoinOne(left[0], right, key, carried, names);
    var rest := JoinAll(left[1..], right, key, carried, names);
    var all := JoinAll(left, right, key, carried, names);
    assert all == one + rest;
    if i == 0 {
      JoinOneAgrees(left[0], right, key, carried, names, cols);
      assert one[0] in one;
      assert Shows(one, left[0], cols);
    } else {
      JoinAllCovers(left[1..], right, key, carried, names, cols, i - 1);
      assert left[1..][i - 1] == left[i];
    }
    ShowsConcat(one, rest, left[i], cols);
  }

  /** Every output row comes from a left row, whose left-hand cells it keeps. */
  lemma {:induction false} JoinAllOrigin(left: seq<Row>, right: seq<Row>, key: string, carried: seq<string>, names: seq<string>, cols: seq<string>, j: int)
    requires |carried| == |names| && Distinct(names)
    requires forall c :: c in names ==> c !in cols
    requires 0 <= j < |JoinAll(left, right, key, carried, names)|
    ensures exists i :: 0 <= i < |left| && AgreeOn(JoinAll(left, right, key, carried, names)[j], left[i], cols)
    decreases |left|
  {
    var one := JoinOne(left[0], right, key, carried, names);
    var rest := JoinAll(left[1..], right, key, carried, names);
    var all := JoinAll(left, right, key, carried, names);
    assert all == one + rest;
    if j < |one| {
      JoinOneAgrees(left[0], right, key, carried, names, cols);
      assert all[j] == one[j] && one[j] in one;
      assert AgreeOn(all[j], left[0], cols);
    } else {
      JoinAllOrigin(left[1..], right, key, carried, names, cols, j - |one|);
      assert all[j] == rest[j - |one|];
      var i :| 0 <= i < |left[1..]| && AgreeOn(rest[j - |one|], left[1..][i], cols);
      assert left[1..][i] == left[i + 1];
    }
  }

  /** A successful left merge keeps every left row and, when the key is
      unique on the right, adds none: one output row per left row, in order,
      with the left-hand cells unchanged. */
  lemma LeftMergeRowCount(left: Frame, right: Frame, key: string, suffix: string)
    requires LeftMerge(left, right, key, suffix).Ok?
    ensures |LeftMerge(left, right, key, suffix).value.rows| >= |left.rows|
    ensures KeyUnique(right.rows, key) ==>
      |LeftMerge(left, right, key, suffix).value.rows| == |left.rows| &&
      forall i :: 0 <= i < |left.rows| ==> AgreeOn(LeftMerge(left, right, key, suffix).value.rows[i], left.rows[i], left.columns)
  {
    var carried := Remove(right.columns, key);
    var names := Renamed(carried, left.columns, suffix);
    DistinctSuffix(left.columns, names);
    JoinAllCount(left.rows, right.rows, key, carried, names, left.columns);
  }

  /** Every left row shows up in a successful merge with its own cells, and
      every merged row traces back to a left row. */
  lemma LeftMergeTracesLeft(left: Frame, right: Frame, key: string, suffix: string)
    requires LeftMerge(left, right, key, suffix).Ok?
    ensures Covers(LeftMerge(left, right, key, suffix).value.rows, left.rows, left.columns)
    ensures forall j :: 0 <= j < |LeftMerge(left, right, key, suffix).value.rows| ==>
      exists i :: 0 <= i < |left.rows| && AgreeOn(LeftMerge(left, right, key, suffix).value.rows[j], left.rows[i], left.columns)
  {
    var carried := Remove(right.columns, key);
    var names := Renamed(carried, left.columns, suffix);
    DistinctSuffix(left.columns, names);
    forall i | 0 <= i < |left.rows|
      ensures Shows(LeftMerge(left, right, key, suffix).value.rows, left.rows[i], left.columns)
    {
      JoinAllCovers(left.rows, right.rows, key, carried, names, left.columns, i);
    }
    forall j | 0 <= j < |LeftMerge(left, right, key, suffix).value.rows|
      ensures exists i :: 0 <= i < |left.rows| && AgreeOn(LeftMerge(left, right, key, suffix).value.rows[j], left.rows[i], left.columns)
    {
      JoinAllOrigin(left.rows, right.rows, key, carried, names, left.columns, j);
    }
  }

  /** Row `g` holds, under each new label, the cell of `r` in the carried
      column it comes from. */
  predicate Carries(g: Row, r: Row, carried: seq<string>, names: seq<string>)
    requires |carried| == |names|
  {
    forall k :: 0 <= k < |names| ==> Get(g, names[k]) == Get(r, carried[k])
  }

  /** Row `g` is left row `l` joined with right row `r`: the cells of `l` in
      `cols`, then those of `r` under the new labels. Joined with the empty
      row `map[]`, the new cells are all missing. */
  predicate JoinedWith(g: Row, l: Row, r: Row, cols: seq<string>, carried: seq<string>, names: seq<string>)
    requires |carried| == |names|
  {
    AgreeOn(g, l, cols) && Carries(g, r, carried, names)
  }

  /** No row of `right` has the key `v`. */
  predicate Unmatched(right: seq<Row>, key: string, v: Value)
  {
    forall r :: r in right ==> Get(r, key) != v
  }

  /** Row `g` of a left merge comes from left row `l`: joined with a right
      row of the same key, or, when no right row has that key, with missing
      cells. */
  predicate JoinedFrom(g: Row, l: Row, right: seq<Row>, key: string, cols: seq<string>, carried: seq<string>, names: seq<string>)
    requires |carried| == |names|
  {
    || (exists r :: r in right && Get(r, key) == Get(l, key) && JoinedWith(g, l, r, cols, carried, names))
    || (Unmatched(right, key, Get(l, key)) && JoinedWith(g, l, map[], cols, carried, names))
  }

  /** The rows one left row gives rise to come from it, and each right row
      of its key is joined with it in one of them. */
  lemma JoinOneSpec(l: Row, right: seq<Row>, key: string, carried: seq<string>, names: seq<string>, cols: seq<string>)
    requires |carried| == |names| && Distinct(names)
    requires forall c :: c in names ==> c !in cols
    ensures forall g :: g in JoinOne(l, right, key, carried, names) ==> JoinedFrom(g, l, right, key, cols, carried, names)
    ensures forall r :: r in right && Get(r, key) == Get(l, key) ==>
      exists g :: g in JoinOne(l, right, key, carried, names) && JoinedWith(g, l, r, cols, carried, names)
  {
    var m := Matching(right, key, Get(l, key));
    var out := JoinOne(l, right, key, carried, names);
    if m == [] {
      AttachSpec(l, map[], carried, names);
      assert JoinedWith(out[0], l, map[], cols, carried, names);
    } else {
      forall g | g in out ensures JoinedFrom(g, l, right, key, cols, carried, names) {
        var i :| 0 <= i < |m| && out[i] == g;
        AttachSpec(l, m[i], carried, names);
        assert m[i] in m;
        assert JoinedWith(g, l, m[i], cols, carried, names);
      }
      forall r | r in right && Get(r, key) == Get(l, key)
        ensures exists g :: g in out && JoinedWith(g, l, r, cols, carried, names)
      {
        assert r in m;
        var i :| 0 <= i < |m| && m[i] == r;
        AttachSpec(l, r, carried, names);
        assert out[i] in out && JoinedWith(out[i], l, r, cols, carried, names);
      }
    }
  }

  /** Every output row comes from a left row, joined as `JoinedFrom` says. */
  lemma {:induction false} JoinAllFrom(left: seq<Row>, right: seq<Row>, key: string, carried: seq<string>, names: seq<string>, cols: seq<string>, j: int)
    requires |carried| == |names| && Distinct(names)
    requires forall c :: c in names ==> c !in cols
    requires 0 <= j < |JoinAll(left, right, key, carried, names)|
    ensures exists i :: 0 <= i < |left| && JoinedFrom(JoinAll(left, right, key, carried, names)[j], left[i], right, key, cols, carried, names)
    decreases |left|
  {
    var one := JoinOne(left[0], right, key, carried, names);
    var rest := JoinAll(left[1..], right, key, carried, names);
    var all := JoinAll(left, right, key, carried, names);
    assert all == one + rest;
    if j < |one| {
      JoinOneSpec(left[0], right, key, carried, names, cols);
      assert all[j] == one[j] && one[j] in one;
      assert JoinedFrom(all[j], left[0], right, key, cols, carried, names);
    } else {
      JoinAllFrom(left[1..], right, key, carried, names, cols, j - |one|);
      assert all[j] == rest[j - |one|];
      var i :| 0 <= i < |left[1..]| && JoinedFrom(rest[j - |one|], left[1..][i], right, key, cols, carried, names);
      assert left[1..][i] == left[i + 1];
    }
  }

  /** The row of `JoinOne` that joins `l` with a given right row of its key. */
  lemma JoinOnePair(l: Row, right: seq<Row>, key: string, carried: seq<string>, names: seq<string>, cols: seq<string>, r: Row)
    returns (j: int)
    requires |carried| == |names| && Distinct(names)
    requires forall c :: c in names ==> c !in cols
    requires r in right && Get(r, key) == Get(l, key)
    ensures 0 <= j < |JoinOne(l, right, key, carried, names)|
    ensures JoinedWith(JoinOne(l, right, key, carried, names)[j], l, r, cols, carried, names)
  {
    var m := Matching(right, key, Get(l, key));
    assert r in m;
    j :| 0 <= j < |m| && m[j] == r;
    assert JoinOne(l, right, key, carried, names)[j] == Attach(l, r, carried, names);
    AttachSpec(l, r, carried, names);
  }

  /** Every pair of a left row and a right row with the same key is joined
      in some output row. */
  lemma {:induction false} JoinAllPairs(left: seq<Row>, right: seq<Row>, key: string, carried: seq<string>, names: seq<string>, cols: seq<string>, i: int, r: Row)
    requires |carried| == |names| && Distinct(names)
    requires forall c :: c in names ==> c !in cols
    requires 0 <= i < |left| && r in right && Get(r, key) == Get(left[i], key)
    ensures exists j ::
      && 0 <= j < |JoinAll(left, right, key, carried, names)|
      && JoinedWith(JoinAll(left, right, key, carried, names)[j], left[i], r, cols, carried, names)
    decreases |left|
  {
    var one := JoinOne(left[0], right, key, carried, names);
    var rest := JoinAll(left[1..], right, key, carried, names);
    var all := JoinAll(left, right, key, carried, names);
    assert all == one + rest;
    if i == 0 {
      var j := JoinOnePair(left[0], right, key, carried, names, cols, r);
      assert all[j] == one[j];
    } else {
      assert left[1..][i - 1] == left[i];
      JoinAllPairs(left[1..], right, key, carried, names, cols, i - 1, r);
      var j :| 0 <= j < |rest| && JoinedWith(rest[j], left[i], r, cols, carried, names);
      assert all[|one| + j] == rest[j];
    }
  }

  /** With a unique key on the right, one left row gives one row: joined
      with the right row of its key, or with missing cells if there is none. */
  lemma JoinOneUnique(l: Row, right: seq<Row>, key: string, carried: seq<string>, names: seq<string>, cols: seq<string>)
    requires |carried| == |names| && Distinct(names)
    requires forall c :: c in names ==> c !in cols
    requires KeyUnique(right, key)
    ensures |JoinOne(l, right, key, carried, names)| == 1
    ensures forall r :: r in right && Get(r, key) == Get(l, key) ==>
      JoinedWith(JoinOne(l, right, key, carried, names)[0], l, r, cols, carried, names)
    ensures Unmatched(right, key, Get(l, key)) ==>
      JoinedWith(JoinOne(l, right, key, carried, names)[0], l, map[], cols, carried, names)
  {
    var m := Matching(right, key, Get(l, key));
    MatchingUnique(right, key, Get(l, key));
    if m == [] {
      AttachSpec(l, map[], carried, names);
    } else {
      AttachSpec(l, m[0], carried, names);
      assert m[0] in m;
      forall r | r in right && Get(r, key) == Get(l, key)
        ensures JoinedWith(JoinOne(l, right, key, carried, names)[0], l, r, cols, carried, names)
      {
        assert r in m;
      }
    }
  }

  /** With a unique key on the right, output row `i` is what left row `i`
      gives. */
  lemma {:induction false} JoinAllUnique(left: seq<Row>, right: seq<Row>, key: string, carried: seq<string>, names: seq<string>, cols: seq<string>)
    requires |carried| == |names| && Distinct(names)
    requires forall c :: c in names ==> c !in cols
    requires KeyUnique(right, key)
    ensures |JoinAll(left, right, key, carried, names)| == |left|
    ensures forall i :: 0 <= i < |left| ==> JoinAll(left, right, key, carried, names)[i] == JoinOne(left[i], right, key, carried, names)[0]
    decreases |left|
  {
    if left != [] {
      var one := JoinOne(left[0], right, key, carried, names);
      var rest := JoinAll(left[1..], right, key, carried, names);
      JoinOneUnique(left[0], right, key, carried, names, cols);
      JoinAllUnique(left[1..], right, key, carried, names, cols);
      forall i | 0 <= i < |left| ensures (one + rest)[i] == JoinOne(left[i], right, key, carried, names)[0] {
        if i > 0 {
          assert left[1..][i - 1] == left[i];
        }
      }
    }
  }

  /** What a successful left merge puts in a row: every output row is a
      left row joined with a right row of its key, or with missing cells
      when the right frame has none. */
  lemma LeftMergeRowsFrom(left: Frame, right: Frame, key: string, suffix: string)
    requires LeftMerge(left, right, key, suffix).Ok?
    ensures var g := LeftMerge(left, right, key, suffix).value;
      var carried := Remove(right.columns, key);
      var names := Renamed(carried, left.columns, suffix);
      forall j :: 0 <= j < |g.rows| ==>
        exists i :: 0 <= i < |left.rows| && JoinedFrom(g.rows[j], left.rows[i], right.rows, key, left.columns, carried, names)
  {
    var carried := Remove(right.columns, key);
    var names := Renamed(carried, left.columns, suffix);
    DistinctSuffix(left.columns, names);
    var g := LeftMerge(left, right, key, suffix).value;
    forall j | 0 <= j < |g.rows|
      ensures exists i :: 0 <= i < |left.rows| && JoinedFrom(g.rows[j], left.rows[i], right.rows, key, left.columns, carried, names)
    {
      JoinAllFrom(left.rows, right.rows, key, carried, names, left.columns, j);
    }
  }

  /** A successful left merge joins every left row with every right row of
      the same key. */
  lemma LeftMergeAllPairs(left: Frame, right: Frame, key: string, suffix: string)
    requires LeftMerge(left, right, key, suffix).Ok?
    ensures var g := LeftMerge(left, right, key, suffix).value;
      var carried := Remove(right.columns, key);
      var names := Renamed(carried, left.columns, suffix);
      forall i, r :: 0 <= i < |left.rows| && r in right.rows && Get(r, key) == Get(left.rows[i], key) ==>
        exists j :: 0 <= j < |g.rows| && JoinedWith(g.rows[j], left.rows[i], r, left.columns, carried, names)
  {
    var carried := Remove(right.columns, key);
    var names := Renamed(carried, left.columns, suffix);
    DistinctSuffix(left.columns, names);
    var g := LeftMerge(left, right, key, suffix).value;
    forall i, r | 0 <= i < |left.rows| && r in right.rows && Get(r, key) == Get(left.rows[i], key)
      ensures exists j :: 0 <= j < |g.rows| && JoinedWith(g.rows[j], left.rows[i], r, left.columns, carried, names)
    {
      JoinAllPairs(left.rows, right.rows, key, carried, names, left.columns, i, r);
    }
  }

  /** With a unique key on the right, output row `i` is left row `i` joined
      with the right row of its key, or with missing cells when there is
      none. */
  lemma LeftMergeUniqueCells(left: Frame, right: Frame, key: string, suffix: string)
    requires LeftMerge(left, right, key, suffix).Ok? && KeyUnique(right.rows, key)
    ensures var g := LeftMerge(left, right, key, suffix).value;
      var carried := Remove(right.columns, key);
      var names := Renamed(carried, left.columns, suffix);
      && |g.rows| == |left.rows|
      && (forall i, r :: 0 <= i < |left.rows| && r in right.rows && Get(r, key) == Get(left.rows[i], key) ==>
            JoinedWith(g.rows[i], left.rows[i], r, left.columns, carried, names))
      && (forall i :: 0 <= i < |left.rows| && Unmatched(right.rows, key, Get(left.rows[i], key)) ==>
            JoinedWith(g.rows[i], left.rows[i], map[], left.columns, carried, names))
  {
    var carried := Remove(right.columns, key);
    var names := Renamed(carried, left.columns, suffix);
    DistinctSuffix(left.columns, names);
    JoinAllUnique(left.rows, right.rows, key, carried, names, left.columns);
    forall i | 0 <= i < |left.rows| {
      JoinOneUnique(left.rows[i], right.rows, key, carried, names, left.columns);
    }
  }
}
