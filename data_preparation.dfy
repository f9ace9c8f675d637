/** Cleaning the call and collections tables and joining the five sources
    into one table (src/data_preparation.py). */
module DataPreparation {
  import opened Cells
  import opened Tables
  import opened Sorting
  import opened Merging

  // =====================================================================
  // prepare_calls

  /** The row filter `calls["call_end"] >= calls["call_start"]`. */
  predicate EndsAfterStart(r: Row)
  {
    AtMost(Get(r, "call_start"), Get(r, "call_end"))
  }

  /** `prepare_calls`: drop repeated call ids (first row wins), then drop
      calls that end before they start, then derive talk time, queue time
      and handle time in seconds. */
  function PrepareCalls(calls: Frame): Result<Frame>
  {
    if "call_id" !in calls.columns then Err(KeyError("call_id"))
    else if "call_end" !in calls.columns then Err(KeyError("call_end"))
    else if "call_start" !in calls.columns then Err(KeyError("call_start"))
    else if "answer_time" !in calls.columns then Err(KeyError("answer_time"))
    else if "after_call_work_sec" !in calls.columns then Err(KeyError("after_call_work_sec"))
    else
      Ok(AddDurations(Frame(calls.columns, Filter(DropDuplicates(calls.rows, "call_id"), EndsAfterStart))))
  }

  /** The three duration columns, assigned one after the other. */
  function AddDurations(valid: Frame): Frame
  {
    var n := |valid.rows|;
    var talk := WithColumn(valid, "talk_time",
      seq(n, i requires 0 <= i < n => ElapsedSeconds(Get(valid.rows[i], "call_end"), Get(valid.rows[i], "answer_time"))));
    var queue := WithColumn(talk, "queue_time",
      seq(n, i requires 0 <= i < n => ElapsedSeconds(Get(talk.rows[i], "answer_time"), Get(talk.rows[i], "call_start"))));
    WithColumn(queue, "aht",
      seq(n, i requires 0 <= i < n => Plus(Get(queue.rows[i], "talk_time"), Get(queue.rows[i], "after_call_work_sec"))))
  }

  /** Assigning the durations column by column treats each row on its own. */
  lemma AddDurationsRows(valid: Frame)
    ensures |AddDurations(valid).rows| == |valid.rows|
    ensures forall i :: 0 <= i < |valid.rows| ==> AddDurations(valid).rows[i] == WithDurations(valid.rows[i])
  {
  }

  /** One surviving call row with its derived durations. */
  function WithDurations(r: Row): Row
  {
    var talk := r["talk_time" := ElapsedSeconds(Get(r, "call_end"), Get(r, "answer_time"))];
    var queue := talk["queue_time" := ElapsedSeconds(Get(talk, "answer_time"), Get(talk, "call_start"))];
    queue["aht" := Plus(Get(queue, "talk_time"), Get(queue, "after_call_work_sec"))]
  }

  /** The call rows that survive cleaning, stated directly: among the first
      `n` input rows, those that are the first row of their call id and do
      not end before they start, in input order. */
  function Survivors(rows: seq<Row>, n: nat): seq<Row>
    requires n <= |rows|
  {
    if n == 0 then []
    else Survivors(rows, n - 1) + (if FirstOccurrence(rows, "call_id", n - 1) && EndsAfterStart(rows[n - 1]) then [rows[n - 1]] else [])
  }

  /** Whether a row is the first of its key does not depend on later rows. */
  lemma FirstOccurrencePrefix(rows: seq<Row>, key: string, n: nat, i: nat)
    requires i < n <= |rows|
    ensures FirstOccurrence(rows[..n], key, i) == FirstOccurrence(rows, key, i)
  {
    assert forall j :: 0 <= j <= i ==> rows[..n][j] == rows[j];
  }

  /** Deduplicating and then filtering gives exactly the survivors. */
  lemma {:induction false} DedupThenFilterIsSurvivors(rows: seq<Row>, n: nat)
    requires n <= |rows|
    ensures Filter(DropDuplicates(rows[..n], "call_id"), EndsAfterStart) == Survivors(rows, n)
  {
    if n > 0 {
      DedupThenFilterIsSurvivors(rows, n - 1);
      var d := DropDuplicates(rows[..n - 1], "call_id");
      var tail := if EndsAfterStart(rows[n - 1]) then [rows[n - 1]] else [];
      DropDuplicatesStep(rows, "call_id", n);
      if FirstOccurrence(rows, "call_id", n - 1) {
        FilterSnoc(d, rows[n - 1], EndsAfterStart);
        assert Survivors(rows, n) == Survivors(rows, n - 1) + tail;
      } else {
        assert DropDuplicates(rows[..n], "call_id") == d;
        assert Survivors(rows, n) == Survivors(rows, n - 1) + [];
      }
    }
  }

  /** Deduplicating one more row of the input. */
  lemma DropDuplicatesStep(rows: seq<Row>, key: string, n: nat)
    requires 0 < n <= |rows|
    ensures DropDuplicates(rows[..n], key) ==
      DropDuplicates(rows[..n - 1], key) + (if FirstOccurrence(rows, key, n - 1) then [rows[n - 1]] else [])
  {
    var p := rows[..n];
    assert p[..n - 1] == rows[..n - 1];
    FirstOccurrencePrefix(rows, key, n, n - 1);
  }

  /** A survivor is an input row that is the first of its call id and does
      not end before it starts; every such row is a survivor. */
  lemma SurvivorsSpec(rows: seq<Row>, n: nat)
    requires n <= |rows|
    ensures forall y :: y in Survivors(rows, n) ==>
      exists i :: 0 <= i < n && rows[i] == y && FirstOccurrence(rows, "call_id", i) && EndsAfterStart(rows[i])
    ensures forall i :: 0 <= i < n && FirstOccurrence(rows, "call_id", i) && EndsAfterStart(rows[i]) ==> rows[i] in Survivors(rows, n)
    ensures KeyUnique(Survivors(rows, n), "call_id")
  {
    SurvivorsOrigin(rows, n);
    SurvivorsComplete(rows, n);
    SurvivorsUnique(rows, n);
  }

  lemma {:induction false} SurvivorsOrigin(rows: seq<Row>, n: nat)
    requires n <= |rows|
    ensures forall y :: y in Survivors(rows, n) ==>
      exists i :: 0 <= i < n && rows[i] == y && FirstOccurrence(rows, "call_id", i) && EndsAfterStart(rows[i])
  {
    if n > 0 {
      SurvivorsOrigin(rows, n - 1);
      var s := Survivors(rows, n - 1);
      forall y | y in Survivors(rows, n)
        ensures exists i :: 0 <= i < n && rows[i] == y && FirstOccurrence(rows, "call_id", i) && EndsAfterStart(rows[i])
      {
        if y in s {
          var i :| 0 <= i < n - 1 && rows[i] == y && FirstOccurrence(rows, "call_id", i) && EndsAfterStart(rows[i]);
        } else {
          assert rows[n - 1] == y;
        }
      }
    }
  }

  lemma SurvivorsComplete(rows: seq<Row>, n: nat)
    requires n <= |rows|
    ensures forall i :: 0 <= i < n && FirstOccurrence(rows, "call_id", i) && EndsAfterStart(rows[i]) ==> rows[i] in Survivors(rows, n)
  {
    forall i | 0 <= i < n && FirstOccurrence(rows, "call_id", i) && EndsAfterStart(rows[i])
      ensures rows[i] in Survivors(rows, n)
    {
      SurvivorsHas(rows, n, i);
    }
  }

  lemma {:induction false} SurvivorsHas(rows: seq<Row>, n: nat, i: nat)
    requires i < n <= |rows| && FirstOccurrence(rows, "call_id", i) && EndsAfterStart(rows[i])
    ensures rows[i] in Survivors(rows, n)
    decreases n
  {
    var s := Survivors(rows, n - 1);
    if i < n - 1 {
      SurvivorsHas(rows, n - 1, i);
      var t := if FirstOccurrence(rows, "call_id", n - 1) && EndsAfterStart(rows[n - 1]) then [rows[n - 1]] else [];
      assert Survivors(rows, n) == s + t;
    } else {
      assert Survivors(rows, n) == s + [rows[i]];
    }
  }

  lemma {:induction false} SurvivorsUnique(rows: seq<Row>, n: nat)
    requires n <= |rows|
    ensures KeyUnique(Survivors(rows, n), "call_id")
  {
    if n > 0 {
      SurvivorsUnique(rows, n - 1);
      SurvivorsOrigin(rows, n - 1);
      var s := Survivors(rows, n - 1);
      if FirstOccurrence(rows, "call_id", n - 1) && EndsAfterStart(rows[n - 1]) {
        var t := s + [rows[n - 1]];
        forall i, j | 0 <= i < j < |t| ensures Get(t[i], "call_id") != Get(t[j], "call_id") {
          if j == |t| - 1 {
            assert t[i] in s;
            var k :| 0 <= k < n - 1 && rows[k] == t[i] && FirstOccurrence(rows, "call_id", k) && EndsAfterStart(rows[k]);
            assert Get(rows[k], "call_id") != Get(rows[n - 1], "call_id");
          } else {
            assert t[i] == s[i] && t[j] == s[j];
          }
        }
      } else {
        assert Survivors(rows, n) == s + [];
      }
    }
  }

  /** A successful `prepare_calls` fails only for a missing column, and
      returns the survivors, in input order, each with its durations. */
  lemma PrepareCallsRows(calls: Frame)
    ensures PrepareCalls(calls).Ok? <==> HasCallColumns(calls.columns)
    ensures PrepareCalls(calls).Ok? ==>
      var out := PrepareCalls(calls).value.rows;
      var s := Survivors(calls.rows, |calls.rows|);
      |out| == |s| && forall i :: 0 <= i < |out| ==> out[i] == WithDurations(s[i])
  {
    if PrepareCalls(calls).Ok? {
      var valid := Frame(calls.columns, Filter(DropDuplicates(calls.rows, "call_id"), EndsAfterStart));
      assert PrepareCalls(calls) == Ok(AddDurations(valid));
      assert calls.rows[..|calls.rows|] == calls.rows;
      DedupThenFilterIsSurvivors(calls.rows, |calls.rows|);
      assert valid.rows == Survivors(calls.rows, |calls.rows|);
      AddDurationsRows(valid);
    }
  }

  /** `prepare_calls` keeps the input labels and appends each duration
      label the input lacks, in assignment order; a well-formed input gives
      a well-formed output. */
  lemma PrepareCallsShape(calls: Frame)
    requires PrepareCalls(calls).Ok?
    ensures PrepareCalls(calls).value.columns == AddedLabels(calls.columns, ["talk_time", "queue_time", "aht"])
    ensures WellFormed(calls) ==> WellFormed(PrepareCalls(calls).value)
  {
    var valid := Frame(calls.columns, Filter(DropDuplicates(calls.rows, "call_id"), EndsAfterStart));
    AddDurationsShape(valid);
    if WellFormed(calls) {
      DropDuplicatesKeepsOrder(calls.rows, "call_id");
      SubsequenceMembers(DropDuplicates(calls.rows, "call_id"), calls.rows);
      assert WellFormed(valid);
    }
  }

  /** Assigning the durations appends the labels the frame lacks. */
  lemma AddDurationsShape(valid: Frame)
    ensures AddDurations(valid).columns == AddedLabels(valid.columns, ["talk_time", "queue_time", "aht"])
    ensures WellFormed(valid) ==> WellFormed(AddDurations(valid))
  {
    var n := |valid.rows|;
    var v1 := seq(n, i requires 0 <= i < n => ElapsedSeconds(Get(valid.rows[i], "call_end"), Get(valid.rows[i], "answer_time")));
    var talk := WithColumn(valid, "talk_time", v1);
    var v2 := seq(n, i requires 0 <= i < n => ElapsedSeconds(Get(talk.rows[i], "answer_time"), Get(talk.rows[i], "call_start")));
    var queue := WithColumn(talk, "queue_time", v2);
    var v3 := seq(n, i requires 0 <= i < n => Plus(Get(queue.rows[i], "talk_time"), Get(queue.rows[i], "after_call_work_sec")));
    assert AddDurations(valid) == WithColumn(queue, "aht", v3);
    assert AddedLabels(valid.columns, []) == valid.columns;
    WithColumnLabels(valid, "talk_time", v1, valid.columns, []);
    assert [] + ["talk_time"] == ["talk_time"];
    WithColumnLabels(talk, "queue_time", v2, valid.columns, ["talk_time"]);
    assert ["talk_time"] + ["queue_time"] == ["talk_time", "queue_time"];
    WithColumnLabels(queue, "aht", v3, valid.columns, ["talk_time", "queue_time"]);
    assert ["talk_time", "queue_time"] + ["aht"] == ["talk_time", "queue_time", "aht"];
    if WellFormed(valid) {
      WithColumnShape(valid, "talk_time", v1);
      WithColumnShape(talk, "queue_time", v2);
      WithColumnShape(queue, "aht", v3);
    }
  }

  /** The five columns `prepare_calls` reads. */
  predicate HasCallColumns(columns: seq<string>)
  {
    && "call_id" in columns && "call_end" in columns && "call_start" in columns
    && "answer_time" in columns && "after_call_work_sec" in columns
  }

  /** After `prepare_calls` no two rows share a call id, every row ends no
      earlier than it starts, and each row is the first input row of its call
      id; conversely, every first row of a call id that does not end before
      it starts is kept. */
  lemma PrepareCallsClean(calls: Frame)
    requires PrepareCalls(calls).Ok?
    ensures KeyUnique(PrepareCalls(calls).value.rows, "call_id")
    ensures forall r :: r in PrepareCalls(calls).value.rows ==> EndsAfterStart(r)
    ensures forall r :: r in PrepareCalls(calls).value.rows ==>
      exists i :: 0 <= i < |calls.rows| && FirstOccurrence(calls.rows, "call_id", i) && r == WithDurations(calls.rows[i])
    ensures forall i :: 0 <= i < |calls.rows| && FirstOccurrence(calls.rows, "call_id", i) && EndsAfterStart(calls.rows[i]) ==>
      WithDurations(calls.rows[i]) in PrepareCalls(calls).value.rows
  {
    PrepareCallsRows(calls);
    var out := PrepareCalls(calls).value.rows;
    SurvivorRowsClean(calls.rows, out);
    SurvivorRowsComplete(calls.rows, out);
  }

  lemma SurvivorRowsClean(rows: seq<Row>, out: seq<Row>)
    requires |out| == |Survivors(rows, |rows|)|
    requires forall i :: 0 <= i < |out| ==> out[i] == WithDurations(Survivors(rows, |rows|)[i])
    ensures KeyUnique(out, "call_id")
    ensures forall r :: r in out ==> EndsAfterStart(r)
  {
    var s := Survivors(rows, |rows|);
    SurvivorsSpec(rows, |rows|);
    forall r | r in out ensures EndsAfterStart(r) {
      var k :| 0 <= k < |out| && out[k] == r;
      assert s[k] in s;
    }
    forall i, j | 0 <= i < j < |out| ensures Get(out[i], "call_id") != Get(out[j], "call_id") {
      assert Get(out[i], "call_id") == Get(s[i], "call_id");
      assert Get(out[j], "call_id") == Get(s[j], "call_id");
    }
  }

  lemma SurvivorRowsComplete(rows: seq<Row>, out: seq<Row>)
    requires |out| == |Survivors(rows, |rows|)|
    requires forall i :: 0 <= i < |out| ==> out[i] == WithDurations(Survivors(rows, |rows|)[i])
    ensures forall r :: r in out ==>
      exists i :: 0 <= i < |rows| && FirstOccurrence(rows, "call_id", i) && r == WithDurations(rows[i])
    ensures forall i :: 0 <= i < |rows| && FirstOccurrence(rows, "call_id", i) && EndsAfterStart(rows[i]) ==>
      WithDurations(rows[i]) in out
  {
    var s := Survivors(rows, |rows|);
    SurvivorsSpec(rows, |rows|);
    forall r | r in out
      ensures exists i :: 0 <= i < |rows| && FirstOccurrence(rows, "call_id", i) && r == WithDurations(rows[i])
    {
      var k :| 0 <= k < |out| && out[k] == r;
      assert s[k] in s;
      var i :| 0 <= i < |rows| && rows[i] == s[k] && FirstOccurrence(rows, "call_id", i) && EndsAfterStart(rows[i]);
    }
    forall i | 0 <= i < |rows| && FirstOccurrence(rows, "call_id", i) && EndsAfterStart(rows[i])
      ensures WithDurations(rows[i]) in out
    {
      var k :| 0 <= k < |s| && s[k] == rows[i];
      assert out[k] == WithDurations(rows[i]);
    }
  }

  // =====================================================================
  // prepare_collections

  /** `prepare_collections`, with `today` the date the clock reads when it
      runs: drop repeated account ids (first row wins), derive days past due,
      arrangement length and the kept flag, then keep one account per
      customer, the one with the highest balance. */
  function PrepareCollections(coll: Frame, today: int): Result<Frame>
  {
    if "account_id" !in coll.columns then Err(KeyError("account_id"))
    else if "due_date" !in coll.columns then Err(KeyError("due_date"))
    else if "arrangement_end" !in coll.columns then Err(KeyError("arrangement_end"))
    else if "arrangement_start" !in coll.columns then Err(KeyError("arrangement_start"))
    else if "arrangement_status" !in coll.columns then Err(KeyError("arrangement_status"))
    else if "balance" !in coll.columns then Err(KeyError("balance"))
    else if "customer_id" !in coll.columns then Err(KeyError("customer_id"))
    else
      var kept := WithAccountColumns(Frame(coll.columns, DropDuplicates(coll.rows, "account_id")), today);
      Ok(Frame(kept.columns, DropDuplicates(SortValues(kept.rows, ["balance"], false), "customer_id")))
  }

  /** The three derived account columns, assigned one after the other. */
  function WithAccountColumns(accounts: Frame, today: int): Frame
  {
    var n := |accounts.rows|;
    var due := WithColumn(accounts, "days_past_due",
      seq(n, i requires 0 <= i < n => ElapsedDays(Stamp(Midnight(today)), Get(accounts.rows[i], "due_date"))));
    var length := WithColumn(due, "arrangement_length_days",
      seq(n, i requires 0 <= i < n => ElapsedDays(Get(due.rows[i], "arrangement_end"), Get(due.rows[i], "arrangement_start"))));
    WithColumn(length, "arrangement_kept",
      seq(n, i requires 0 <= i < n => Indicator(Get(length.rows[i], "arrangement_status") == Text("KEPT"))))
  }

  /** One account row with its derived columns. */
  function WithAccountFeatures(r: Row, today: int): Row
  {
    var due := r["days_past_due" := ElapsedDays(Stamp(Midnight(today)), Get(r, "due_date"))];
    var length := due["arrangement_length_days" := ElapsedDays(Get(due, "arrangement_end"), Get(due, "arrangement_start"))];
    length["arrangement_kept" := Indicator(Get(length, "arrangement_status") == Text("KEPT"))]
  }

  /** The first row of each account id, with its derived columns, in input order. */
  function AccountRows(rows: seq<Row>, today: int): (r: seq<Row>)
    ensures |r| == |DropDuplicates(rows, "account_id")|
  {
    var d := DropDuplicates(rows, "account_id");
    seq(|d|, i requires 0 <= i < |d| => WithAccountFeatures(d[i], today))
  }

  /** The derived account columns: whole days past due counted from
      midnight today, whole days of arrangement, and a kept flag that is 1
      exactly for status "KEPT" (a missing status counts as not kept); the
      identifying and balance cells are left alone. */
  lemma AccountFeaturesSpec(r: Row, today: int)
    ensures var due := Get(WithAccountFeatures(r, today), "days_past_due");
      if Get(r, "due_date").Stamp? then
        due.Num? && due.x == due.x.Floor as real &&
        due.x.Floor * SecondsPerDay <= Midnight(today) - Get(r, "due_date").sec < (due.x.Floor + 1) * SecondsPerDay
      else due == Missing
    ensures var len := Get(WithAccountFeatures(r, today), "arrangement_length_days");
      var s, e := Get(r, "arrangement_start"), Get(r, "arrangement_end");
      if s.Stamp? && e.Stamp? then
        len.Num? && len.x == len.x.Floor as real &&
        len.x.Floor * SecondsPerDay <= e.sec - s.sec < (len.x.Floor + 1) * SecondsPerDay
      else len == Missing
    ensures Get(WithAccountFeatures(r, today), "arrangement_kept") == Num(1.0) <==> Get(r, "arrangement_status") == Text("KEPT")
    ensures Get(WithAccountFeatures(r, today), "arrangement_kept") in {Num(0.0), Num(1.0)}
    ensures forall c :: c !in ["days_past_due", "arrangement_length_days", "arrangement_kept"] ==>
      Get(WithAccountFeatures(r, today), c) == Get(r, c)
  {
    var due := Get(r, "due_date");
    if due.Stamp? {
      var d := FloorDays(Midnight(today) - due.sec);
      assert (d as real).Floor == d;
    }
    var s, e := Get(r, "arrangement_start"), Get(r, "arrangement_end");
    if s.Stamp? && e.Stamp? {
      var d := FloorDays(e.sec - s.sec);
      assert (d as real).Floor == d;
    }
  }

  /** A successful `prepare_collections` fails only for a missing column,
      and returns the account rows sorted by balance, highest first, with
      the first row of each customer kept. */
  lemma PrepareCollectionsRows(coll: Frame, today: int)
    ensures PrepareCollections(coll, today).Ok? <==> HasCollectionColumns(coll.columns)
    ensures PrepareCollections(coll, today).Ok? ==>
      PrepareCollections(coll, today).value.rows ==
        DropDuplicates(SortValues(AccountRows(coll.rows, today), ["balance"], false), "customer_id")
  {
    if PrepareCollections(coll, today).Ok? {
      var accounts := Frame(coll.columns, DropDuplicates(coll.rows, "account_id"));
      AccountColumnsRows(accounts, today);
      assert WithAccountColumns(accounts, today).rows == AccountRows(coll.rows, today);
    }
  }

  /** `prepare_collections` keeps the input labels and appends each derived
      account label the input lacks, in assignment order; a well-formed
      input gives a well-formed output. */
  lemma PrepareCollectionsShape(coll: Frame, today: int)
    requires PrepareCollections(coll, today).Ok?
    ensures PrepareCollections(coll, today).value.columns ==
      AddedLabels(coll.columns, ["days_past_due", "arrangement_length_days", "arrangement_kept"])
    ensures WellFormed(coll) ==> WellFormed(PrepareCollections(coll, today).value)
  {
    var accounts := Frame(coll.columns, DropDuplicates(coll.rows, "account_id"));
    var kept := WithAccountColumns(accounts, today);
    AccountColumnsShape(accounts, today);
    if WellFormed(coll) {
      DropDuplicatesKeepsOrder(coll.rows, "account_id");
      SubsequenceMembers(accounts.rows, coll.rows);
      assert WellFormed(accounts);
      var sorted := SortValues(kept.rows, ["balance"], false);
      SortValuesSpec(kept.rows, ["balance"], false);
      SameKeys(sorted, kept.rows, "customer_id");
      DropDuplicatesKeepsOrder(sorted, "customer_id");
      SubsequenceMembers(DropDuplicates(sorted, "customer_id"), sorted);
    }
  }

  /** Assigning the account columns appends the labels the frame lacks. */
  lemma AccountColumnsShape(accounts: Frame, today: int)
    ensures WithAccountColumns(accounts, today).columns ==
      AddedLabels(accounts.columns, ["days_past_due", "arrangement_length_days", "arrangement_kept"])
    ensures WellFormed(accounts) ==> WellFormed(WithAccountColumns(accounts, today))
  {
    var n := |accounts.rows|;
    var v1 := seq(n, i requires 0 <= i < n => ElapsedDays(Stamp(Midnight(today)), Get(accounts.rows[i], "due_date")));
    var due := WithColumn(accounts, "days_past_due", v1);
    var v2 := seq(n, i requires 0 <= i < n => ElapsedDays(Get(due.rows[i], "arrangement_end"), Get(due.rows[i], "arrangement_start")));
    var length := WithColumn(due, "arrangement_length_days", v2);
    var v3 := seq(n, i requires 0 <= i < n => Indicator(Get(length.rows[i], "arrangement_status") == Text("KEPT")));
    assert WithAccountColumns(accounts, today) == WithColumn(length, "arrangement_kept", v3);
    assert AddedLabels(accounts.columns, []) == accounts.columns;
    WithColumnLabels(accounts, "days_past_due", v1, accounts.columns, []);
    assert [] + ["days_past_due"] == ["days_past_due"];
    WithColumnLabels(due, "arrangement_length_days", v2, accounts.columns, ["days_past_due"]);
    assert ["days_past_due"] + ["arrangement_length_days"] == ["days_past_due", "arrangement_length_days"];
    WithColumnLabels(length, "arrangement_kept", v3, accounts.columns, ["days_past_due", "arrangement_length_days"]);
    assert ["days_past_due", "arrangement_length_days"] + ["arrangement_kept"] ==
      ["days_past_due", "arrangement_length_days", "arrangement_kept"];
    if WellFormed(accounts) {
      WithColumnShape(accounts, "days_past_due", v1);
      WithColumnShape(due, "arrangement_length_days", v2);
      WithColumnShape(length, "arrangement_kept", v3);
    }
  }

  /** The seven columns `prepare_collections` reads. */
  predicate HasCollectionColumns(columns: seq<string>)
  {
    && "account_id" in columns && "due_date" in columns && "arrangement_end" in columns
    && "arrangement_start" in columns && "arrangement_status" in columns
    && "balance" in columns && "customer_id" in columns
  }

  /** Assigning the account columns one after another treats each row on
      its own. */
  lemma AccountColumnsRows(accounts: Frame, today: int)
    ensures |WithAccountColumns(accounts, today).rows| == |accounts.rows|
    ensures forall i :: 0 <= i < |accounts.rows| ==>
      WithAccountColumns(accounts, today).rows[i] == WithAccountFeatures(accounts.rows[i], today)
  {
  }

  /** Rearranged rows carry the same keys. */
  lemma SameKeys(a: seq<Row>, b: seq<Row>, key: string)
    requires multiset(a) == multiset(b)
    ensures KeySet(a, key) == KeySet(b, key)
    ensures forall x :: x in a <==> x in b
  {
    assert forall x :: x in a <==> x in multiset(a);
    assert forall x :: x in b <==> x in multiset(b);
  }

  /** After `prepare_collections` each customer has exactly one row, every
      customer of the deduplicated accounts is still there, each row is one
      of those accounts, and the rows stand in descending balance order. */
  lemma PrepareCollectionsOnePerCustomer(coll: Frame, today: int)
    requires PrepareCollections(coll, today).Ok?
    ensures KeyUnique(PrepareCollections(coll, today).value.rows, "customer_id")
    ensures KeySet(PrepareCollections(coll, today).value.rows, "customer_id") == KeySet(AccountRows(coll.rows, today), "customer_id")
    ensures forall y :: y in PrepareCollections(coll, today).value.rows ==> y in AccountRows(coll.rows, today)
    ensures Sorted(["balance"], false, PrepareCollections(coll, today).value.rows)
  {
    PrepareCollectionsRows(coll, today);
    var acc := AccountRows(coll.rows, today);
    var sorted := SortValues(acc, ["balance"], false);
    var out := DropDuplicates(sorted, "customer_id");
    SortValuesSpec(acc, ["balance"], false);
    SameKeys(sorted, acc, "customer_id");
    DropDuplicatesUnique(sorted, "customer_id");
    DropDuplicatesKeepsOrder(sorted, "customer_id");
    SubsequenceMembers(out, sorted);
    SortedSubsequence(["balance"], false, out, sorted);
  }

  /** The account kept for a customer has the highest balance among that
      customer's accounts: no other account's balance sorts before it, and
      it is missing only when every one of them is. */
  lemma PrepareCollectionsHighestBalance(coll: Frame, today: int, y: Row, a: Row)
    requires PrepareCollections(coll, today).Ok?
    requires y in PrepareCollections(coll, today).value.rows
    requires a in AccountRows(coll.rows, today) && Get(a, "customer_id") == Get(y, "customer_id")
    ensures SortsBefore(false, Get(y, "balance"), Get(a, "balance"))
    ensures Get(y, "balance").Missing? ==> Get(a, "balance").Missing?
    ensures Get(y, "balance").Num? && Get(a, "balance").Num? ==> Get(a, "balance").x <= Get(y, "balance").x
  {
    PrepareCollectionsRows(coll, today);
    var acc := AccountRows(coll.rows, today);
    var sorted := SortValues(acc, ["balance"], false);
    SortValuesSpec(acc, ["balance"], false);
    SameKeys(sorted, acc, "customer_id");
    FirstOfSortedLeads(sorted, y, a);
  }

  /** In rows sorted by balance, highest first, the first row of a customer
      leads every other row of that customer. */
  lemma FirstOfSortedLeads(sorted: seq<Row>, y: Row, a: Row)
    requires Sorted(["balance"], false, sorted)
    requires y in DropDuplicates(sorted, "customer_id")
    requires a in sorted && Get(a, "customer_id") == Get(y, "customer_id")
    ensures SortsBefore(false, Get(y, "balance"), Get(a, "balance"))
  {
    var j :| 0 <= j < |sorted| && sorted[j] == a;
    DropDuplicatesKeepsFirst(sorted, "customer_id", y, j);
    var k :| 0 <= k < j + 1 && sorted[..j + 1][k] == y;
    assert sorted[k] == y;
    if k < j {
      assert RowBefore(["balance"], false, sorted[k], sorted[j]);
    } else {
      SortsBeforeTotalOrder(false, Get(y, "balance"), Get(y, "balance"), Get(y, "balance"));
    }
  }

  // ---------------------------------------------------------------------
  // Two consequences for calls

  /** In every row `prepare_calls` returns, talk time runs from answer to
      end and queue time from start to answer, in seconds (missing when
      either end is); the two add up to the whole call, which is never
      negative; handle time is talk time plus wrap-up. */
  lemma PrepareCallsDurations(calls: Frame, r: Row)
    requires PrepareCalls(calls).Ok? && r in PrepareCalls(calls).value.rows
    ensures var e, a := Get(r, "call_end"), Get(r, "answer_time");
      Get(r, "talk_time") == if e.Stamp? && a.Stamp? then Num((e.sec - a.sec) as real) else Missing
    ensures var a, st := Get(r, "answer_time"), Get(r, "call_start");
      Get(r, "queue_time") == if a.Stamp? && st.Stamp? then Num((a.sec - st.sec) as real) else Missing
    ensures Get(r, "aht") == Plus(Get(r, "talk_time"), Get(r, "after_call_work_sec"))
    ensures Get(r, "call_start").Stamp? && Get(r, "call_end").Stamp? && Get(r, "answer_time").Stamp? ==>
      Get(r, "talk_time").Num? && Get(r, "queue_time").Num? &&
      Get(r, "talk_time").x + Get(r, "queue_time").x == (Get(r, "call_end").sec - Get(r, "call_start").sec) as real >= 0.0
  {
    PrepareCallsClean(calls);
    var i :| 0 <= i < |calls.rows| && FirstOccurrence(calls.rows, "call_id", i) && r == WithDurations(calls.rows[i]);
    DurationsSpec(calls.rows[i]);
  }

  /** The durations of one call row: talk time from answer to end, queue
      time from start to answer, in seconds, missing when either end is;
      every other cell is left alone; a call that does not end before it
      starts spends a non-negative time in queue and talk together. */
  lemma DurationsSpec(x: Row)
    ensures var e, a := Get(x, "call_end"), Get(x, "answer_time");
      Get(WithDurations(x), "talk_time") == if e.Stamp? && a.Stamp? then Num((e.sec - a.sec) as real) else Missing
    ensures var a, st := Get(x, "answer_time"), Get(x, "call_start");
      Get(WithDurations(x), "queue_time") == if a.Stamp? && st.Stamp? then Num((a.sec - st.sec) as real) else Missing
    ensures forall c :: c != "talk_time" && c != "queue_time" && c != "aht" ==> Get(WithDurations(x), c) == Get(x, c)
    ensures var r := WithDurations(x);
      && Get(r, "call_start") == Get(x, "call_start") && Get(r, "call_end") == Get(x, "call_end")
      && Get(r, "answer_time") == Get(x, "answer_time")
      && Get(r, "aht") == Plus(Get(r, "talk_time"), Get(r, "after_call_work_sec"))
    ensures var r := WithDurations(x);
      EndsAfterStart(x) && Get(x, "call_start").Stamp? && Get(x, "call_end").Stamp? && Get(x, "answer_time").Stamp? ==>
        Get(r, "talk_time").Num? && Get(r, "queue_time").Num? &&
        Get(r, "talk_time").x + Get(r, "queue_time").x == (Get(x, "call_end").sec - Get(x, "call_start").sec) as real >= 0.0
  {
  }

  /** Deduplication comes before the validity filter: when the first row of
      a call id ends before it starts, that call id is gone from the output,
      even if a later row with the same id is valid. */
  lemma PrepareCallsDropsInvalidFirst(calls: Frame, i: int)
    requires PrepareCalls(calls).Ok?
    requires 0 <= i < |calls.rows| && FirstOccurrence(calls.rows, "call_id", i) && !EndsAfterStart(calls.rows[i])
    ensures Get(calls.rows[i], "call_id") !in KeySet(PrepareCalls(calls).value.rows, "call_id")
  {
    PrepareCallsRows(calls);
    InvalidFirstAbsent(calls.rows, PrepareCalls(calls).value.rows, i);
  }

  lemma InvalidFirstAbsent(rows: seq<Row>, out: seq<Row>, i: int)
    requires |out| == |Survivors(rows, |rows|)|
    requires forall k :: 0 <= k < |out| ==> out[k] == WithDurations(Survivors(rows, |rows|)[k])
    requires 0 <= i < |rows| && FirstOccurrence(rows, "call_id", i) && !EndsAfterStart(rows[i])
    ensures Get(rows[i], "call_id") !in KeySet(out, "call_id")
  {
    var s := Survivors(rows, |rows|);
    SurvivorsSpec(rows, |rows|);
    forall r | r in out ensures Get(r, "call_id") != Get(rows[i], "call_id") {
      var k :| 0 <= k < |out| && out[k] == r;
      assert s[k] in s;
      var j :| 0 <= j < |rows| && rows[j] == s[k] && FirstOccurrence(rows, "call_id", j) && EndsAfterStart(rows[j]);
      assert j != i;
      assert Get(r, "call_id") == Get(rows[j], "call_id");
    }
  }

  // =====================================================================
  // join_datasets

  /** The four left merges of `join_datasets`, each failing on a missing key
      or colliding labels. */
  function MergeAll(calls: Frame, crm: Frame, coll: Frame, qa: Frame, csat: Frame): Result<Frame>
  {
    match LeftMerge(calls, crm, "call_id", "_crm")
    case Err(e) => Err(e)
    case Ok(a) =>
      match LeftMerge(a, coll, "customer_id", "_coll")
      case Err(e) => Err(e)
      case Ok(b) =>
        match LeftMerge(b, qa, "call_id", "_qa")
        case Err(e) => Err(e)
        case Ok(c) => LeftMerge(c, csat, "call_id", "_csat")
  }

  /** Column `c` has more than one distinct non-missing value. */
  function Varies(f: Frame): string -> bool
  {
    c => NUnique(f, c) > 1
  }

  /** The frame without its constant and all-missing columns. */
  function Pruned(f: Frame): Frame
  {
    var cols := Filter(f.columns, Varies(f));
    Frame(cols, seq(|f.rows|, k requires 0 <= k < |f.rows| => Restrict(f.rows[k], ColumnSet(cols))))
  }

  /** Dropping one more column from a restricted row. */
  lemma RestrictRemove(r: Row, cols: set<string>, c: string)
    ensures Restrict(r, cols) - {c} == Restrict(r, cols - {c})
  {
  }

  /** The state of the pruning loop after it has looked at the first `i`
      labels of the merged frame `m`: those that vary are kept, the rest are
      still to be examined, and each row holds the cells of those labels. */
  predicate Pruning(m: Frame, df: Frame, i: int)
  {
    && 0 <= i <= |m.columns|
    && df.columns == Filter(m.columns[..i], Varies(m)) + m.columns[i..]
    && |df.rows| == |m.rows|
    && forall k :: 0 <= k < |df.rows| ==> df.rows[k] == Restrict(m.rows[k], ColumnSet(df.columns))
  }

  /** The column the pruning loop looks at still has all its cells, so the
      loop's test sees whether it varies in the merged frame. */
  lemma PruningSees(m: Frame, df: Frame, i: int)
    requires Pruning(m, df, i) && i < |m.columns|
    ensures Column(df, m.columns[i]) == Column(m, m.columns[i])
    ensures NUnique(df, m.columns[i]) > 1 <==> Varies(m)(m.columns[i])
  {
    var col := m.columns[i];
    assert m.columns[i..] == [col] + m.columns[i + 1..];
    assert col in df.columns;
    forall k | 0 <= k < |df.rows| ensures Get(df.rows[k], col) == Get(m.rows[k], col) {
    }
  }

  /** The labels the loop has kept after one more turn. */
  lemma PruningLabels(cols: seq<string>, i: int, p: string -> bool)
    requires 0 <= i < |cols|
    ensures Filter(cols[..i + 1], p) == Filter(cols[..i], p) + (if p(cols[i]) then [cols[i]] else [])
  {
    assert cols[..i + 1] == cols[..i] + [cols[i]];
    FilterSnoc(cols[..i], cols[i], p);
  }

  /** Dropping a column that does not vary moves the loop on by one label. */
  lemma PruningDrop(m: Frame, df: Frame, i: int)
    requires Distinct(m.columns)
    requires Pruning(m, df, i) && i < |m.columns| && !Varies(m)(m.columns[i])
    ensures Pruning(m, DropColumn(df, m.columns[i]), i + 1)
  {
    var col := m.columns[i];
    PruningDropLabels(m.columns, df.columns, i, Varies(m));
    var next := DropColumn(df, col);
    RemoveLabels(df.columns, col);
    forall k | 0 <= k < |next.rows| ensures next.rows[k] == Restrict(m.rows[k], ColumnSet(next.columns)) {
      RestrictRemove(m.rows[k], ColumnSet(df.columns), col);
    }
  }

  lemma PruningDropLabels(cols: seq<string>, labels: seq<string>, i: int, p: string -> bool)
    requires Distinct(cols) && 0 <= i < |cols| && !p(cols[i])
    requires labels == Filter(cols[..i], p) + cols[i..]
    ensures Remove(labels, cols[i]) == Filter(cols[..i + 1], p) + cols[i + 1..]
  {
    var col := cols[i];
    var before := Filter(cols[..i], p);
    var after := cols[i + 1..];
    PruningLabels(cols, i, p);
    LabelOnce(cols, i, p);
    assert cols[i..] == [col] + after;
    assert labels == before + [col] + after;
    RemoveSplit(before, col, after);
  }

  /** A label of a frame with distinct labels appears neither among the kept
      labels before it nor after it. */
  lemma LabelOnce(cols: seq<string>, i: int, p: string -> bool)
    requires Distinct(cols) && 0 <= i < |cols|
    ensures cols[i] !in Filter(cols[..i], p) && cols[i] !in cols[i + 1..]
  {
    assert cols[i] !in cols[..i] by {
      forall j | 0 <= j < i ensures cols[j] != cols[i] {
      }
      assert forall j :: 0 <= j < i ==> cols[..i][j] == cols[j];
    }
    var after := cols[i + 1..];
    forall j | 0 <= j < |after| ensures after[j] != cols[i] {
      assert after[j] == cols[i + 1 + j];
    }
  }

  /** Keeping a column that varies moves the loop on by one label. */
  lemma PruningKeep(m: Frame, df: Frame, i: int)
    requires Pruning(m, df, i) && i < |m.columns| && Varies(m)(m.columns[i])
    ensures Pruning(m, df, i + 1)
  {
    PruningKeepLabels(m.columns, i, Varies(m));
  }

  lemma PruningKeepLabels(cols: seq<string>, i: int, p: string -> bool)
    requires 0 <= i < |cols| && p(cols[i])
    ensures Filter(cols[..i + 1], p) + cols[i + 1..] == Filter(cols[..i], p) + cols[i..]
  {
    var before := Filter(cols[..i], p);
    var after := cols[i + 1..];
    PruningLabels(cols, i, p);
    assert cols[i..] == [cols[i]] + after;
    assert (before + [cols[i]]) + after == before + ([cols[i]] + after);
  }

  /** The loop at the end of `join_datasets`: every column with at most one
      distinct non-missing value is dropped in place, the others kept. */
  method DropConstantColumns(merged: Frame) returns (df: Frame)
    requires WellFormed(merged)
    ensures df == Pruned(merged)
  {
    df := merged;
    var cols := merged.columns;
    PruningStarts(merged);
    var i := 0;
    while i < |cols|
      invariant Pruning(merged, df, i)
    {
      var col := cols[i];
      PruningSees(merged, df, i);
      if NUnique(df, col) <= 1 {
        PruningDrop(merged, df, i);
        df := DropColumn(df, col);
      } else {
        PruningKeep(merged, df, i);
      }
      i := i + 1;
    }
    PruningEnds(merged, df, i);
  }

  /** Before the loop nothing has been examined or dropped. */
  lemma PruningStarts(m: Frame)
    requires WellFormed(m)
    ensures Pruning(m, m, 0)
  {
    forall k | 0 <= k < |m.rows| ensures m.rows[k] == Restrict(m.rows[k], ColumnSet(m.columns)) {
      assert m.rows[k] in m.rows;
    }
    assert m.columns[..0] == [];
  }

  /** Once every label has been examined, the frame is the pruned one. */
  lemma PruningEnds(m: Frame, df: Frame, i: int)
    requires Pruning(m, df, i) && i >= |m.columns|
    ensures df == Pruned(m)
  {
    assert m.columns[..i] == m.columns;
    assert m.columns[i..] == [];
    assert df.columns == Filter(m.columns, Varies(m));
  }

  /** `join_datasets`: merge the five tables, then drop the columns that do
      not vary. */
  method JoinDatasets(calls: Frame, crm: Frame, coll: Frame, qa: Frame, csat: Frame) returns (r: Result<Frame>)
    requires WellFormed(calls) && WellFormed(crm) && WellFormed(coll) && WellFormed(qa) && WellFormed(csat)
    ensures MergeAll(calls, crm, coll, qa, csat).Err? ==> r == MergeAll(calls, crm, coll, qa, csat)
    ensures MergeAll(calls, crm, coll, qa, csat).Ok? ==> r == Ok(Pruned(MergeAll(calls, crm, coll, qa, csat).value))
  {
    var m := MergeAll(calls, crm, coll, qa, csat);
    if m.Err? {
      return m;
    }
    MergeAllWellFormed(calls, crm, coll, qa, csat);
    var df := DropConstantColumns(m.value);
    return Ok(df);
  }

  /** Merging well-formed tables gives a well-formed table. */
  lemma MergeAllWellFormed(calls: Frame, crm: Frame, coll: Frame, qa: Frame, csat: Frame)
    requires WellFormed(calls) && WellFormed(crm) && WellFormed(coll) && WellFormed(qa) && WellFormed(csat)
    requires MergeAll(calls, crm, coll, qa, csat).Ok?
    ensures WellFormed(MergeAll(calls, crm, coll, qa, csat).value)
  {
    LeftMergeShape(calls, crm, "call_id", "_crm");
    var a := LeftMerge(calls, crm, "call_id", "_crm").value;
    LeftMergeShape(a, coll, "customer_id", "_coll");
    var b := LeftMerge(a, coll, "customer_id", "_coll").value;
    LeftMergeShape(b, qa, "call_id", "_qa");
    var c := LeftMerge(b, qa, "call_id", "_qa").value;
    LeftMergeShape(c, csat, "call_id", "_csat");
  }

  /** After pruning, the kept labels are exactly the varying columns of the
      merged frame, in their order; every kept column still has more than
      one distinct non-missing value and keeps its cells; no row is lost. */
  lemma PrunedSpec(f: Frame)
    requires WellFormed(f)
    ensures forall c :: c in Pruned(f).columns <==> c in f.columns && NUnique(f, c) > 1
    ensures Subsequence(Pruned(f).columns, f.columns)
    ensures |Pruned(f).rows| == |f.rows|
    ensures forall c :: c in Pruned(f).columns ==> Column(Pruned(f), c) == Column(f, c) && NUnique(Pruned(f), c) > 1
    ensures WellFormed(Pruned(f))
  {
    PrunedLabels(f.columns, Varies(f));
    PrunedCells(f);
    PrunedRows(f);
  }

  /** A column whose cells are all missing, or all equal where present, is
      dropped. */
  lemma ConstantColumnDropped(f: Frame, c: string)
    requires forall i, j ::
      (0 <= i < |f.rows| && 0 <= j < |f.rows| && !Get(f.rows[i], c).Missing? && !Get(f.rows[j], c).Missing?) ==>
        Get(f.rows[i], c) == Get(f.rows[j], c)
    ensures c !in Pruned(f).columns
  {
    NUniqueAtMostOne(f, c);
  }

  /** The kept labels are the varying ones, in their order, without repeats. */
  lemma PrunedLabels(cols: seq<string>, p: string -> bool)
    requires Distinct(cols)
    ensures Subsequence(Filter(cols, p), cols) && Distinct(Filter(cols, p))
  {
    FilterIsSubsequence(cols, p);
    SubsequenceDistinct(Filter(cols, p), cols);
  }

  /** A kept column keeps all its cells. */
  lemma PrunedCells(f: Frame)
    ensures forall c :: c in Pruned(f).columns ==> Column(Pruned(f), c) == Column(f, c)
  {
    var p := Pruned(f);
    forall c | c in p.columns ensures Column(p, c) == Column(f, c) {
      forall k | 0 <= k < |f.rows| ensures Get(p.rows[k], c) == Get(f.rows[k], c) {
      }
    }
  }

  /** Each pruned row has exactly the kept labels. */
  lemma PrunedRows(f: Frame)
    requires WellFormed(f)
    ensures forall r :: r in Pruned(f).rows ==> r.Keys == ColumnSet(Pruned(f).columns)
  {
    var p := Pruned(f);
    forall r | r in p.rows ensures r.Keys == ColumnSet(p.columns) {
      var k :| 0 <= k < |p.rows| && p.rows[k] == r;
      assert f.rows[k] in f.rows;
    }
  }

  /** Labels of a prefix are labels of the whole. */
  lemma PrefixKeepsLabels(a: seq<string>, g: seq<string>, cols: seq<string>)
    requires |a| <= |g| && g[..|a|] == a
    requires forall c :: c in cols ==> c in a
    ensures forall c :: c in cols ==> c in g
  {
    forall c | c in cols ensures c in g {
      var k :| 0 <= k < |a| && a[k] == c;
      assert g[..|a|][k] == c;
    }
  }

  /** One left merge of well-formed frames keeps every row of its left side,
      with the cells of any labels the left side already had. */
  lemma MergeCovers(left: Frame, right: Frame, key: string, suffix: string, cols: seq<string>)
    requires WellFormed(left) && WellFormed(right) && LeftMerge(left, right, key, suffix).Ok?
    requires forall c :: c in cols ==> c in left.columns
    ensures WellFormed(LeftMerge(left, right, key, suffix).value)
    ensures forall c :: c in cols ==> c in LeftMerge(left, right, key, suffix).value.columns
    ensures |LeftMerge(left, right, key, suffix).value.rows| >= |left.rows|
    ensures Covers(LeftMerge(left, right, key, suffix).value.rows, left.rows, cols)
  {
    var g := LeftMerge(left, right, key, suffix).value;
    LeftMergeShape(left, right, key, suffix);
    LeftMergeRowCount(left, right, key, suffix);
    PrefixKeepsLabels(left.columns, g.columns, cols);
    LeftMergeTracesLeft(left, right, key, suffix);
    CoversFewer(g.rows, left.rows, left.columns, cols);
  }

  /** Every call row survives the four merges: the merged table has at least
      as many rows as the calls table, and each call row appears in it with
      all of its own cells. */
  lemma MergeAllKeepsCalls(calls: Frame, crm: Frame, coll: Frame, qa: Frame, csat: Frame)
    requires WellFormed(calls) && WellFormed(crm) && WellFormed(coll) && WellFormed(qa) && WellFormed(csat)
    requires MergeAll(calls, crm, coll, qa, csat).Ok?
    ensures |MergeAll(calls, crm, coll, qa, csat).value.rows| >= |calls.rows|
    ensures Covers(MergeAll(calls, crm, coll, qa, csat).value.rows, calls.rows, calls.columns)
  {
    var cs := calls.columns;
    MergeCovers(calls, crm, "call_id", "_crm", cs);
    var a := LeftMerge(calls, crm, "call_id", "_crm").value;
    MergeCovers(a, coll, "customer_id", "_coll", cs);
    var b := LeftMerge(a, coll, "customer_id", "_coll").value;
    MergeCovers(b, qa, "call_id", "_qa", cs);
    var c := LeftMerge(b, qa, "call_id", "_qa").value;
    MergeCovers(c, csat, "call_id", "_csat", cs);
    var d := LeftMerge(c, csat, "call_id", "_csat").value;
    CoversTransitive(b.rows, a.rows, calls.rows, cs);
    CoversTransitive(c.rows, b.rows, calls.rows, cs);
    CoversTransitive(d.rows, c.rows, calls.rows, cs);
    assert MergeAll(calls, crm, coll, qa, csat).value == d;
  }

  /** Pruning keeps each row, and the cells of each column that varies. */
  lemma PrunedCovers(m: Frame, l: seq<Row>, cols: seq<string>)
    requires WellFormed(m) && Covers(m.rows, l, cols)
    requires forall c :: c in cols ==> c in m.columns
    ensures Covers(Pruned(m).rows, l, Filter(cols, Varies(m)))
  {
    PrunedSpec(m);
    var p := Pruned(m);
    var kept := Filter(cols, Varies(m));
    forall i | 0 <= i < |l| ensures Shows(p.rows, l[i], kept) {
      assert Shows(m.rows, l[i], cols);
      var j :| 0 <= j < |m.rows| && AgreeOn(m.rows[j], l[i], cols);
      forall c | c in kept ensures Get(p.rows[j], c) == Get(l[i], c) {
        assert c in p.columns;
        assert Column(p, c)[j] == Column(m, c)[j];
      }
      assert AgreeOn(p.rows[j], l[i], kept);
    }
  }

  /** `join_datasets` keeps every call row, and the call columns that
      survive pruning (those that vary in the merged table) hold that row's
      cells. */
  lemma JoinDatasetsKeepsCalls(calls: Frame, crm: Frame, coll: Frame, qa: Frame, csat: Frame)
    requires WellFormed(calls) && WellFormed(crm) && WellFormed(coll) && WellFormed(qa) && WellFormed(csat)
    requires MergeAll(calls, crm, coll, qa, csat).Ok?
    ensures |Pruned(MergeAll(calls, crm, coll, qa, csat).value).rows| >= |calls.rows|
    ensures Covers(Pruned(MergeAll(calls, crm, coll, qa, csat).value).rows, calls.rows,
                   Filter(calls.columns, Varies(MergeAll(calls, crm, coll, qa, csat).value)))
  {
    var m := MergeAll(calls, crm, coll, qa, csat).value;
    MergeAllWellFormed(calls, crm, coll, qa, csat);
    MergeAllKeepsCalls(calls, crm, coll, qa, csat);
    MergeAllHasCallColumns(calls, crm, coll, qa, csat);
    PrunedSpec(m);
    PrunedCovers(m, calls.rows, calls.columns);
  }

  /** The merged table has every label of the calls table. */
  lemma MergeAllHasCallColumns(calls: Frame, crm: Frame, coll: Frame, qa: Frame, csat: Frame)
    requires WellFormed(calls) && WellFormed(crm) && WellFormed(coll) && WellFormed(qa) && WellFormed(csat)
    requires MergeAll(calls, crm, coll, qa, csat).Ok?
    ensures forall c :: c in calls.columns ==> c in MergeAll(calls, crm, coll, qa, csat).value.columns
  {
    var cs := calls.columns;
    MergeCovers(calls, crm, "call_id", "_crm", cs);
    var a := LeftMerge(calls, crm, "call_id", "_crm").value;
    MergeCovers(a, coll, "customer_id", "_coll", cs);
    var b := LeftMerge(a, coll, "customer_id", "_coll").value;
    MergeCovers(b, qa, "call_id", "_qa", cs);
    var c := LeftMerge(b, qa, "call_id", "_qa").value;
    MergeCovers(c, csat, "call_id", "_csat", cs);
    assert MergeAll(calls, crm, coll, qa, csat).value == LeftMerge(c, csat, "call_id", "_csat").value;
  }

  /** The point of collapsing collections to one row per customer: merging
      the prepared collections on the customer id adds no rows, and leaves
      each row's own cells alone. */
  lemma CollectionsMergeAddsNoRows(left: Frame, coll: Frame, today: int)
    requires PrepareCollections(coll, today).Ok?
    requires LeftMerge(left, PrepareCollections(coll, today).value, "customer_id", "_coll").Ok?
    ensures |LeftMerge(left, PrepareCollections(coll, today).value, "customer_id", "_coll").value.rows| == |left.rows|
    ensures forall i :: 0 <= i < |left.rows| ==>
      AgreeOn(LeftMerge(left, PrepareCollections(coll, today).value, "customer_id", "_coll").value.rows[i], left.rows[i], left.columns)
  {
    PrepareCollectionsOnePerCustomer(coll, today);
    LeftMergeRowCount(left, PrepareCollections(coll, today).value, "customer_id", "_coll");
  }

  /** Row `g` holds, under the collections labels, the cells of the account
      whose customer id is its own, or missing cells when no account has
      that customer id. */
  predicate CustomerCells(g: Row, accounts: seq<Row>, carried: seq<string>, names: seq<string>)
    requires |carried| == |names|
  {
    && (forall a :: a in accounts && Get(a, "customer_id") == Get(g, "customer_id") ==> Carries(g, a, carried, names))
    && (Unmatched(accounts, "customer_id", Get(g, "customer_id")) ==> Carries(g, map[], carried, names))
  }

  /** A row that agrees with another on the customer id and the collections
      labels has the same collections cells. */
  lemma CustomerCellsAgree(x: Row, y: Row, cols: seq<string>, accounts: seq<Row>, carried: seq<string>, names: seq<string>)
    requires |carried| == |names|
    requires AgreeOn(x, y, cols) && "customer_id" in cols && forall c :: c in names ==> c in cols
    requires CustomerCells(y, accounts, carried, names)
    ensures CustomerCells(x, accounts, carried, names)
  {
    assert forall k :: 0 <= k < |names| ==> names[k] in names;
  }

  /** With one account per customer, merging on the customer id gives each
      row the cells of the account with its customer id, or missing cells
      when that customer has no account; no row is added or lost. */
  lemma CollectionsMergeCells(left: Frame, accounts: Frame)
    requires KeyUnique(accounts.rows, "customer_id")
    requires LeftMerge(left, accounts, "customer_id", "_coll").Ok?
    ensures var g := LeftMerge(left, accounts, "customer_id", "_coll").value;
      var carried := Remove(accounts.columns, "customer_id");
      var names := Renamed(carried, left.columns, "_coll");
      && |g.rows| == |left.rows|
      && forall i :: 0 <= i < |g.rows| ==>
           AgreeOn(g.rows[i], left.rows[i], left.columns) && CustomerCells(g.rows[i], accounts.rows, carried, names)
  {
    var g := LeftMerge(left, accounts, "customer_id", "_coll").value;
    var carried := Remove(accounts.columns, "customer_id");
    var names := Renamed(carried, left.columns, "_coll");
    LeftMergeUniqueCells(left, accounts, "customer_id", "_coll");
    forall i | 0 <= i < |g.rows|
      ensures AgreeOn(g.rows[i], left.rows[i], left.columns) && CustomerCells(g.rows[i], accounts.rows, carried, names)
    {
      if Unmatched(accounts.rows, "customer_id", Get(left.rows[i], "customer_id")) {
        assert JoinedWith(g.rows[i], left.rows[i], map[], left.columns, carried, names);
      } else {
        var a :| a in accounts.rows && Get(a, "customer_id") == Get(left.rows[i], "customer_id");
        assert JoinedWith(g.rows[i], left.rows[i], a, left.columns, carried, names);
      }
      assert Get(g.rows[i], "customer_id") == Get(left.rows[i], "customer_id");
    }
  }

  /** After the four merges of `join_datasets`, with one collections row
      per customer, every merged row holds under the collections labels the
      cells of the account with its customer id, or missing cells when that
      customer has no account. */
  lemma MergeAllCollectionsCells(calls: Frame, crm: Frame, coll: Frame, qa: Frame, csat: Frame)
    requires WellFormed(calls) && WellFormed(crm) && WellFormed(coll) && WellFormed(qa) && WellFormed(csat)
    requires KeyUnique(coll.rows, "customer_id")
    requires MergeAll(calls, crm, coll, qa, csat).Ok?
    ensures var a := LeftMerge(calls, crm, "call_id", "_crm").value;
      var carried := Remove(coll.columns, "customer_id");
      var names := Renamed(carried, a.columns, "_coll");
      forall g :: g in MergeAll(calls, crm, coll, qa, csat).value.rows ==> CustomerCells(g, coll.rows, carried, names)
  {
    var a := LeftMerge(calls, crm, "call_id", "_crm").value;
    var carried := Remove(coll.columns, "customer_id");
    var names := Renamed(carried, a.columns, "_coll");
    LeftMergeShape(calls, crm, "call_id", "_crm");
    LeftMergeShape(a, coll, "customer_id", "_coll");
    var b := LeftMerge(a, coll, "customer_id", "_coll").value;
    CollectionsMergeCells(a, coll);
    LeftMergeShape(b, qa, "call_id", "_qa");
    var c := LeftMerge(b, qa, "call_id", "_qa").value;
    var d := LeftMerge(c, csat, "call_id", "_csat").value;
    assert MergeAll(calls, crm, coll, qa, csat).value == d;
    assert b.columns == a.columns + names;
    LaterMergesTrace(b, qa, csat);
    forall g | g in d.rows ensures CustomerCells(g, coll.rows, carried, names) {
      var j :| 0 <= j < |d.rows| && d.rows[j] == g;
      assert TracedTo(d.rows[j], b.rows, b.columns);
      var i :| 0 <= i < |b.rows| && AgreeOn(g, b.rows[i], b.columns);
      CustomerCellsAgree(g, b.rows[i], b.columns, coll.rows, carried, names);
    }
  }

  /** The merges with the survey tables keep tracing each row back to the
      frame they start from. */
  lemma LaterMergesTrace(b: Frame, qa: Frame, csat: Frame)
    requires WellFormed(b) && WellFormed(qa)
    requires LeftMerge(b, qa, "call_id", "_qa").Ok?
    requires LeftMerge(LeftMerge(b, qa, "call_id", "_qa").value, csat, "call_id", "_csat").Ok?
    ensures Traces(LeftMerge(LeftMerge(b, qa, "call_id", "_qa").value, csat, "call_id", "_csat").value.rows, b.rows, b.columns)
  {
    var c := LeftMerge(b, qa, "call_id", "_qa").value;
    var d := LeftMerge(c, csat, "call_id", "_csat").value;
    LeftMergeShape(b, qa, "call_id", "_qa");
    MergeTraces(b, qa, "call_id", "_qa");
    MergeTraces(c, csat, "call_id", "_csat");
    TracesTransitive(d.rows, c.rows, b.rows, c.columns, b.columns);
  }

  /** Every row of a left merge traces back to a left row. */
  lemma MergeTraces(left: Frame, right: Frame, key: string, suffix: string)
    requires LeftMerge(left, right, key, suffix).Ok?
    ensures Traces(LeftMerge(left, right, key, suffix).value.rows, left.rows, left.columns)
    ensures forall c :: c in left.columns ==> c in LeftMerge(left, right, key, suffix).value.columns
  {
    LeftMergeTracesLeft(left, right, key, suffix);
  }

  /** The same, for the prepared collections table, which has one row per
      customer. */
  lemma PreparedCollectionsCells(calls: Frame, crm: Frame, raw: Frame, today: int, qa: Frame, csat: Frame)
    requires WellFormed(calls) && WellFormed(crm) && WellFormed(raw) && WellFormed(qa) && WellFormed(csat)
    requires PrepareCollections(raw, today).Ok?
    requires MergeAll(calls, crm, PrepareCollections(raw, today).value, qa, csat).Ok?
    ensures var coll := PrepareCollections(raw, today).value;
      var a := LeftMerge(calls, crm, "call_id", "_crm").value;
      var carried := Remove(coll.columns, "customer_id");
      var names := Renamed(carried, a.columns, "_coll");
      forall g :: g in MergeAll(calls, crm, coll, qa, csat).value.rows ==> CustomerCells(g, coll.rows, carried, names)
  {
    PrepareCollectionsShape(raw, today);
    PrepareCollectionsOnePerCustomer(raw, today);
    MergeAllCollectionsCells(calls, crm, PrepareCollections(raw, today).value, qa, csat);
  }

  /** Every merged row agrees with some call row on all the call columns:
      the merges add columns and repeat rows, and invent no call. */
  lemma MergeAllTracesCalls(calls: Frame, crm: Frame, coll: Frame, qa: Frame, csat: Frame)
    requires MergeAll(calls, crm, coll, qa, csat).Ok?
    ensures Traces(MergeAll(calls, crm, coll, qa, csat).value.rows, calls.rows, calls.columns)
  {
    MergeTraces(calls, crm, "call_id", "_crm");
    var a := LeftMerge(calls, crm, "call_id", "_crm").value;
    MergeTraces(a, coll, "customer_id", "_coll");
    var b := LeftMerge(a, coll, "customer_id", "_coll").value;
    MergeTraces(b, qa, "call_id", "_qa");
    var c := LeftMerge(b, qa, "call_id", "_qa").value;
    MergeTraces(c, csat, "call_id", "_csat");
    var d := LeftMerge(c, csat, "call_id", "_csat").value;
    TracesTransitive(b.rows, a.rows, calls.rows, a.columns, calls.columns);
    TracesTransitive(c.rows, b.rows, calls.rows, b.columns, calls.columns);
    TracesTransitive(d.rows, c.rows, calls.rows, c.columns, calls.columns);
    assert MergeAll(calls, crm, coll, qa, csat).value == d;
  }

  /** Every row `join_datasets` returns agrees with some call row on the
      call columns that survive pruning. */
  lemma JoinDatasetsTracesCalls(calls: Frame, crm: Frame, coll: Frame, qa: Frame, csat: Frame)
    requires WellFormed(calls) && WellFormed(crm) && WellFormed(coll) && WellFormed(qa) && WellFormed(csat)
    requires MergeAll(calls, crm, coll, qa, csat).Ok?
    ensures Traces(Pruned(MergeAll(calls, crm, coll, qa, csat).value).rows, calls.rows,
                   Filter(calls.columns, Varies(MergeAll(calls, crm, coll, qa, csat).value)))
  {
    var m := MergeAll(calls, crm, coll, qa, csat).value;
    MergeAllWellFormed(calls, crm, coll, qa, csat);
    MergeAllTracesCalls(calls, crm, coll, qa, csat);
    MergeAllHasCallColumns(calls, crm, coll, qa, csat);
    PrunedTraces(m, calls.rows, calls.columns);
  }

  /** Pruning keeps each row's cells in the columns that vary. */
  lemma PrunedTraces(m: Frame, l: seq<Row>, cols: seq<string>)
    requires WellFormed(m) && Traces(m.rows, l, cols)
    requires forall c :: c in cols ==> c in m.columns
    ensures Traces(Pruned(m).rows, l, Filter(cols, Varies(m)))
  {
    PrunedSpec(m);
    var p := Pruned(m);
    var kept := Filter(cols, Varies(m));
    forall j | 0 <= j < |p.rows| ensures TracedTo(p.rows[j], l, kept) {
      assert TracedTo(m.rows[j], l, cols);
      var i :| 0 <= i < |l| && AgreeOn(m.rows[j], l[i], cols);
      forall c | c in kept ensures Get(p.rows[j], c) == Get(l[i], c) {
        assert c in p.columns;
        assert Column(p, c)[j] == Column(m, c)[j];
      }
    }
  }
}
