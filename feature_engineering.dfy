/** Feature construction on the joined call table
    (src/feature_engineering.py): calendar features, the service-level and
    repeat-contact flags, the payment-plan realism ratio, and the selection
    of the modelling dataset. */
module FeatureEngineering {
  import opened Cells
  import opened Tables
  import opened Sorting

  // =====================================================================
  // add_temporal_features

  /** `.dt.date`: the call's day, kept as the midnight that starts it. */
  function CallDate(start: Value): Value
  {
    if start.Stamp? then Stamp(Midnight(start.sec)) else Missing
  }

  /** `.dt.hour`. */
  function CallHour(start: Value): Value
  {
    if start.Stamp? then Num(HourOfDay(start.sec) as real) else Missing
  }

  /** `.dt.dayofweek`. */
  function CallDayOfWeek(start: Value): Value
  {
    if start.Stamp? then Num(DayOfWeek(start.sec) as real) else Missing
  }

  /** The frame after `add_temporal_features`: three columns derived from
      `call_start`, assigned in order. */
  function WithTemporal(f: Frame): Frame
  {
    var n := |f.rows|;
    var starts := Column(f, "call_start");
    var dated := WithColumn(f, "call_date", seq(n, i requires 0 <= i < n => CallDate(starts[i])));
    var hours := WithColumn(dated, "call_hour", seq(n, i requires 0 <= i < n => CallHour(starts[i])));
    WithColumn(hours, "call_dow", seq(n, i requires 0 <= i < n => CallDayOfWeek(starts[i])))
  }

  /** `add_temporal_features(df)`: changes the caller's frame in place and
      fails, leaving it as it was, when there is no `call_start` column. */
  method AddTemporalFeatures(df: Table) returns (e: Outcome)
    modifies df
    ensures "call_start" !in old(df.columns) ==> e == Fail(KeyError("call_start")) && df.Snapshot() == old(df.Snapshot())
    ensures "call_start" in old(df.columns) ==> e == Pass && df.Snapshot() == WithTemporal(old(df.Snapshot()))
  {
    if "call_start" !in df.columns {
      return Fail(KeyError("call_start"));
    }
    var n := |df.rows|;
    var starts := Column(df.Snapshot(), "call_start");
    df.Assign("call_date", seq(n, i requires 0 <= i < n => CallDate(starts[i])));
    df.Assign("call_hour", seq(n, i requires 0 <= i < n => CallHour(starts[i])));
    df.Assign("call_dow", seq(n, i requires 0 <= i < n => CallDayOfWeek(starts[i])));
    return Pass;
  }

  /** The calendar features of a start time: its day, an hour in 0..23 and
      a weekday in 0..6 (Monday first), all missing when the start is; one
      day later the hour is the same and the weekday the next one. */
  lemma CalendarFeatures(t: Value)
    ensures t.Stamp? ==>
      && CallDate(t).Stamp? && CallDate(t).sec <= t.sec < CallDate(t).sec + SecondsPerDay
      && CallDate(t).sec % SecondsPerDay == 0
      && CallHour(t).Num? && CallHour(t).x == HourOfDay(t.sec) as real && 0.0 <= CallHour(t).x < 24.0
      && CallDayOfWeek(t).Num? && CallDayOfWeek(t).x == DayOfWeek(t.sec) as real && 0.0 <= CallDayOfWeek(t).x < 7.0
      && CallHour(Stamp(t.sec + SecondsPerDay)) == CallHour(t)
      && CallDayOfWeek(Stamp(t.sec + SecondsPerDay)) == Num(((DayOfWeek(t.sec) + 1) % 7) as real)
    ensures !t.Stamp? ==> CallDate(t) == Missing && CallHour(t) == Missing && CallDayOfWeek(t) == Missing
  {
    if t.Stamp? {
      DayOfWeekAdvances(t.sec);
    }
  }

  /** `add_temporal_features` gives each row the calendar features of its
      own `call_start` and changes nothing else. */
  lemma TemporalFeaturesRows(f: Frame)
    ensures |WithTemporal(f).rows| == |f.rows|
    ensures forall k :: 0 <= k < |f.rows| ==>
      var r, t := WithTemporal(f).rows[k], Get(f.rows[k], "call_start");
      Get(r, "call_date") == CallDate(t) && Get(r, "call_hour") == CallHour(t) && Get(r, "call_dow") == CallDayOfWeek(t)
    ensures forall k, c :: 0 <= k < |f.rows| && c !in ["call_date", "call_hour", "call_dow"] ==>
      Get(WithTemporal(f).rows[k], c) == Get(f.rows[k], c)
  {
  }

  /** A well-formed frame stays well formed and gains the three labels. */
  lemma TemporalFeaturesShape(f: Frame)
    requires WellFormed(f)
    ensures WellFormed(WithTemporal(f))
    ensures ColumnSet(WithTemporal(f).columns) == ColumnSet(f.columns) + {"call_date", "call_hour", "call_dow"}
    ensures WithTemporal(f).columns == AddedLabels(f.columns, ["call_date", "call_hour", "call_dow"])
  {
    var n := |f.rows|;
    var starts := Column(f, "call_start");
    var v1 := seq(n, i requires 0 <= i < n => CallDate(starts[i]));
    var v2 := seq(n, i requires 0 <= i < n => CallHour(starts[i]));
    var v3 := seq(n, i requires 0 <= i < n => CallDayOfWeek(starts[i]));
    var f1 := WithColumn(f, "call_date", v1);
    var f2 := WithColumn(f1, "call_hour", v2);
    WithColumnShape(f, "call_date", v1);
    WithColumnShape(f1, "call_hour", v2);
    WithColumnShape(f2, "call_dow", v3);
    TemporalLabels(f);
  }

  lemma TemporalLabels(f: Frame)
    ensures WithTemporal(f).columns == AddedLabels(f.columns, ["call_date", "call_hour", "call_dow"])
  {
    var n := |f.rows|;
    var starts := Column(f, "call_start");
    var v1 := seq(n, i requires 0 <= i < n => CallDate(starts[i]));
    var v2 := seq(n, i requires 0 <= i < n => CallHour(starts[i]));
    var v3 := seq(n, i requires 0 <= i < n => CallDayOfWeek(starts[i]));
    var f1 := WithColumn(f, "call_date", v1);
    var f2 := WithColumn(f1, "call_hour", v2);
    assert AddedLabels(f.columns, []) == f.columns;
    WithColumnLabels(f, "call_date", v1, f.columns, []);
    assert [] + ["call_date"] == ["call_date"];
    WithColumnLabels(f1, "call_hour", v2, f.columns, ["call_date"]);
    assert ["call_date"] + ["call_hour"] == ["call_date", "call_hour"];
    WithColumnLabels(f2, "call_dow", v3, f.columns, ["call_date", "call_hour"]);
    assert ["call_date", "call_hour"] + ["call_dow"] == ["call_date", "call_hour", "call_dow"];
  }

  // =====================================================================
  // add_performance_flags

  const DefaultSlaSeconds: int := 20
  const DefaultRepeatDays: int := 7

  /** `(queue_time <= sla_seconds).astype(int)`: a missing queue time is a
      miss. */
  function SlaMet(queue: Value, slaSeconds: int): Value
  {
    Indicator(AtMost(queue, Num(slaSeconds as real)))
  }

  /** The caller's frame after the `sla_met` assignment. */
  function WithSla(f: Frame, slaSeconds: int): Frame
  {
    var n := |f.rows|;
    WithColumn(f, "sla_met", seq(n, i requires 0 <= i < n => SlaMet(Get(f.rows[i], "queue_time"), slaSeconds)))
  }

  /** The sort order of the flag computation: by customer, then by start. */
  const CallOrder: seq<string> := ["customer_id", "call_start"]

  /** `groupby("customer_id")["call_start"].shift(-1)` at row `i`: the start
      of the next row of the same customer, or missing when there is none or
      the customer id itself is missing (such rows form no group). */
  function NextStart(rows: seq<Row>, i: int): Value
    requires 0 <= i < |rows|
  {
    var customer := Get(rows[i], "customer_id");
    if customer.Missing? then Missing else StartOfNext(rows, customer, i + 1)
  }

  /** The start of the first row at or after `j` whose customer is `customer`. */
  function StartOfNext(rows: seq<Row>, customer: Value, j: int): Value
    requires 0 <= j <= |rows|
    decreases |rows| - j
  {
    if j == |rows| then Missing
    else if Get(rows[j], "customer_id") == customer then Get(rows[j], "call_start")
    else StartOfNext(rows, customer, j + 1)
  }

  /** `1 - repeat_contact_flag`. */
  function Complement(flag: Value): Value
  {
    if flag.Num? then Num(1.0 - flag.x) else Missing
  }

  /** The rows in the order the flags are computed in. */
  function CallsInOrder(f: Frame): seq<Row>
  {
    SortValues(f.rows, CallOrder, true)
  }

  /** The sorted copy with the four repeat-contact columns, in the order
      they are assigned. */
  function WithRepeatFlags(f: Frame, repeatDays: int): Result<Frame>
  {
    if "customer_id" !in f.columns then Err(KeyError("customer_id"))
    else if "call_start" !in f.columns then Err(KeyError("call_start"))
    else
      Ok(FlagColumns(Frame(f.columns, CallsInOrder(f)), repeatDays))
  }

  /** The four flag columns, assigned one after another to the sorted calls. */
  function FlagColumns(s: Frame, repeatDays: int): Frame
  {
    var n := |s.rows|;
    var next := WithColumn(s, "next_call_date", seq(n, i requires 0 <= i < n => NextStart(s.rows, i)));
    var days := WithColumn(next, "days_to_next_call",
      seq(n, i requires 0 <= i < n => ElapsedDays(Get(next.rows[i], "next_call_date"), Get(next.rows[i], "call_start"))));
    var flag := WithColumn(days, "repeat_contact_flag",
      seq(n, i requires 0 <= i < n => Indicator(AtMost(Get(days.rows[i], "days_to_next_call"), Num(repeatDays as real)))));
    WithColumn(flag, "fcr_flag", seq(n, i requires 0 <= i < n => Complement(Get(flag.rows[i], "repeat_contact_flag"))))
  }

  /** One sorted row with its repeat-contact columns. */
  function FlagRow(r: Row, next: Value, repeatDays: int): Row
  {
    var days := ElapsedDays(next, Get(r, "call_start"));
    var flag := Indicator(AtMost(days, Num(repeatDays as real)));
    r["next_call_date" := next]["days_to_next_call" := days]["repeat_contact_flag" := flag]["fcr_flag" := Complement(flag)]
  }

  /** `add_performance_flags(df, sla_seconds, repeat_days)`: adds `sla_met`
      to the caller's frame in place, then returns a sorted copy carrying the
      repeat-contact columns. A missing `queue_time` fails before anything
      changes; a missing `customer_id` or `call_start` fails after `sla_met`
      has been added. */
  method AddPerformanceFlags(df: Table, slaSeconds: int := DefaultSlaSeconds, repeatDays: int := DefaultRepeatDays) returns (r: Result<Frame>)
    modifies df
    ensures "queue_time" !in old(df.columns) ==> r == Err(KeyError("queue_time")) && df.Snapshot() == old(df.Snapshot())
    ensures "queue_time" in old(df.columns) ==>
      df.Snapshot() == WithSla(old(df.Snapshot()), slaSeconds) && r == WithRepeatFlags(df.Snapshot(), repeatDays)
  {
    if "queue_time" !in df.columns {
      return Err(KeyError("queue_time"));
    }
    var n := |df.rows|;
    var queue := Column(df.Snapshot(), "queue_time");
    df.Assign("sla_met", seq(n, i requires 0 <= i < n => SlaMet(queue[i], slaSeconds)));
    r := WithRepeatFlags(df.Snapshot(), repeatDays);
  }

  /** `sla_met` is 1 exactly when the queue time is present and at most the
      threshold, and 0 otherwise. */
  lemma SlaMetSpec(queue: Value, slaSeconds: int)
    ensures SlaMet(queue, slaSeconds) in {Num(0.0), Num(1.0)}
    ensures SlaMet(queue, slaSeconds) == Num(1.0) <==> queue.Num? && queue.x <= slaSeconds as real
    ensures queue.Missing? ==> SlaMet(queue, slaSeconds) == Num(0.0)
  {
  }

  /** The SLA column is appended when the frame lacks it, holds the flag of
      each row's own queue time, and leaves every other cell alone; a
      well-formed frame stays well-formed. */
  lemma SlaShape(f: Frame, slaSeconds: int)
    ensures WithSla(f, slaSeconds).columns == AddedLabels(f.columns, ["sla_met"])
    ensures |WithSla(f, slaSeconds).rows| == |f.rows|
    ensures forall i :: 0 <= i < |f.rows| ==>
      Get(WithSla(f, slaSeconds).rows[i], "sla_met") == SlaMet(Get(f.rows[i], "queue_time"), slaSeconds)
    ensures forall i, c :: 0 <= i < |f.rows| && c != "sla_met" ==> Get(WithSla(f, slaSeconds).rows[i], c) == Get(f.rows[i], c)
    ensures WellFormed(f) ==> WellFormed(WithSla(f, slaSeconds))
  {
    var n := |f.rows|;
    var v := seq(n, i requires 0 <= i < n => SlaMet(Get(f.rows[i], "queue_time"), slaSeconds));
    assert AddedLabels(f.columns, []) == f.columns;
    WithColumnLabels(f, "sla_met", v, f.columns, []);
    assert [] + ["sla_met"] == ["sla_met"];
    if WellFormed(f) {
      WithColumnShape(f, "sla_met", v);
    }
  }

  /** The four flag labels are appended, in assignment order, when the
      frame lacks them; a well-formed frame stays well-formed. */
  lemma RepeatFlagsShape(f: Frame, repeatDays: int)
    requires WithRepeatFlags(f, repeatDays).Ok?
    ensures WithRepeatFlags(f, repeatDays).value.columns ==
      AddedLabels(f.columns, ["next_call_date", "days_to_next_call", "repeat_contact_flag", "fcr_flag"])
    ensures WellFormed(f) ==> WellFormed(WithRepeatFlags(f, repeatDays).value)
  {
    var s := Frame(f.columns, CallsInOrder(f));
    RepeatFlagsLabels(s, repeatDays);
    if WellFormed(f) {
      SortValuesSpec(f.rows, CallOrder, true);
      assert forall x :: x in s.rows ==> x in multiset(f.rows);
      RepeatFlagsWellFormed(s, repeatDays);
    }
  }

  lemma RepeatFlagsLabels(s: Frame, repeatDays: int)
    ensures FlagColumns(s, repeatDays).columns ==
      AddedLabels(s.columns, ["next_call_date", "days_to_next_call", "repeat_contact_flag", "fcr_flag"])
  {
    var n := |s.rows|;
    var v1 := seq(n, i requires 0 <= i < n => NextStart(s.rows, i));
    var next := WithColumn(s, "next_call_date", v1);
    var v2 := seq(n, i requires 0 <= i < n => ElapsedDays(Get(next.rows[i], "next_call_date"), Get(next.rows[i], "call_start")));
    var days := WithColumn(next, "days_to_next_call", v2);
    var v3 := seq(n, i requires 0 <= i < n => Indicator(AtMost(Get(days.rows[i], "days_to_next_call"), Num(repeatDays as real))));
    var flag := WithColumn(days, "repeat_contact_flag", v3);
    var v4 := seq(n, i requires 0 <= i < n => Complement(Get(flag.rows[i], "repeat_contact_flag")));
    assert AddedLabels(s.columns, []) == s.columns;
    WithColumnLabels(s, "next_call_date", v1, s.columns, []);
    assert [] + ["next_call_date"] == ["next_call_date"];
    WithColumnLabels(next, "days_to_next_call", v2, s.columns, ["next_call_date"]);
    assert ["next_call_date"] + ["days_to_next_call"] == ["next_call_date", "days_to_next_call"];
    WithColumnLabels(days, "repeat_contact_flag", v3, s.columns, ["next_call_date", "days_to_next_call"]);
    assert ["next_call_date", "days_to_next_call"] + ["repeat_contact_flag"] ==
      ["next_call_date", "days_to_next_call", "repeat_contact_flag"];
    WithColumnLabels(flag, "fcr_flag", v4, s.columns, ["next_call_date", "days_to_next_call", "repeat_contact_flag"]);
    assert ["next_call_date", "days_to_next_call", "repeat_contact_flag"] + ["fcr_flag"] ==
      ["next_call_date", "days_to_next_call", "repeat_contact_flag", "fcr_flag"];
  }

  lemma RepeatFlagsWellFormed(s: Frame, repeatDays: int)
    requires WellFormed(s)
    ensures WellFormed(FlagColumns(s, repeatDays))
  {
    var n := |s.rows|;
    var v1 := seq(n, i requires 0 <= i < n => NextStart(s.rows, i));
    var next := WithColumn(s, "next_call_date", v1);
    var v2 := seq(n, i requires 0 <= i < n => ElapsedDays(Get(next.rows[i], "next_call_date"), Get(next.rows[i], "call_start")));
    var days := WithColumn(next, "days_to_next_call", v2);
    var v3 := seq(n, i requires 0 <= i < n => Indicator(AtMost(Get(days.rows[i], "days_to_next_call"), Num(repeatDays as real))));
    var flag := WithColumn(days, "repeat_contact_flag", v3);
    var v4 := seq(n, i requires 0 <= i < n => Complement(Get(flag.rows[i], "repeat_contact_flag")));
    WithColumnShape(s, "next_call_date", v1);
    WithColumnShape(next, "days_to_next_call", v2);
    WithColumnShape(days, "repeat_contact_flag", v3);
    WithColumnShape(flag, "fcr_flag", v4);
  }

  /** The flagged copy holds the input rows rearranged into customer and
      start order, each with its repeat-contact columns. */
  lemma RepeatFlagsRows(f: Frame, repeatDays: int)
    ensures WithRepeatFlags(f, repeatDays).Ok? <==> "customer_id" in f.columns && "call_start" in f.columns
    ensures WithRepeatFlags(f, repeatDays).Ok? ==>
      var out := WithRepeatFlags(f, repeatDays).value.rows;
      var s := CallsInOrder(f);
      && Sorted(CallOrder, true, s) && multiset(s) == multiset(f.rows)
      && |out| == |s| == |f.rows|
      && forall i :: 0 <= i < |out| ==> out[i] == FlagRow(s[i], NextStart(s, i), repeatDays)
  {
    SortValuesSpec(f.rows, CallOrder, true);
  }

  /** Both flags are 0 or 1 and add up to 1; the repeat flag is 1 exactly
      when the customer's next call starts no more than `repeatDays` whole
      days (rounded down) after this one. */
  lemma FlagRowSpec(r: Row, next: Value, repeatDays: int)
    ensures var g := FlagRow(r, next, repeatDays);
      && Get(g, "repeat_contact_flag") in {Num(0.0), Num(1.0)}
      && Get(g, "fcr_flag") in {Num(0.0), Num(1.0)}
      && Get(g, "fcr_flag").x == 1.0 - Get(g, "repeat_contact_flag").x
      && (Get(g, "repeat_contact_flag") == Num(1.0) <==>
            next.Stamp? && Get(r, "call_start").Stamp? && FloorDays(next.sec - Get(r, "call_start").sec) <= repeatDays)
    ensures Get(FlagRow(r, next, repeatDays), "days_to_next_call") == ElapsedDays(next, Get(r, "call_start"))
    ensures next.Missing? ==> Get(FlagRow(r, next, repeatDays), "repeat_contact_flag") == Num(0.0)
    ensures forall c :: c !in ["next_call_date", "days_to_next_call", "repeat_contact_flag", "fcr_flag"] ==>
      Get(FlagRow(r, next, repeatDays), c) == Get(r, c)
  {
  }

  // ---------------------------------------------------------------------
  // The next call of a customer

  lemma {:induction false} StartOfNextNone(rows: seq<Row>, customer: Value, j: int)
    requires 0 <= j <= |rows|
    requires forall k :: j <= k < |rows| ==> Get(rows[k], "customer_id") != customer
    ensures StartOfNext(rows, customer, j) == Missing
    decreases |rows| - j
  {
    if j < |rows| {
      StartOfNextNone(rows, customer, j + 1);
    }
  }

  /** In customer order, once the customer changes it does not come back. */
  lemma CustomerRunEnds(s: seq<Row>, i: int, k: int)
    requires Sorted(CallOrder, true, s)
    requires 0 <= i && i + 1 < k < |s|
    requires Get(s[i + 1], "customer_id") != Get(s[i], "customer_id")
    ensures Get(s[k], "customer_id") != Get(s[i], "customer_id")
  {
    var a, b, c := Get(s[i], "customer_id"), Get(s[i + 1], "customer_id"), Get(s[k], "customer_id");
    assert RowBefore(CallOrder, true, s[i], s[i + 1]);
    assert RowBefore(CallOrder, true, s[i + 1], s[k]);
    LeTotalOrder(a, b, c);
    LeTotalOrder(b, a, c);
  }

  /** In customer-then-start order the same customer's next call is the
      following row, when that row is the same customer's, and starts no
      earlier; otherwise the customer has no next call. */
  lemma NextCallIsAdjacent(s: seq<Row>, i: int)
    requires Sorted(CallOrder, true, s)
    requires 0 <= i < |s| && !Get(s[i], "customer_id").Missing?
    ensures i + 1 < |s| && Get(s[i + 1], "customer_id") == Get(s[i], "customer_id") ==>
      NextStart(s, i) == Get(s[i + 1], "call_start") &&
      SortsBefore(true, Get(s[i], "call_start"), Get(s[i + 1], "call_start"))
    ensures !(i + 1 < |s| && Get(s[i + 1], "customer_id") == Get(s[i], "customer_id")) ==> NextStart(s, i) == Missing
  {
    var customer := Get(s[i], "customer_id");
    if i + 1 < |s| && Get(s[i + 1], "customer_id") == customer {
      assert RowBefore(CallOrder, true, s[i], s[i + 1]);
      assert CallOrder[1..] == ["call_start"];
    } else {
      forall k | i + 1 <= k < |s| ensures Get(s[k], "customer_id") != customer {
        if k > i + 1 {
          CustomerRunEnds(s, i, k);
        }
      }
      StartOfNextNone(s, customer, i + 1);
    }
  }

  /** A customer's last call, one with no later row of the same customer,
      is never flagged as a repeat, and counts as resolved first time. */
  lemma LastCallNotRepeat(f: Frame, repeatDays: int, i: int)
    requires WithRepeatFlags(f, repeatDays).Ok?
    requires 0 <= i < |WithRepeatFlags(f, repeatDays).value.rows|
    requires forall k :: i < k < |WithRepeatFlags(f, repeatDays).value.rows| ==>
      Get(WithRepeatFlags(f, repeatDays).value.rows[k], "customer_id") != Get(WithRepeatFlags(f, repeatDays).value.rows[i], "customer_id")
    ensures Get(WithRepeatFlags(f, repeatDays).value.rows[i], "repeat_contact_flag") == Num(0.0)
    ensures Get(WithRepeatFlags(f, repeatDays).value.rows[i], "fcr_flag") == Num(1.0)
  {
    RepeatFlagsRows(f, repeatDays);
    LastOfFlagged(CallsInOrder(f), WithRepeatFlags(f, repeatDays).value.rows, repeatDays, i);
  }

  lemma LastOfFlagged(s: seq<Row>, out: seq<Row>, repeatDays: int, i: int)
    requires |out| == |s| && forall k :: 0 <= k < |s| ==> out[k] == FlagRow(s[k], NextStart(s, k), repeatDays)
    requires 0 <= i < |s|
    requires forall k :: i < k < |out| ==> Get(out[k], "customer_id") != Get(out[i], "customer_id")
    ensures Get(out[i], "repeat_contact_flag") == Num(0.0) && Get(out[i], "fcr_flag") == Num(1.0)
  {
    FlagRowSpec(s[i], NextStart(s, i), repeatDays);
    forall k | i + 1 <= k < |s| ensures Get(s[k], "customer_id") != Get(s[i], "customer_id") {
      FlagRowSpec(s[k], NextStart(s, k), repeatDays);
    }
    StartOfNextNone(s, Get(s[i], "customer_id"), i + 1);
  }

  /** Start times form a datetime column: each is a timestamp or missing. */
  predicate StartsAreTimes(rows: seq<Row>)
  {
    forall r :: r in rows ==> Get(r, "call_start").Stamp? || Get(r, "call_start").Missing?
  }

  /** Whole days rounded down grow with the later time. */
  lemma FloorDaysMonotone(a: int, b: int)
    requires a <= b
    ensures FloorDays(a) <= FloorDays(b)
  {
  }

  /** In customer-then-start order, the next call of a customer is within
      `repeatDays` whole days exactly when some later call of that customer
      is: the next call is the nearest one. */
  lemma NextCallIsNearest(s: seq<Row>, repeatDays: int, i: int)
    requires Sorted(CallOrder, true, s) && StartsAreTimes(s)
    requires 0 <= i < |s| && !Get(s[i], "customer_id").Missing?
    ensures (NextStart(s, i).Stamp? && Get(s[i], "call_start").Stamp? &&
             FloorDays(NextStart(s, i).sec - Get(s[i], "call_start").sec) <= repeatDays) <==>
      exists j :: i < j < |s| && Get(s[j], "customer_id") == Get(s[i], "customer_id") &&
        Get(s[i], "call_start").Stamp? && Get(s[j], "call_start").Stamp? &&
        FloorDays(Get(s[j], "call_start").sec - Get(s[i], "call_start").sec) <= repeatDays
  {
    var customer := Get(s[i], "customer_id");
    var t := Get(s[i], "call_start");
    NextCallIsAdjacent(s, i);
    forall j | i < j < |s| && Get(s[j], "customer_id") == customer && t.Stamp? && Get(s[j], "call_start").Stamp?
      ensures NextStart(s, i).Stamp? && NextStart(s, i).sec <= Get(s[j], "call_start").sec
    {
      if Get(s[i + 1], "customer_id") != customer {
        CustomerRunEnds(s, i, j);
      }
      var u, w := Get(s[i + 1], "call_start"), Get(s[j], "call_start");
      assert s[i + 1] in s;
      if j > i + 1 {
        assert RowBefore(CallOrder, true, s[i + 1], s[j]);
        assert CallOrder[1..] == ["call_start"];
      }
    }
    if NextStart(s, i).Stamp? && t.Stamp? && FloorDays(NextStart(s, i).sec - t.sec) <= repeatDays {
      assert i + 1 < |s| && Get(s[i + 1], "customer_id") == customer;
    }
    forall j | i < j < |s| && Get(s[j], "customer_id") == customer && t.Stamp? && Get(s[j], "call_start").Stamp?
      ensures FloorDays(NextStart(s, i).sec - t.sec) <= FloorDays(Get(s[j], "call_start").sec - t.sec)
    {
      FloorDaysMonotone(NextStart(s, i).sec - t.sec, Get(s[j], "call_start").sec - t.sec);
    }
  }

  /** The repeat flag of a flagged row is 1 exactly when some later call of
      the same customer starts within `repeatDays` whole days of it; and the
      days to the next call are never negative. */
  lemma RepeatMeansLaterCallWithin(f: Frame, repeatDays: int, i: int)
    requires WithRepeatFlags(f, repeatDays).Ok? && StartsAreTimes(f.rows)
    requires 0 <= i < |WithRepeatFlags(f, repeatDays).value.rows|
    ensures RepeatWithin(WithRepeatFlags(f, repeatDays).value.rows, repeatDays, i)
    ensures var days := Get(WithRepeatFlags(f, repeatDays).value.rows[i], "days_to_next_call");
      days.Missing? || days.x >= 0.0
  {
    var s := CallsInOrder(f);
    RepeatFlagsRows(f, repeatDays);
    StartsAreTimesPermuted(f.rows, s);
    FlagsOfSorted(s, WithRepeatFlags(f, repeatDays).value.rows, repeatDays, i);
    DaysToNextNonNegative(s, i);
    FlagRowSpec(s[i], NextStart(s, i), repeatDays);
  }

  lemma StartsAreTimesPermuted(rows: seq<Row>, s: seq<Row>)
    requires StartsAreTimes(rows) && multiset(s) == multiset(rows)
    ensures StartsAreTimes(s)
  {
    forall r | r in s ensures Get(r, "call_start").Stamp? || Get(r, "call_start").Missing? {
      assert r in multiset(rows);
    }
  }

  /** Row `i` of `out` is flagged as a repeat exactly when a later row of the
      same customer starts within `repeatDays` whole days of it. */
  predicate RepeatWithin(out: seq<Row>, repeatDays: int, i: int)
    requires 0 <= i < |out|
  {
    Get(out[i], "repeat_contact_flag") == Num(1.0) <==>
      exists j :: i < j < |out| && !Get(out[i], "customer_id").Missing? &&
        Get(out[j], "customer_id") == Get(out[i], "customer_id") &&
        Get(out[i], "call_start").Stamp? && Get(out[j], "call_start").Stamp? &&
        FloorDays(Get(out[j], "call_start").sec - Get(out[i], "call_start").sec) <= repeatDays
  }

  lemma FlagsOfSorted(s: seq<Row>, out: seq<Row>, repeatDays: int, i: int)
    requires Sorted(CallOrder, true, s) && StartsAreTimes(s)
    requires |out| == |s| && forall k :: 0 <= k < |s| ==> out[k] == FlagRow(s[k], NextStart(s, k), repeatDays)
    requires 0 <= i < |s|
    ensures RepeatWithin(out, repeatDays, i)
  {
    forall k | 0 <= k < |s|
      ensures Get(out[k], "customer_id") == Get(s[k], "customer_id") && Get(out[k], "call_start") == Get(s[k], "call_start")
    {
      FlagRowSpec(s[k], NextStart(s, k), repeatDays);
    }
    FlagRowSpec(s[i], NextStart(s, i), repeatDays);
    if !Get(s[i], "customer_id").Missing? {
      NextCallIsNearest(s, repeatDays, i);
    }
  }

  /** In customer-then-start order the days to the next call are never
      negative. */
  lemma DaysToNextNonNegative(s: seq<Row>, i: int)
    requires Sorted(CallOrder, true, s) && StartsAreTimes(s)
    requires 0 <= i < |s|
    ensures var days := ElapsedDays(NextStart(s, i), Get(s[i], "call_start"));
      days.Missing? || (days.Num? && days.x >= 0.0)
  {
    if !Get(s[i], "customer_id").Missing? {
      NextCallIsAdjacent(s, i);
      var t, u := Get(s[i], "call_start"), NextStart(s, i);
      if t.Stamp? && u.Stamp? {
        assert s[i + 1] in s;
        FloorDaysMonotone(0, u.sec - t.sec);
      }
    }
  }

  // ---------------------------------------------------------------------
  // Two calls of one customer

  /** A call of customer "C2" on day `day` after the epoch. */
  function CallOn(day: int): Row
  {
    map["customer_id" := Text("C2"), "call_start" := Stamp(day * SecondsPerDay)]
  }

  /** Sorting two calls of one customer puts the earlier first. */
  lemma TwoCallsInOrder(first: int)
    requires first == 1 || first == 5
    ensures CallsInOrder(Frame(CallOrder, [CallOn(first), CallOn(6 - first)])) == [CallOn(1), CallOn(5)]
  {
    var f := Frame(CallOrder, [CallOn(first), CallOn(6 - first)]);
    SortValuesSpec(f.rows, CallOrder, true);
    assert multiset(f.rows) == multiset{CallOn(1), CallOn(5)};
    SortedPair(CallsInOrder(f), CallOn(1), CallOn(5));
  }

  /** The only sorted arrangement of two calls of one customer. */
  lemma SortedPair(s: seq<Row>, a: Row, b: Row)
    requires Sorted(CallOrder, true, s) && multiset(s) == multiset{a, b}
    requires Get(a, "customer_id") == Get(b, "customer_id")
    requires Get(a, "call_start").Stamp? && Get(b, "call_start").Stamp?
    requires Get(a, "call_start").sec < Get(b, "call_start").sec
    ensures s == [a, b]
  {
    assert |s| == 2;
    assert s == [s[0], s[1]];
    assert s[0] in multiset(s) && s[1] in multiset(s);
    assert a in multiset(s) && b in multiset(s);
    assert RowBefore(CallOrder, true, s[0], s[1]);
    assert CallOrder[1..] == ["call_start"];
  }

  /** The flags of the two calls, once sorted. */
  lemma TwoCallsFlags(out: seq<Row>)
    requires |out| == 2
    requires out[0] == FlagRow(CallOn(1), Stamp(5 * SecondsPerDay), DefaultRepeatDays)
    requires out[1] == FlagRow(CallOn(5), Missing, DefaultRepeatDays)
    ensures Get(out[0], "call_start") == Stamp(SecondsPerDay)
    ensures Get(out[0], "repeat_contact_flag") == Num(1.0) && Get(out[0], "fcr_flag") == Num(0.0)
    ensures Get(out[1], "call_start") == Stamp(5 * SecondsPerDay)
    ensures Get(out[1], "repeat_contact_flag") == Num(0.0) && Get(out[1], "fcr_flag") == Num(1.0)
  {
    FlagRowSpec(CallOn(1), Stamp(5 * SecondsPerDay), DefaultRepeatDays);
    FlagRowSpec(CallOn(5), Missing, DefaultRepeatDays);
    assert FloorDays(4 * SecondsPerDay) == 4;
  }

  /** Calls on day 1 and day 5, given in either order, with the default
      seven-day window: only the day-1 call is a repeat contact, because the
      day-5 call is the customer's last and has no next call. */
  lemma TwoCallsFourDaysApart(first: int)
    requires first == 1 || first == 5
    ensures var out := WithRepeatFlags(Frame(CallOrder, [CallOn(first), CallOn(6 - first)]), DefaultRepeatDays);
      && out.Ok? && |out.value.rows| == 2
      && Get(out.value.rows[0], "call_start") == Stamp(SecondsPerDay)
      && Get(out.value.rows[0], "repeat_contact_flag") == Num(1.0) && Get(out.value.rows[0], "fcr_flag") == Num(0.0)
      && Get(out.value.rows[1], "call_start") == Stamp(5 * SecondsPerDay)
      && Get(out.value.rows[1], "repeat_contact_flag") == Num(0.0) && Get(out.value.rows[1], "fcr_flag") == Num(1.0)
  {
    var f := Frame(CallOrder, [CallOn(first), CallOn(6 - first)]);
    RepeatFlagsRows(f, DefaultRepeatDays);
    TwoCallsInOrder(first);
    TwoCallsNext();
    TwoCallsFlags(WithRepeatFlags(f, DefaultRepeatDays).value.rows);
  }

  /** The day-1 call's next call is the day-5 call, which has none. */
  lemma TwoCallsNext()
    ensures NextStart([CallOn(1), CallOn(5)], 0) == Stamp(5 * SecondsPerDay)
    ensures NextStart([CallOn(1), CallOn(5)], 1) == Missing
  {
    var s := [CallOn(1), CallOn(5)];
    assert StartOfNext(s, Text("C2"), 1) == Get(s[1], "call_start");
    assert StartOfNext(s, Text("C2"), 2) == Missing;
  }

  // =====================================================================
  // add_debt_features

  /** The frame with `payment_plan_realism`, instalment over disposable
      income, row by row. */
  function WithRealism(f: Frame): Frame
  {
    var n := |f.rows|;
    WithColumn(f, "payment_plan_realism",
      seq(n, i requires 0 <= i < n => Ratio(Get(f.rows[i], "instalment_amount"), Get(f.rows[i], "estimated_disposable_income"))))
  }

  /** Both inputs of the realism ratio are columns of the frame. */
  predicate HasDebtInputs(f: Frame)
  {
    "instalment_amount" in f.columns && "estimated_disposable_income" in f.columns
  }

  /** `add_debt_features(df)`: adds the realism ratio in place when both of
      its inputs are there, and otherwise leaves the frame alone. */
  method AddDebtFeatures(df: Table)
    modifies df
    ensures HasDebtInputs(old(df.Snapshot())) ==> df.Snapshot() == WithRealism(old(df.Snapshot()))
    ensures !HasDebtInputs(old(df.Snapshot())) ==> df.Snapshot() == old(df.Snapshot())
  {
    if "instalment_amount" in df.columns && "estimated_disposable_income" in df.columns {
      var n := |df.rows|;
      var f := df.Snapshot();
      df.Assign("payment_plan_realism",
        seq(n, i requires 0 <= i < n => Ratio(Get(f.rows[i], "instalment_amount"), Get(f.rows[i], "estimated_disposable_income"))));
    }
  }

  /** Adding the ratio adds exactly the `payment_plan_realism` label, keeps
      every row and changes no other cell; each row's new cell is its
      instalment over its disposable income, missing when either is missing
      or the income is zero. */
  lemma RealismSpec(f: Frame)
    requires WellFormed(f)
    ensures WellFormed(WithRealism(f))
    ensures ColumnSet(WithRealism(f).columns) == ColumnSet(f.columns) + {"payment_plan_realism"}
    ensures WithRealism(f).columns == AddedLabels(f.columns, ["payment_plan_realism"])
    ensures |WithRealism(f).rows| == |f.rows|
    ensures forall i, c :: 0 <= i < |f.rows| && c != "payment_plan_realism" ==> Get(WithRealism(f).rows[i], c) == Get(f.rows[i], c)
    ensures forall i :: 0 <= i < |f.rows| ==>
      Get(WithRealism(f).rows[i], "payment_plan_realism") ==
        Ratio(Get(f.rows[i], "instalment_amount"), Get(f.rows[i], "estimated_disposable_income"))
  {
    var n := |f.rows|;
    var v := seq(n, i requires 0 <= i < n => Ratio(Get(f.rows[i], "instalment_amount"), Get(f.rows[i], "estimated_disposable_income")));
    WithColumnShape(f, "payment_plan_realism", v);
    assert AddedLabels(f.columns, []) == f.columns;
    WithColumnLabels(f, "payment_plan_realism", v, f.columns, []);
    assert [] + ["payment_plan_realism"] == ["payment_plan_realism"];
  }

  // =====================================================================
  // build_modelling_dataset

  const Target: string := "arrangement_kept"

  /** The candidate feature columns, in the order the model sees them. */
  const FeatureColumns: seq<string> := [
    "days_past_due", "balance", "arrangement_length_days", "payment_plan_realism", "qa_score",
    "aht", "queue_time", "sla_met", "call_hour", "call_dow"]

  datatype ModellingSet = ModellingSet(data: Frame, features: seq<string>, target: string)

  /** The row has a target value. */
  predicate HasTarget(r: Row)
  {
    !Get(r, Target).Missing?
  }

  /** The candidate features that are columns of the frame. */
  function PresentFeatures(columns: seq<string>): seq<string>
  {
    Filter(FeatureColumns, (c: string) => c in columns)
  }

  /** `build_modelling_dataset(df)`: the candidate features that are
      columns of the frame, and the rows with a target, cut down to those
      features and the target. A frame without the target column fails. */
  function BuildModellingDataset(f: Frame): Result<ModellingSet>
  {
    if Target !in f.columns then Err(KeyError(Target))
    else
      var features := PresentFeatures(f.columns);
      Ok(ModellingSet(LabelledRows(f, features), features, Target))
  }

  /** `df.dropna(subset=[target])[features + [target]]`. */
  function LabelledRows(f: Frame, features: seq<string>): Frame
  {
    Select(Frame(f.columns, Filter(f.rows, HasTarget)), features + [Target])
  }

  /** No candidate is listed twice, and the target is not a candidate: any
      two of these labels differ in length or in their first letter. */
  lemma CandidatesDistinct()
    ensures Distinct(FeatureColumns)
    ensures Target !in FeatureColumns
  {
    var lengths := [13, 7, 23, 20, 8, 3, 10, 7, 9, 8];
    var heads := ['d', 'b', 'a', 'p', 'q', 'a', 'q', 's', 'c', 'c'];
    assert forall i :: 0 <= i < |FeatureColumns| ==> |FeatureColumns[i]| == lengths[i] && FeatureColumns[i][0] == heads[i];
    assert forall i, j :: 0 <= i < j < |FeatureColumns| ==> lengths[i] != lengths[j] || heads[i] != heads[j];
    assert |Target| == 16;
  }

  /** The features are the candidates present, in candidate order, with no
      label twice and never the target itself. */
  lemma PresentFeaturesSpec(columns: seq<string>)
    ensures Subsequence(PresentFeatures(columns), FeatureColumns)
    ensures forall c :: c in PresentFeatures(columns) <==> c in FeatureColumns && c in columns
    ensures Distinct(PresentFeatures(columns) + [Target])
  {
    var features := PresentFeatures(columns);
    FilterIsSubsequence(FeatureColumns, (c: string) => c in columns);
    CandidatesDistinct();
    SubsequenceDistinct(features, FeatureColumns);
    SubsequenceMembers(features, FeatureColumns);
    forall i, j | 0 <= i < j < |features| + 1 ensures (features + [Target])[i] != (features + [Target])[j] {
      if j == |features| {
        assert features[i] in features;
      }
    }
  }

  /** The dataset fails only without a target column; its columns are the
      present features and then the target. */
  lemma ModellingDatasetColumns(f: Frame)
    ensures BuildModellingDataset(f).Ok? <==> Target in f.columns
    ensures BuildModellingDataset(f).Ok? ==>
      var m := BuildModellingDataset(f).value;
      m.target == Target && m.features == PresentFeatures(f.columns) && m.data.columns == m.features + [Target]
  {
  }

  /** No row of the dataset lacks the target; its rows are the labelled
      input rows, in input order, each cut down to the dataset's columns. */
  lemma ModellingDatasetRows(f: Frame)
    requires BuildModellingDataset(f).Ok?
    ensures var m := BuildModellingDataset(f).value;
      && (forall r :: r in m.data.rows ==> HasTarget(r))
      && |m.data.rows| == |Filter(f.rows, HasTarget)|
      && (forall k :: 0 <= k < |m.data.rows| ==>
            m.data.rows[k] == Restrict(Filter(f.rows, HasTarget)[k], ColumnSet(m.data.columns)))
      && Subsequence(Filter(f.rows, HasTarget), f.rows)
  {
    LabelledRowsSpec(f, PresentFeatures(f.columns));
  }

  lemma LabelledRowsSpec(f: Frame, features: seq<string>)
    ensures var d := LabelledRows(f, features);
      && (forall r :: r in d.rows ==> HasTarget(r))
      && |d.rows| == |Filter(f.rows, HasTarget)|
      && (forall k :: 0 <= k < |d.rows| ==> d.rows[k] == Restrict(Filter(f.rows, HasTarget)[k], ColumnSet(d.columns)))
      && Subsequence(Filter(f.rows, HasTarget), f.rows)
  {
    var d := LabelledRows(f, features);
    var kept := Filter(f.rows, HasTarget);
    assert Target in d.columns by {
      assert (features + [Target])[|features|] == Target;
    }
    FilterIsSubsequence(f.rows, HasTarget);
    LabelledRowsKeepTarget(kept, d.columns);
    forall r | r in d.rows ensures HasTarget(r) {
      var k :| 0 <= k < |d.rows| && d.rows[k] == r;
    }
  }

  /** Cutting rows that have a target down to columns that include it
      keeps the target. */
  lemma LabelledRowsKeepTarget(kept: seq<Row>, cols: seq<string>)
    requires forall r :: r in kept ==> HasTarget(r)
    requires Target in cols
    ensures forall k :: 0 <= k < |kept| ==> HasTarget(Restrict(kept[k], ColumnSet(cols)))
  {
    forall k | 0 <= k < |kept| ensures HasTarget(Restrict(kept[k], ColumnSet(cols))) {
      assert kept[k] in kept;
    }
  }

  /** A well-formed frame gives a well-formed dataset. */
  lemma ModellingDatasetWellFormed(f: Frame)
    requires WellFormed(f) && BuildModellingDataset(f).Ok?
    ensures WellFormed(BuildModellingDataset(f).value.data)
  {
    PresentFeaturesSpec(f.columns);
    var features := PresentFeatures(f.columns);
    var labelled := Frame(f.columns, Filter(f.rows, HasTarget));
    assert WellFormed(labelled);
    forall c | c in features + [Target] ensures c in f.columns {
      assert c in features || c == Target;
    }
    SelectWellFormed(labelled, features + [Target]);
  }
}
