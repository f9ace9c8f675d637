/** Cells of a table: the values a DataFrame column holds, the timestamp
    arithmetic the pipeline applies to them, and the order in which
    `sort_values` places them. */
module Cells {

  /** One cell. Numeric columns (int64 and float64 alike) hold reals;
      timestamps are whole seconds since the epoch on a naive clock;
      `Missing` stands for NaN, NaT and None. */
  datatype Value = Missing | Num(x: real) | Stamp(sec: int) | Text(s: string)

  const SecondsPerHour: int := 3600
  const SecondsPerDay: int := 86400

  /** The 0/1 integer that `astype(int)` makes of a boolean. */
  function Indicator(b: bool): Value
  {
    Num(if b then 1.0 else 0.0)
  }

  // ---------------------------------------------------------------------
  // Timestamp arithmetic

  /** `Timestamp.normalize()`: the midnight that starts the day of `t`. */
  function Midnight(t: int): (m: int)
    ensures m <= t < m + SecondsPerDay
    ensures m % SecondsPerDay == 0
  {
    t - t % SecondsPerDay
  }

  /** `Timedelta.days`: a duration in whole days, rounded down (towards
      minus infinity, also for negative durations). */
  function FloorDays(delta: int): (d: int)
    ensures d * SecondsPerDay <= delta < (d + 1) * SecondsPerDay
  {
    delta / SecondsPerDay
  }

  /** `.dt.hour`: the hour of the day on which `t` falls. */
  function HourOfDay(t: int): (h: int)
    ensures 0 <= h < 24
    ensures Midnight(t) + h * SecondsPerHour <= t < Midnight(t) + (h + 1) * SecondsPerHour
  {
    (t % SecondsPerDay) / SecondsPerHour
  }

  /** `.dt.dayofweek`: Monday is 0 and Sunday is 6; the epoch,
      1 January 1970, was a Thursday. */
  function DayOfWeek(t: int): (d: int)
    ensures 0 <= d < 7
  {
    (FloorDays(t) + 3) % 7
  }

  /** The epoch is a Thursday, every moment of a day shares the weekday of
      its midnight, and the weekday steps by one, Sunday wrapping to Monday,
      from one day to the next; together these fix `DayOfWeek` completely. */
  lemma {:induction false} DayOfWeekAdvances(t: int)
    ensures DayOfWeek(0) == 3
    ensures DayOfWeek(t) == DayOfWeek(Midnight(t))
    ensures DayOfWeek(t + SecondsPerDay) == (DayOfWeek(t) + 1) % 7
    ensures HourOfDay(t + SecondsPerDay) == HourOfDay(t)
  {
    var d := FloorDays(t);
    assert FloorDays(Midnight(t)) == d;
    assert FloorDays(t + SecondsPerDay) == d + 1;
    assert (t + SecondsPerDay) % SecondsPerDay == t % SecondsPerDay;
  }

  /** `a - b` on two timestamp cells, as `Timedelta.total_seconds()`. */
  function ElapsedSeconds(later: Value, earlier: Value): Value
  {
    if later.Stamp? && earlier.Stamp? then Num((later.sec - earlier.sec) as real) else Missing
  }

  /** `(a - b).days` on two timestamp cells. */
  function ElapsedDays(later: Value, earlier: Value): Value
  {
    if later.Stamp? && earlier.Stamp? then Num(FloorDays(later.sec - earlier.sec) as real) else Missing
  }

  /** `a + b` on two numeric cells; NaN absorbs. */
  function Plus(a: Value, b: Value): Value
  {
    if a.Num? && b.Num? then Num(a.x + b.x) else Missing
  }

  /** `a / b` on two numeric cells: present exactly when both are and the
      divisor is not zero, and then it times the divisor gives back `a`. */
  function Ratio(a: Value, b: Value): (r: Value)
    ensures r.Num? <==> a.Num? && b.Num? && b.x != 0.0
    ensures !r.Num? ==> r == Missing
    ensures r.Num? ==> r.x * b.x == a.x
  {
    if a.Num? && b.Num? && b.x != 0.0 then Num(a.x / b.x) else Missing
  }

  // ---------------------------------------------------------------------
  // Order

  /** Lexicographic order on strings, character by character (Python's
      `<=` on `str`). */
  predicate TextLe(s: string, t: string)
    decreases |s|
  {
    s == [] || (t != [] && (s[0] < t[0] || (s[0] == t[0] && TextLe(s[1..], t[1..]))))
  }

  lemma {:induction false} TextLeTotal(s: string, t: string)
    ensures TextLe(s, t) || TextLe(t, s)
    decreases |s|
  {
    if s != [] && t != [] && s[0] == t[0] {
      TextLeTotal(s[1..], t[1..]);
    }
  }

  lemma {:induction false} TextLeAntisymmetric(s: string, t: string)
    requires TextLe(s, t) && TextLe(t, s)
    ensures s == t
    decreases |s|
  {
    if s != [] && t != [] {
      TextLeAntisymmetric(s[1..], t[1..]);
      assert s == [s[0]] + s[1..] && t == [t[0]] + t[1..];
    }
  }

  lemma {:induction false} TextLeTransitive(s: string, t: string, u: string)
    requires TextLe(s, t) && TextLe(t, u)
    ensures TextLe(s, u)
    decreases |s|
  {
    if s != [] && t != [] && u != [] && s[0] == t[0] && t[0] == u[0] {
      TextLeTransitive(s[1..], t[1..], u[1..]);
    }
  }

  /** The kind of a cell, in the order the model sorts kinds that differ. */
  function Rank(v: Value): nat
  {
    match v
    case Num(_) => 0
    case Stamp(_) => 1
    case Text(_) => 2
    case Missing => 3
  }

  /** Ascending order with missing values last (`na_position='last'`):
      numbers by magnitude, timestamps by time, strings lexicographically. */
  predicate Le(a: Value, b: Value)
  {
    match (a, b)
    case (Num(x), Num(y)) => x <= y
    case (Stamp(t), Stamp(u)) => t <= u
    case (Text(s), Text(t)) => TextLe(s, t)
    case _ => Rank(a) <= Rank(b)
  }

  /** `Le` is a total order on cells. */
  lemma LeTotalOrder(a: Value, b: Value, c: Value)
    ensures Le(a, a)
    ensures Le(a, b) || Le(b, a)
    ensures Le(a, b) && Le(b, a) ==> a == b
    ensures Le(a, b) && Le(b, c) ==> Le(a, c)
  {
    if a.Text? && b.Text? {
      TextLeTotal(a.s, b.s);
      if Le(a, b) && Le(b, a) { TextLeAntisymmetric(a.s, b.s); }
    }
    if a.Text? {
      TextLeTotal(a.s, a.s);
    }
    if a.Text? && b.Text? && c.Text? && Le(a, b) && Le(b, c) {
      TextLeTransitive(a.s, b.s, c.s);
    }
  }

  /** The order `sort_values` puts one key column in: ascending or
      descending, with missing values last either way. */
  predicate SortsBefore(ascending: bool, a: Value, b: Value)
  {
    if ascending then Le(a, b)
    else if a.Missing? then b.Missing?
    else b.Missing? || Le(b, a)
  }

  /** Each sort direction is a total order in which missing cells come last. */
  lemma SortsBeforeTotalOrder(ascending: bool, a: Value, b: Value, c: Value)
    ensures SortsBefore(ascending, a, a)
    ensures SortsBefore(ascending, a, b) || SortsBefore(ascending, b, a)
    ensures SortsBefore(ascending, a, b) && SortsBefore(ascending, b, a) ==> a == b
    ensures SortsBefore(ascending, a, b) && SortsBefore(ascending, b, c) ==> SortsBefore(ascending, a, c)
    ensures SortsBefore(ascending, a, Missing)
    ensures a.Missing? && SortsBefore(ascending, a, b) ==> b.Missing?
  {
    LeTotalOrder(a, b, c);
    LeTotalOrder(c, b, a);
    LeTotalOrder(b, a, c);
    LeTotalOrder(a, c, b);
  }

  /** A comparison such as `a >= b` or `a <= b` is false when either side is
      missing or when the two cells are of different kinds. */
  predicate Comparable(a: Value, b: Value)
  {
    !a.Missing? && Rank(a) == Rank(b)
  }

  /** `a <= b` elementwise, as pandas evaluates it. */
  predicate AtMost(a: Value, b: Value)
  {
    Comparable(a, b) && Le(a, b)
  }
}
