/** The proleptic Gregorian calendar as Python's `datetime.date` implements it, and the page's
    working-day enumeration `get_working_days(month, year)`. */
module Calendar {
  import opened Options
  import opened Decimal

  datatype Date = Date(year: int, month: int, day: int)

  /** Python's `datetime.MINYEAR` and `datetime.MAXYEAR`. */
  const MinYear := 1
  const MaxYear := 9999

  predicate IsLeapYear(y: int) {
    y % 4 == 0 && (y % 100 != 0 || y % 400 == 0)
  }

  function DaysInMonth(y: int, m: int): (n: int)
    requires 1 <= m <= 12
    ensures 28 <= n <= 31
    ensures n == 31 <==> m in {1, 3, 5, 7, 8, 10, 12}
  {
    if m == 2 then (if IsLeapYear(y) then 29 else 28)
    else if m in {4, 6, 9, 11} then 30
    else 31
  }

  /** A calendar date whose year is at least 1; the upper bound `MaxYear` is stated separately
      where it matters, so that the day after any valid date is valid. */
  predicate Valid(d: Date) {
    d.year >= MinYear && 1 <= d.month <= 12 && 1 <= d.day <= DaysInMonth(d.year, d.month)
  }

  /** A date `datetime.date` can hold. */
  predicate InRange(d: Date) {
    Valid(d) && d.year <= MaxYear
  }

  function DaysBeforeYear(y: int): int
    requires y >= 1
  {
    var p := y - 1;
    p * 365 + p / 4 - p / 100 + p / 400
  }

  function DaysBeforeMonth(y: int, m: int): int
    requires 1 <= m <= 12
  {
    if m == 1 then 0 else DaysBeforeMonth(y, m - 1) + DaysInMonth(y, m - 1)
  }

  /** `date.toordinal()`: 1 January of year 1 is day 1. */
  function Ordinal(d: Date): int
    requires Valid(d)
  {
    DaysBeforeYear(d.year) + DaysBeforeMonth(d.year, d.month) + d.day
  }

  /** `date.weekday()`: 0 is Monday, 6 is Sunday. */
  function Weekday(d: Date): (w: int)
    requires Valid(d)
    ensures 0 <= w < 7
  {
    (Ordinal(d) + 6) % 7
  }

  predicate IsWeekday(d: Date)
    requires Valid(d)
  {
    Weekday(d) < 5
  }

  /** The date one day later. */
  function NextDay(d: Date): (n: Date)
    requires Valid(d)
    ensures Valid(n)
  {
    if d.day < DaysInMonth(d.year, d.month) then Date(d.year, d.month, d.day + 1)
    else if d.month < 12 then Date(d.year, d.month + 1, 1)
    else Date(d.year + 1, 1, 1)
  }

  /** `d + timedelta(days=n)`. */
  function AddDays(d: Date, n: nat): (r: Date)
    requires Valid(d)
    ensures Valid(r)
    decreases n
  {
    if n == 0 then d else AddDays(NextDay(d), n - 1)
  }

  lemma YearLength(y: int)
    requires y >= 1
    ensures DaysBeforeYear(y + 1) == DaysBeforeYear(y) + (if IsLeapYear(y) then 366 else 365)
  {
    var p := y - 1;
    assert (p + 1) / 4 == p / 4 + (if y % 4 == 0 then 1 else 0);
    assert (p + 1) / 100 == p / 100 + (if y % 100 == 0 then 1 else 0);
    assert (p + 1) / 400 == p / 400 + (if y % 400 == 0 then 1 else 0);
  }

  lemma {:induction false} DaysBeforeDecember(y: int)
    ensures DaysBeforeMonth(y, 12) + DaysInMonth(y, 12) == (if IsLeapYear(y) then 366 else 365)
  {
    var feb := DaysInMonth(y, 2);
    assert DaysBeforeMonth(y, 2) == 31;
    assert DaysBeforeMonth(y, 3) == 31 + feb;
    assert DaysBeforeMonth(y, 4) == 62 + feb;
    assert DaysBeforeMonth(y, 5) == 92 + feb;
    assert DaysBeforeMonth(y, 6) == 123 + feb;
    assert DaysBeforeMonth(y, 7) == 153 + feb;
    assert DaysBeforeMonth(y, 8) == 184 + feb;
    assert DaysBeforeMonth(y, 9) == 215 + feb;
    assert DaysBeforeMonth(y, 10) == 245 + feb;
    assert DaysBeforeMonth(y, 11) == 276 + feb;
    assert DaysBeforeMonth(y, 12) == 306 + feb;
  }

  /** The day after `d` is the next ordinal, as `fromordinal(toordinal() + 1)` computes it. */
  lemma NextDayOrdinal(d: Date)
    requires Valid(d)
    ensures Ordinal(NextDay(d)) == Ordinal(d) + 1
    ensures Weekday(NextDay(d)) == (Weekday(d) + 1) % 7
  {
    if d.day < DaysInMonth(d.year, d.month) {
    } else if d.month < 12 {
      NewMonthOrdinal(d.year, d.month);
    } else {
      NewYearOrdinal(d.year);
    }
    NextWeekday(Ordinal(d));
  }

  lemma NewMonthOrdinal(y: int, m: int)
    requires y >= MinYear && 1 <= m < 12
    ensures Ordinal(Date(y, m + 1, 1)) == Ordinal(Date(y, m, DaysInMonth(y, m))) + 1
  {
  }

  lemma NewYearOrdinal(y: int)
    requires y >= MinYear
    ensures Ordinal(Date(y + 1, 1, 1)) == Ordinal(Date(y, 12, 31)) + 1
  {
    YearLength(y);
    DaysBeforeDecember(y);
  }

  lemma NextWeekday(o: int)
    ensures (o + 1 + 6) % 7 == ((o + 6) % 7 + 1) % 7
  {
  }

  /** Stepping `n` times one day is Python's ordinal arithmetic: `(d + n).toordinal() ==
      d.toordinal() + n`, so the weekday advances by `n` modulo 7. */
  lemma {:induction false} AddDaysOrdinal(d: Date, n: nat)
    requires Valid(d)
    ensures Ordinal(AddDays(d, n)) == Ordinal(d) + n
    decreases n
  {
    if n > 0 {
      NextDayOrdinal(d);
      AddDaysOrdinal(NextDay(d), n - 1);
    }
  }

  lemma {:induction false} AddDaysWeekday(d: Date, n: nat)
    requires Valid(d)
    ensures Weekday(AddDays(d, n)) == (Weekday(d) + n) % 7
    decreases n
  {
    if n > 0 {
      NextDayOrdinal(d);
      AddDaysWeekday(NextDay(d), n - 1);
      WeekStep(Weekday(d), n - 1);
    }
  }

  lemma WeekStep(w: int, n: nat)
    requires 0 <= w < 7
    ensures ((w + 1) % 7 + n) % 7 == (w + 1 + n) % 7
  {
    if w == 6 {
      assert (7 + n) % 7 == n % 7;
    }
  }

  /** Within a month, adding days only moves the day of the month. */
  lemma {:induction false} AddDaysWithinMonth(d: Date, n: nat)
    requires Valid(d) && d.day + n <= DaysInMonth(d.year, d.month)
    ensures AddDays(d, n) == Date(d.year, d.month, d.day + n)
    decreases n
  {
    if n > 0 {
      AddDaysWithinMonth(NextDay(d), n - 1);
    }
  }

  // ---------------------------------------------------------------------------------------
  // get_working_days

  /** `[month_start + timedelta(days=i) for i in range(count)]`. */
  function Span(start: Date, count: nat): (r: seq<Date>)
    requires Valid(start)
    ensures |r| == count
    ensures forall i | 0 <= i < count :: r[i] == AddDays(start, i)
    ensures forall i | 0 <= i < count :: Valid(r[i]) && Ordinal(r[i]) == Ordinal(start) + i
  {
    var r := seq(count, i requires 0 <= i < count => AddDays(start, i));
    assert forall i | 0 <= i < count :: Ordinal(r[i]) == Ordinal(start) + i by {
      forall i | 0 <= i < count ensures Ordinal(r[i]) == Ordinal(start) + i {
        AddDaysOrdinal(start, i);
      }
    }
    r
  }

  /** `[day for day in days if day.weekday() < 5 and day.month == month]`. */
  function KeepWorking(days: seq<Date>, month: int): (r: seq<Date>)
    requires forall i | 0 <= i < |days| :: Valid(days[i])
    ensures forall i | 0 <= i < |r| :: r[i] in days && IsWeekday(r[i]) && r[i].month == month
  {
    if days == [] then []
    else
      var rest := KeepWorking(days[1..], month);
      if IsWeekday(days[0]) && days[0].month == month then [days[0]] + rest else rest
  }

  /** The page's `get_working_days(month, year)`: the dates 0 to 30 days after the first of the
      month that are still in the month and fall on Monday to Friday. */
  function WorkingDays(month: int, year: int): seq<Date>
    requires 1 <= month <= 12 && MinYear <= year <= MaxYear
  {
    KeepWorking(Span(Date(year, month, 1), 31), month)
  }

  /** Reference definition: the Monday-to-Friday dates of the month, day `from` onwards. */
  function WeekdaysFrom(year: int, month: int, from: nat): (r: seq<Date>)
    requires 1 <= month <= 12 && year >= MinYear && from >= 1
    ensures forall i | 0 <= i < |r| ::
      Valid(r[i]) && r[i].year == year && r[i].month == month && from <= r[i].day
    ensures forall i, j | 0 <= i < j < |r| :: r[i].day < r[j].day
    decreases DaysInMonth(year, month) + 1 - from
  {
    if from > DaysInMonth(year, month) then []
    else
      var d := Date(year, month, from);
      (if IsWeekday(d) then [d] else []) + WeekdaysFrom(year, month, from + 1)
  }

  /** Every Monday-to-Friday date of the month, in calendar order. */
  function MonthWeekdays(year: int, month: int): seq<Date>
    requires 1 <= month <= 12 && year >= MinYear
  {
    WeekdaysFrom(year, month, 1)
  }

  lemma {:induction false} KeepWorkingAppend(a: seq<Date>, b: seq<Date>, month: int)
    requires forall i | 0 <= i < |a| :: Valid(a[i])
    requires forall i | 0 <= i < |b| :: Valid(b[i])
    ensures KeepWorking(a + b, month) == KeepWorking(a, month) + KeepWorking(b, month)
  {
    if a == [] {
      assert a + b == b;
    } else {
      assert (a + b)[0] == a[0];
      assert (a + b)[1..] == a[1..] + b;
      KeepWorkingAppend(a[1..], b, month);
    }
  }

  lemma {:induction false} KeepWorkingOtherMonth(days: seq<Date>, month: int)
    requires forall i | 0 <= i < |days| :: Valid(days[i]) && days[i].month != month
    ensures KeepWorking(days, month) == []
  {
    if days != [] {
      KeepWorkingOtherMonth(days[1..], month);
    }
  }

  /** On the dates of the month from day `from`, the page's filter is the reference. */
  lemma {:induction false} KeepWorkingMonthTail(year: int, month: int, from: nat)
    requires 1 <= month <= 12 && year >= MinYear && 1 <= from <= DaysInMonth(year, month) + 1
    ensures var n := DaysInMonth(year, month) + 1 - from;
      KeepWorking(seq(n, i requires 0 <= i < n => Date(year, month, from + i)), month)
        == WeekdaysFrom(year, month, from)
    decreases DaysInMonth(year, month) + 1 - from
  {
    var n := DaysInMonth(year, month) + 1 - from;
    var s := seq(n, i requires 0 <= i < n => Date(year, month, from + i));
    if n > 0 {
      var t := seq(n - 1, i requires 0 <= i < n - 1 => Date(year, month, from + 1 + i));
      var d := Date(year, month, from);
      assert s[0] == d;
      assert s[1..] == t;
      KeepWorkingMonthTail(year, month, from + 1);
      assert KeepWorking(s, month) == (if IsWeekday(d) then [d] else []) + KeepWorking(t, month);
    }
  }

  /** The 31-day window is the month itself followed by at most three days of the next month. */
  lemma WindowSplit(month: int, year: int)
    requires 1 <= month <= 12 && MinYear <= year <= MaxYear
    ensures var dim := DaysInMonth(year, month);
      var w := Span(Date(year, month, 1), 31);
      && w[..dim] == seq(dim, i requires 0 <= i < dim => Date(year, month, 1 + i))
      && forall i | dim <= i < 31 ::
           && w[i].month != month && w[i].year == year
           && w[i] == Date(year, month + 1, 1 + i - dim)
  {
    var dim := DaysInMonth(year, month);
    var first := Date(year, month, 1);
    forall i | 0 <= i < dim ensures AddDays(first, i) == Date(year, month, 1 + i) {
      AddDaysWithinMonth(first, i);
    }
    if dim < 31 {
      var last := Date(year, month, dim);
      AddDaysWithinMonth(first, dim - 1);
      var next := NextDay(last);
      assert next == Date(year, month + 1, 1);
      forall i | dim <= i < 31 ensures AddDays(first, i) == Date(year, month + 1, 1 + i - dim) {
        calc {
          AddDays(first, i);
          { AddDaysSplit(first, dim - 1, i - dim + 1); }
          AddDays(last, i - dim + 1);
          AddDays(next, i - dim);
          { AddDaysWithinMonth(next, i - dim); }
          Date(year, month + 1, 1 + i - dim);
        }
      }
    }
  }

  lemma {:induction false} AddDaysSplit(d: Date, m: nat, n: nat)
    requires Valid(d)
    ensures AddDays(d, m + n) == AddDays(AddDays(d, m), n)
    decreases m
  {
    if m > 0 {
      AddDaysSplit(NextDay(d), m - 1, n);
    }
  }

  /** The page's 31-day trick lists exactly the month's weekdays, in calendar order. */
  lemma WorkingDaysAreMonthWeekdays(month: int, year: int)
    requires 1 <= month <= 12 && MinYear <= year <= MaxYear
    ensures WorkingDays(month, year) == MonthWeekdays(year, month)
  {
    var dim := DaysInMonth(year, month);
    var w := Span(Date(year, month, 1), 31);
    WindowSplit(month, year);
    assert w == w[..dim] + w[dim..];
    KeepWorkingAppend(w[..dim], w[dim..], month);
    KeepWorkingOtherMonth(w[dim..], month);
    KeepWorkingMonthTail(year, month, 1);
  }

  /** Calendar order. */
  predicate Before(a: Date, b: Date) {
    a.year < b.year
    || (a.year == b.year && a.month < b.month)
    || (a.year == b.year && a.month == b.month && a.day < b.day)
  }

  predicate StrictlyAscending(days: seq<Date>) {
    forall i, j | 0 <= i < j < |days| :: Before(days[i], days[j])
  }

  lemma {:induction false} WeekdaysFromMembers(year: int, month: int, from: nat, d: Date)
    requires 1 <= month <= 12 && year >= MinYear && from >= 1
    ensures d in WeekdaysFrom(year, month, from) <==>
      Valid(d) && d.year == year && d.month == month && from <= d.day && IsWeekday(d)
    decreases DaysInMonth(year, month) + 1 - from
  {
    if from <= DaysInMonth(year, month) {
      WeekdaysFromMembers(year, month, from + 1, d);
    }
  }

  /** What `get_working_days(month, year)` returns: every date of that month and year that falls
      on Monday to Friday, nothing else (in particular no date of a neighbouring month), each
      once and in calendar order; and each such date is in Python's range. */
  lemma WorkingDaysSpec(month: int, year: int)
    requires 1 <= month <= 12 && MinYear <= year <= MaxYear
    ensures var r := WorkingDays(month, year);
      && (forall d :: d in r <==> Valid(d) && d.year == year && d.month == month && IsWeekday(d))
      && StrictlyAscending(r)
      && (forall i | 0 <= i < |r| :: InRange(r[i]))
  {
    WorkingDaysAreMonthWeekdays(month, year);
    forall d ensures d in WorkingDays(month, year) <==>
      Valid(d) && d.year == year && d.month == month && IsWeekday(d)
    {
      WeekdaysFromMembers(year, month, 1, d);
    }
  }

  // ---------------------------------------------------------------------------------------
  // str(date): ISO 8601 calendar date, extended format

  /** `str(d)`, that is `d.isoformat()`: `YYYY-MM-DD` with zero padding. */
  function Label(d: Date): (s: string)
    requires InRange(d)
    ensures |s| == 10 && s[4] == '-' && s[7] == '-'
    ensures forall i | 0 <= i < |s| :: IsDigit(s[i]) || s[i] == '-'
  {
    assert Pow10(2) == 100 && Pow10(4) == 10000;
    Padded(d.year, 4) + "-" + Padded(d.month, 2) + "-" + Padded(d.day, 2)
  }

  /** Reads `YYYY-MM-DD` back; `None` for any other shape. */
  function ParseLabel(s: string): (r: Option<Date>)
  {
    if |s| == 10 && s[4] == '-' && s[7] == '-'
       && AllDigits(s[..4]) && AllDigits(s[5..7]) && AllDigits(s[8..])
    then Some(Date(DigitsValue(s[..4]), DigitsValue(s[5..7]), DigitsValue(s[8..])))
    else None
  }

  lemma LabelRoundTrip(d: Date)
    requires InRange(d)
    ensures ParseLabel(Label(d)) == Some(d)
  {
    assert Pow10(2) == 100 && Pow10(4) == 10000;
    var s := Label(d);
    assert s[..4] == Padded(d.year, 4);
    assert s[5..7] == Padded(d.month, 2);
    assert s[8..] == Padded(d.day, 2);
  }

  /** Distinct dates have distinct labels, so comparing labels compares dates. */
  lemma LabelInjective(a: Date, b: Date)
    requires InRange(a) && InRange(b)
    ensures Label(a) == Label(b) <==> a == b
  {
    if Label(a) == Label(b) {
      LabelRoundTrip(a);
      LabelRoundTrip(b);
    }
  }

  /** `[str(day) for day in working_days]`. */
  function Labels(days: seq<Date>): (r: seq<string>)
    requires forall i | 0 <= i < |days| :: InRange(days[i])
    ensures |r| == |days|
    ensures forall i | 0 <= i < |r| :: r[i] == Label(days[i])
    ensures forall i | 0 <= i < |r| :: ParseLabel(r[i]) == Some(days[i])
  {
    var r := seq(|days|, i requires 0 <= i < |days| => Label(days[i]));
    assert forall i | 0 <= i < |r| :: ParseLabel(r[i]) == Some(days[i]) by {
      forall i | 0 <= i < |r| ensures ParseLabel(r[i]) == Some(days[i]) {
        LabelRoundTrip(days[i]);
      }
    }
    r
  }

  /** The working-day labels of a month, the columns of the attendance matrix: all distinct. */
  lemma WorkingDayLabelsDistinct(month: int, year: int)
    requires 1 <= month <= 12 && MinYear <= year <= MaxYear
    ensures var days := WorkingDays(month, year);
      (forall i | 0 <= i < |days| :: InRange(days[i]))
      && var cols := Labels(days);
      forall i, j | 0 <= i < j < |cols| :: cols[i] != cols[j]
  {
    WorkingDaysSpec(month, year);
    var days := WorkingDays(month, year);
    forall i, j | 0 <= i < j < |days| ensures Label(days[i]) != Label(days[j]) {
      assert Before(days[i], days[j]);
      LabelInjective(days[i], days[j]);
    }
  }

  /** March 2025 begins on a Saturday, so its first working day is Monday 3 March. */
  lemma March2025Starts()
    ensures Weekday(Date(2025, 3, 1)) == 5 && Weekday(Date(2025, 3, 3)) == 0
  {
    MarchFirst();
    assert Ordinal(Date(2025, 3, 3)) == 739313;
  }

  /** March 2025 has 21 working days. */
  lemma March2025()
    ensures |WorkingDays(3, 2025)| == 21
  {
    March2025Tail(1);
    MarchTailTotal();
    WorkingDaysAreMonthWeekdays(3, 2025);
  }

  lemma MarchFirst()
    ensures Ordinal(Date(2025, 3, 1)) == 739311
  {
    assert DaysBeforeYear(2025) == 739251;
    assert DaysBeforeMonth(2025, 3) == 59;
  }

  /** The number of days `k..31` whose weekday, counted from Saturday 1 March, is Monday to
      Friday. */
  function MarchTailCount(k: int): nat
    decreases 32 - k
  {
    if k > 31 then 0 else (if (4 + k) % 7 < 5 then 1 else 0) + MarchTailCount(k + 1)
  }

  lemma MarchTailTotal()
    ensures MarchTailCount(1) == 21
  {
    assert MarchTailCount(31) == 1 && MarchTailCount(30) == 1;
    assert MarchTailCount(29) == 1 && MarchTailCount(28) == 2;
    assert MarchTailCount(27) == 3 && MarchTailCount(26) == 4;
    assert MarchTailCount(25) == 5 && MarchTailCount(24) == 6;
    assert MarchTailCount(23) == 6 && MarchTailCount(22) == 6;
    assert MarchTailCount(21) == 7 && MarchTailCount(20) == 8;
    assert MarchTailCount(19) == 9 && MarchTailCount(18) == 10;
    assert MarchTailCount(17) == 11 && MarchTailCount(16) == 11;
    assert MarchTailCount(15) == 11 && MarchTailCount(14) == 12;
    assert MarchTailCount(13) == 13 && MarchTailCount(12) == 14;
    assert MarchTailCount(11) == 15 && MarchTailCount(10) == 16;
    assert MarchTailCount(9) == 16 && MarchTailCount(8) == 16;
    assert MarchTailCount(7) == 17 && MarchTailCount(6) == 18;
    assert MarchTailCount(5) == 19 && MarchTailCount(4) == 20;
    assert MarchTailCount(3) == 21 && MarchTailCount(2) == 21;
    assert MarchTailCount(1) == 21;
  }

  lemma {:induction false} March2025Tail(k: int)
    requires 1 <= k <= 32
    ensures |WeekdaysFrom(2025, 3, k)| == MarchTailCount(k)
    decreases 32 - k
  {
    if k <= 31 {
      MarchFirst();
      AddDaysWithinMonth(Date(2025, 3, 1), k - 1);
      AddDaysWeekday(Date(2025, 3, 1), k - 1);
      assert Weekday(Date(2025, 3, k)) == (4 + k) % 7;
      March2025Tail(k + 1);
    }
  }
}
