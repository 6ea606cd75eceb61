/** The proleptic Gregorian calendar as Python's `datetime.date` counts it:
    dates from 0001-01-01 to 9999-12-31, each with an ordinal day number
    (0001-01-01 is day 1), and subtraction of two dates giving the difference
    of their ordinals in days. */
module Calendar {

  const MinYear: int := 1
  const MaxYear: int := 9999

  /** Ordinal of 9999-12-31, the last day a `date` can hold. */
  const MaxOrdinal: int := 3652059

  datatype Date = Date(year: int, month: int, day: int)

  datatype Option<T> = None | Some(value: T)

  /** Gregorian leap years: divisible by 4, except centuries not divisible by 400. */
  predicate IsLeapYear(y: int) {
    y % 4 == 0 && (y % 100 != 0 || y % 400 == 0)
  }

  function DaysInYear(y: int): (n: int)
    ensures n == 365 || n == 366
    ensures n == 366 <==> IsLeapYear(y)
  {
    if IsLeapYear(y) then 366 else 365
  }

  function DaysInMonth(y: int, m: int): (n: int)
    requires 1 <= m <= 12
    ensures 28 <= n <= 31
    ensures m == 2 ==> (n == 29 <==> IsLeapYear(y))
    ensures m != 2 ==> (n == 30 <==> m in {4, 6, 9, 11})
    ensures m != 2 && m !in {4, 6, 9, 11} ==> n == 31
    ensures m == 2 && !IsLeapYear(y) ==> n == 28
  {
    if m == 2 then (if IsLeapYear(y) then 29 else 28)
    else if m == 4 || m == 6 || m == 9 || m == 11 then 30
    else 31
  }

  /** A date that Python's `date` constructor accepts. */
  predicate Valid(d: Date) {
    && MinYear <= d.year <= MaxYear
    && 1 <= d.month <= 12
    && 1 <= d.day <= DaysInMonth(d.year, d.month)
  }

  /** Number of days in the years before year `y`, in closed form. */
  function DaysBeforeYear(y: int): int
    requires y >= 1
  {
    var p := y - 1;
    p * 365 + p / 4 - p / 100 + p / 400
  }

  /** Number of days in year `y` before the first of month `m`: a table of
      cumulative month lengths for a common year, plus one from March on in a
      leap year. */
  function DaysBeforeMonth(y: int, m: int): int
    requires 1 <= m <= 12
  {
    [0, 31, 59, 90, 120, 151, 181, 212, 243, 273, 304, 334][m - 1]
      + (if m > 2 && IsLeapYear(y) then 1 else 0)
  }

  /** Day number of `d`, with 0001-01-01 as day 1. */
  function Ordinal(d: Date): (n: int)
    requires Valid(d)
    ensures DaysBeforeYear(d.year) < n <= DaysBeforeYear(d.year) + DaysInYear(d.year)
    ensures 1 <= n <= MaxOrdinal
  {
    YearBounds(d.year);
    MonthBounds(d.year, d.month);
    DaysBeforeYear(d.year) + DaysBeforeMonth(d.year, d.month) + d.day
  }

  /** `(a - b).days`: the signed number of days from `b` to `a`. */
  function DaysBetween(a: Date, b: Date): (n: int)
    requires Valid(a) && Valid(b)
    ensures n == 0 <==> a == b
    ensures n > 0 <==> Before(b, a)
    ensures n < 0 <==> Before(a, b)
  {
    OrdinalOrder(a, b);
    Ordinal(a) - Ordinal(b)
  }

  /** Strict chronological order of dates: by year, then month, then day. */
  predicate Before(a: Date, b: Date) {
    || a.year < b.year
    || (a.year == b.year && a.month < b.month)
    || (a.year == b.year && a.month == b.month && a.day < b.day)
  }

  /** The calendar day after `d`, stepping over month and year ends;
      `None` after 9999-12-31, where Python raises OverflowError. */
  function NextDay(d: Date): (r: Option<Date>)
    requires Valid(d)
    ensures r.None? <==> d == Date(MaxYear, 12, 31)
    ensures r.Some? ==> Valid(r.value) && Before(d, r.value)
  {
    if d.day < DaysInMonth(d.year, d.month) then Some(Date(d.year, d.month, d.day + 1))
    else if d.month < 12 then Some(Date(d.year, d.month + 1, 1))
    else if d.year < MaxYear then Some(Date(d.year + 1, 1, 1))
    else None
  }

  /** The date `k` days after `d`, reached one calendar day at a time;
      `None` if that runs past 9999-12-31. */
  function AddDays(d: Date, k: nat): (r: Option<Date>)
    requires Valid(d)
    ensures r.Some? ==> Valid(r.value) && (k > 0 ==> Before(d, r.value))
    decreases k
  {
    if k == 0 then Some(d)
    else match NextDay(d)
      case None => None
      case Some(e) => AddDays(e, k - 1)
  }

  // ---------------------------------------------------------------------------
  // Lemmas relating the closed-form ordinal to the month-by-month calendar.

  /** `p / k` grows by one from `p - 1` to `p` exactly when `k` divides `p`. */
  lemma QuotientStep(p: int, k: int)
    requires p >= 1 && k in {4, 100, 400}
    ensures p / k == (p - 1) / k + (if p % k == 0 then 1 else 0)
  {
  }

  /** A multiple of `k * j` is a multiple of `k`. */
  lemma MultipleOfMultiple(y: int, k: int, j: int)
    requires (k, j) in {(100, 4), (4, 25)}
    requires y % (k * j) == 0
    ensures y % k == 0
  {
    var m := j * (y / (k * j));
    assert y == k * m;
  }

  /** The closed form of DaysBeforeYear adds exactly one year's length per year. */
  lemma DaysBeforeNextYear(y: int)
    requires y >= 1
    ensures DaysBeforeYear(y + 1) == DaysBeforeYear(y) + DaysInYear(y)
  {
    QuotientStep(y, 4);
    QuotientStep(y, 100);
    QuotientStep(y, 400);
    if y % 400 == 0 { MultipleOfMultiple(y, 100, 4); }
    if y % 100 == 0 { MultipleOfMultiple(y, 4, 25); }
    var a, b, c := (if y % 4 == 0 then 1 else 0), (if y % 100 == 0 then 1 else 0), (if y % 400 == 0 then 1 else 0);
    assert DaysBeforeYear(y + 1) == DaysBeforeYear(y) + 365 + a - b + c;
  }

  lemma {:induction false} DaysBeforeYearMonotone(y: int, z: int)
    requires 1 <= y <= z
    ensures DaysBeforeYear(y) <= DaysBeforeYear(z)
    ensures y < z ==> DaysBeforeYear(y) + DaysInYear(y) <= DaysBeforeYear(z)
    decreases z - y
  {
    if y < z {
      DaysBeforeNextYear(y);
      DaysBeforeYearMonotone(y + 1, z);
    }
  }

  lemma YearBounds(y: int)
    requires MinYear <= y <= MaxYear
    ensures DaysBeforeYear(y) >= 0
    ensures DaysBeforeYear(y) + DaysInYear(y) <= MaxOrdinal
  {
    DaysBeforeYearMonotone(y, MaxYear);
  }

  /** The month table steps by each month's length and ends at the year's length. */
  lemma MonthBounds(y: int, m: int)
    requires 1 <= m <= 12
    ensures m < 12 ==> DaysBeforeMonth(y, m + 1) == DaysBeforeMonth(y, m) + DaysInMonth(y, m)
    ensures m == 12 ==> DaysBeforeMonth(y, m) + DaysInMonth(y, m) == DaysInYear(y)
    ensures 0 <= DaysBeforeMonth(y, m)
  {
  }

  lemma {:induction false} MonthMonotone(y: int, m: int, n: int)
    requires 1 <= m < n <= 12
    ensures DaysBeforeMonth(y, m) + DaysInMonth(y, m) <= DaysBeforeMonth(y, n)
    decreases n - m
  {
    MonthBounds(y, m);
    if m + 1 < n {
      MonthMonotone(y, m + 1, n);
    }
  }

  /** Chronological order and ordinal order agree. */
  lemma OrdinalMonotone(a: Date, b: Date)
    requires Valid(a) && Valid(b) && Before(a, b)
    ensures Ordinal(a) < Ordinal(b)
  {
    if a.year < b.year {
      DaysBeforeYearMonotone(a.year, b.year);
    } else if a.month < b.month {
      MonthMonotone(a.year, a.month, b.month);
    }
  }

  /** Stepping to the next calendar day adds exactly one to the ordinal. */
  lemma NextDayOrdinal(d: Date)
    requires Valid(d) && NextDay(d).Some?
    ensures Ordinal(NextDay(d).value) == Ordinal(d) + 1
    ensures DaysBetween(NextDay(d).value, d) == 1
  {
    MonthBounds(d.year, d.month);
    if d.day == DaysInMonth(d.year, d.month) && d.month == 12 {
      DaysBeforeNextYear(d.year);
    }
  }

  /** Two dates compare by their ordinals as they compare in the calendar. */
  lemma OrdinalOrder(a: Date, b: Date)
    requires Valid(a) && Valid(b)
    ensures Ordinal(a) < Ordinal(b) <==> Before(a, b)
    ensures Ordinal(a) == Ordinal(b) <==> a == b
  {
    if Before(a, b) {
      OrdinalMonotone(a, b);
    } else if Before(b, a) {
      OrdinalMonotone(b, a);
    }
  }

  /** Stepping `k` calendar days forward adds `k` to the ordinal, so the
      closed-form day difference agrees with counting days one by one. */
  lemma {:induction false} AddDaysOrdinal(d: Date, k: nat)
    requires Valid(d) && AddDays(d, k).Some?
    ensures Ordinal(AddDays(d, k).value) == Ordinal(d) + k
    ensures DaysBetween(AddDays(d, k).value, d) == k
    decreases k
  {
    if k > 0 {
      NextDayOrdinal(d);
      AddDaysOrdinal(NextDay(d).value, k - 1);
    }
  }

  /** Stepping `k` days from `d` stays within the calendar exactly when the
      ordinal `k` days on does not pass that of 9999-12-31. */
  lemma {:induction false} AddDaysDefined(d: Date, k: nat)
    requires Valid(d)
    ensures AddDays(d, k).Some? <==> Ordinal(d) + k <= MaxOrdinal
    decreases k
  {
    if k > 0 {
      if d == Date(MaxYear, 12, 31) {
        assert Ordinal(d) == MaxOrdinal;
      } else {
        NextDayOrdinal(d);
        AddDaysDefined(NextDay(d).value, k - 1);
      }
    }
  }

  /** Every date on or after `b` is reached from `b` by stepping forward
      `DaysBetween(a, b)` calendar days. */
  lemma Reached(a: Date, b: Date)
    requires Valid(a) && Valid(b) && DaysBetween(a, b) >= 0
    ensures AddDays(b, DaysBetween(a, b)) == Some(a)
  {
    var k := DaysBetween(a, b);
    AddDaysDefined(b, k);
    AddDaysOrdinal(b, k);
    OrdinalOrder(AddDays(b, k).value, a);
  }
}
