/** Proleptic Gregorian calendar as Python's datetime module numbers it:
    day ordinal 1 is 0001-01-01 (a Monday) and the last ordinal is 9999-12-31. */
module Calendar {

  const MaxYear := 9999
  const MaxOrdinal := 3652059

  datatype Date = Date(year: int, month: int, day: int)

  predicate IsLeap(y: int) {
    y % 4 == 0 && (y % 100 != 0 || y % 400 == 0)
  }

  function DaysInYear(y: int): int {
    if IsLeap(y) then 366 else 365
  }

  function DaysInMonth(y: int, m: int): (n: int)
    requires 1 <= m <= 12
    ensures 28 <= n <= 31
  {
    if m == 2 then (if IsLeap(y) then 29 else 28)
    else if m == 4 || m == 6 || m == 9 || m == 11 then 30
    else 31
  }

  /** Days in the months of year y that precede month m (CPython's
      _days_before_month: a table plus one day after February in leap years). */
  function DaysBeforeMonth(y: int, m: int): int
    requires 1 <= m <= 12
  {
    [0, 31, 59, 90, 120, 151, 181, 212, 243, 273, 304, 334][m - 1]
      + (if m > 2 && IsLeap(y) then 1 else 0)
  }

  /** Days in the years that precede year y (CPython's _days_before_year). */
  function DaysBeforeYear(y: int): int
    requires y >= 1
  {
    var p := y - 1;
    p * 365 + p / 4 - p / 100 + p / 400
  }

  predicate ValidDate(d: Date) {
    1 <= d.year <= MaxYear && 1 <= d.month <= 12 && 1 <= d.day <= DaysInMonth(d.year, d.month)
  }

  /** date.weekday(): Monday is 0, Friday is 4, Sunday is 6. */
  function Weekday(n: int): (w: int)
    ensures 0 <= w < 7
  {
    (n + 6) % 7
  }

  /** Python's ordering of dates: lexicographic on (year, month, day). */
  predicate Before(a: Date, b: Date) {
    a.year < b.year
    || (a.year == b.year && (a.month < b.month || (a.month == b.month && a.day < b.day)))
  }

  /** Going from year y - 1 to year y, the count of multiples of 4 gains one
      exactly when y is one; likewise for 100 and 400 below. */
  lemma MultiplesOfFourStep(y: int)
    ensures y / 4 == (y - 1) / 4 + (if y % 4 == 0 then 1 else 0)
  {
  }

  lemma MultiplesOfHundredStep(y: int)
    ensures y / 100 == (y - 1) / 100 + (if y % 100 == 0 then 1 else 0)
  {
  }

  lemma MultiplesOfFourHundredStep(y: int)
    ensures y / 400 == (y - 1) / 400 + (if y % 400 == 0 then 1 else 0)
  {
  }

  /** A multiple of 100 is a multiple of 4. */
  lemma HundredsAreFours(y: int)
    ensures y % 100 == 0 ==> y % 4 == 0
  {
    if y % 100 == 0 {
      assert y == 4 * (25 * (y / 100));
    }
  }

  /** A multiple of 400 is a multiple of 100. */
  lemma FourHundredsAreHundreds(y: int)
    ensures y % 400 == 0 ==> y % 100 == 0
  {
    if y % 400 == 0 {
      assert y == 100 * (4 * (y / 400));
    }
  }

  lemma YearStep(y: int)
    requires y >= 1
    ensures DaysBeforeYear(y + 1) == DaysBeforeYear(y) + DaysInYear(y)
  {
    MultiplesOfFourStep(y);
    MultiplesOfHundredStep(y);
    MultiplesOfFourHundredStep(y);
    HundredsAreFours(y);
    FourHundredsAreHundreds(y);
  }

  lemma {:induction false} DaysBeforeYearMonotone(a: int, b: int)
    requires 1 <= a <= b
    ensures DaysBeforeYear(a) + 365 * (b - a) <= DaysBeforeYear(b)
    decreases b - a
  {
    if a < b {
      DaysBeforeYearMonotone(a, b - 1);
      YearStep(b - 1);
    }
  }

  lemma MonthStep(y: int, m: int)
    requires 1 <= m <= 12
    ensures m < 12 ==> DaysBeforeMonth(y, m + 1) == DaysBeforeMonth(y, m) + DaysInMonth(y, m)
    ensures m == 12 ==> DaysBeforeMonth(y, m) + DaysInMonth(y, m) == DaysInYear(y)
  {
  }

  lemma {:induction false} DaysBeforeMonthMonotone(y: int, a: int, b: int)
    requires 1 <= a < b <= 12
    ensures DaysBeforeMonth(y, a) + DaysInMonth(y, a) <= DaysBeforeMonth(y, b)
    decreases b - a
  {
    MonthStep(y, a);
    if a + 1 < b {
      DaysBeforeMonthMonotone(y, a + 1, b);
    }
  }

  lemma DayOfYearBound(d: Date)
    requires ValidDate(d)
    ensures DaysBeforeMonth(d.year, d.month) + d.day <= DaysInYear(d.year)
  {
    if d.month < 12 {
      DaysBeforeMonthMonotone(d.year, d.month, 12);
    }
    MonthStep(d.year, 12);
  }

  /** date.toordinal() (CPython's _ymd2ord). */
  function ToOrdinal(d: Date): (n: int)
    requires ValidDate(d)
    ensures DaysBeforeYear(d.year) < n <= DaysBeforeYear(d.year + 1)
    ensures 1 <= n <= MaxOrdinal
  {
    DayOfYearBound(d);
    YearStep(d.year);
    DaysBeforeYearMonotone(1, d.year);
    DaysBeforeYearMonotone(d.year + 1, MaxYear + 1);
    assert DaysBeforeYear(MaxYear + 1) == MaxOrdinal;
    DaysBeforeYear(d.year) + DaysBeforeMonth(d.year, d.month) + d.day
  }

  /** The year holding ordinal n, searched upwards from year y. */
  function YearOf(n: int, y: int): (r: int)
    requires y >= 1 && DaysBeforeYear(y) < n
    ensures r >= y && DaysBeforeYear(r) < n <= DaysBeforeYear(r + 1)
    decreases n - DaysBeforeYear(y)
  {
    YearStep(y);
    if n <= DaysBeforeYear(y + 1) then y else YearOf(n, y + 1)
  }

  /** The month holding day-of-year doy, searched downwards from month m. */
  function MonthOf(y: int, doy: int, m: int): (r: int)
    requires 1 <= m <= 12 && 1 <= doy <= DaysBeforeMonth(y, m) + DaysInMonth(y, m)
    ensures 1 <= r <= m && DaysBeforeMonth(y, r) < doy <= DaysBeforeMonth(y, r) + DaysInMonth(y, r)
  {
    if m == 1 || DaysBeforeMonth(y, m) < doy then m
    else
      MonthStep(y, m - 1);
      MonthOf(y, doy, m - 1)
  }

  /** date.fromordinal(n): the calendar date with ordinal n. */
  function FromOrdinal(n: int): (d: Date)
    requires 1 <= n <= MaxOrdinal
    ensures ValidDate(d) && ToOrdinal(d) == n
  {
    var y := YearOf(n, 1);
    if y > MaxYear then
      DaysBeforeYearMonotone(MaxYear + 1, y);
      assert false;
      Date(1, 1, 1)
    else
      YearStep(y);
      MonthStep(y, 12);
      var doy := n - DaysBeforeYear(y);
      var m := MonthOf(y, doy, 12);
      Date(y, m, doy - DaysBeforeMonth(y, m))
  }

  /** A date in an earlier year has a smaller ordinal. */
  lemma EarlierYearFirst(a: Date, b: Date)
    requires ValidDate(a) && ValidDate(b) && a.year < b.year
    ensures ToOrdinal(a) < ToOrdinal(b)
  {
    DaysBeforeYearMonotone(a.year + 1, b.year);
  }

  /** A date in an earlier month of the same year has a smaller ordinal. */
  lemma EarlierMonthFirst(a: Date, b: Date)
    requires ValidDate(a) && ValidDate(b) && a.year == b.year && a.month < b.month
    ensures ToOrdinal(a) < ToOrdinal(b)
  {
    DaysBeforeMonthMonotone(a.year, a.month, b.month);
  }

  /** Python's comparison of dates agrees with the order of their ordinals. */
  lemma BeforeIsOrdinalOrder(a: Date, b: Date)
    requires ValidDate(a) && ValidDate(b)
    ensures Before(a, b) <==> ToOrdinal(a) < ToOrdinal(b)
    ensures a == b <==> ToOrdinal(a) == ToOrdinal(b)
  {
    if a.year < b.year {
      EarlierYearFirst(a, b);
    } else if b.year < a.year {
      EarlierYearFirst(b, a);
    } else if a.month < b.month {
      EarlierMonthFirst(a, b);
    } else if b.month < a.month {
      EarlierMonthFirst(b, a);
    }
  }

  /** Ordinals number dates without gaps or repeats: the two conversions are inverse. */
  lemma OrdinalRoundTrip(d: Date)
    requires ValidDate(d)
    ensures FromOrdinal(ToOrdinal(d)) == d
  {
    BeforeIsOrdinalOrder(FromOrdinal(ToOrdinal(d)), d);
  }
  /** A day ordinal names one date only. */
  lemma OrdinalDetermines(n: int)
    requires 1 <= n <= MaxOrdinal
    ensures forall d :: ValidDate(d) && ToOrdinal(d) == n ==> d == FromOrdinal(n)
  {
    forall d | ValidDate(d) && ToOrdinal(d) == n
      ensures d == FromOrdinal(n)
    {
      OrdinalRoundTrip(d);
    }
  }

}
