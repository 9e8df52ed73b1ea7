/** Proleptic Gregorian calendar dates and the day arithmetic of
    `Date.prototype.setDate` (section 21.4.4.20 of ECMA-262): a day of the
    month that falls outside the month is rolled into the following (or
    preceding) months and years. Dates are numbered by days since
    1970-01-01, as the time values of ECMA-262 are. */
module CivilDate {

  datatype Date = Date(year: int, month: int, day: int)

  predicate IsLeapYear(y: int) {
    y % 4 == 0 && (y % 100 != 0 || y % 400 == 0)
  }

  function DaysInYear(y: int): int {
    if IsLeapYear(y) then 366 else 365
  }

  function DaysInMonth(y: int, m: int): int
    requires 1 <= m <= 12
  {
    if m == 2 then (if IsLeapYear(y) then 29 else 28)
    else if m == 4 || m == 6 || m == 9 || m == 11 then 30
    else 31
  }

  /** A date that names an existing calendar day. */
  predicate Valid(d: Date) {
    1 <= d.month <= 12 && 1 <= d.day <= DaysInMonth(d.year, d.month)
  }

  /** Day number of January 1st of year `y`: the lengths of the years from 1970
      up to `y`, or minus those from `y` up to 1970. */
  function DayFromYear(y: int): int
    decreases if y < 1970 then 1970 - y else y - 1970
  {
    if y == 1970 then 0
    else if y > 1970 then DayFromYear(y - 1) + DaysInYear(y - 1)
    else DayFromYear(y + 1) - DaysInYear(y)
  }

  /** Days in a common year before the first day of month `m`; index 12 is the whole year. */
  const CumulativeDays: seq<int> := [0, 31, 59, 90, 120, 151, 181, 212, 243, 273, 304, 334, 365]

  /** Days of year `y` before the first day of month `m` (`m == 13` counts the whole year). */
  function DaysBeforeMonth(y: int, m: int): int
    requires 1 <= m <= 13
  {
    CumulativeDays[m - 1] + (if m > 2 && IsLeapYear(y) then 1 else 0)
  }

  /** The number of days from 1970-01-01 to `d`. */
  function DayNumber(d: Date): (n: int)
    requires Valid(d)
    ensures DayFromYear(d.year) <= n < DayFromYear(d.year) + DaysInYear(d.year)
  {
    MonthStep(d.year, d.month);
    MonthsBelow(d.year, d.month + 1, 13);
    DayFromYear(d.year) + DaysBeforeMonth(d.year, d.month) + d.day - 1
  }

  /** Consecutive years are exactly one year's worth of days apart. */
  lemma YearStep(y: int)
    ensures DayFromYear(y + 1) == DayFromYear(y) + DaysInYear(y)
  {
  }

  lemma QuadrennialStep(y: int)
    ensures (y - 1968) / 4 - (y - 1969) / 4 == if y % 4 == 0 then 1 else 0
  {
    assert (y - 1968) % 4 == y % 4 by {
      assert y - 1968 == y + 4 * (-492);
    }
  }

  lemma CenturyStep(y: int)
    ensures (y - 1900) / 100 - (y - 1901) / 100 == if y % 100 == 0 then 1 else 0
  {
    assert (y - 1900) % 100 == y % 100 by {
      assert y - 1900 == y + 100 * (-19);
    }
  }

  lemma QuadricentennialStep(y: int)
    ensures (y - 1600) / 400 - (y - 1601) / 400 == if y % 400 == 0 then 1 else 0
  {
    assert (y - 1600) % 400 == y % 400 by {
      assert y - 1600 == y + 400 * (-4);
    }
  }

  /** DayFromYear as section 21.4.1.3 of ECMA-262 writes it, in closed form;
      Dafny's `/` by a positive constant is the floor division used there. */
  function EcmaDayFromYear(y: int): int {
    365 * (y - 1970) + (y - 1969) / 4 - (y - 1901) / 100 + (y - 1601) / 400
  }

  /** The closed form also advances by one year's length per year. */
  lemma EcmaYearStep(y: int)
    ensures EcmaDayFromYear(y + 1) == EcmaDayFromYear(y) + DaysInYear(y)
  {
    assert EcmaDayFromYear(y + 1) == 365 * (y - 1969) + (y - 1968) / 4 - (y - 1900) / 100 + (y - 1600) / 400;
    QuadrennialStep(y);
    CenturyStep(y);
    QuadricentennialStep(y);
  }

  /** The year-by-year count agrees with the closed form of ECMA-262. */
  lemma {:induction false} DayFromYearIsEcma(y: int)
    ensures DayFromYear(y) == EcmaDayFromYear(y)
    decreases if y < 1970 then 1970 - y else y - 1970
  {
    if y > 1970 {
      DayFromYearIsEcma(y - 1);
      EcmaYearStep(y - 1);
    } else if y < 1970 {
      DayFromYearIsEcma(y + 1);
      EcmaYearStep(y);
    }
  }

  /** Consecutive months are exactly one month's worth of days apart. */
  lemma MonthStep(y: int, m: int)
    requires 1 <= m <= 12
    ensures DaysBeforeMonth(y, m + 1) == DaysBeforeMonth(y, m) + DaysInMonth(y, m)
  {
  }

  lemma {:induction false} MonthsBelow(y: int, i: int, j: int)
    requires 1 <= i <= j <= 13
    ensures DaysBeforeMonth(y, i) <= DaysBeforeMonth(y, j)
    decreases j - i
  {
    if i < j {
      MonthStep(y, i);
      MonthsBelow(y, i + 1, j);
    }
  }

  /** Every year after `a` starts no earlier than the year after `a`. */
  lemma {:induction false} YearsBelow(a: int, b: int)
    requires a < b
    ensures DayFromYear(a + 1) <= DayFromYear(b)
    decreases b - a
  {
    if a + 1 < b {
      YearsBelow(a, b - 1);
      YearStep(b - 1);
    }
  }

  /** The year containing day number `n` (YearFromTime, section 21.4.1.3 of
      ECMA-262), searched for from the guess `y`. */
  function LocateYear(y: int, n: int): (r: int)
    ensures DayFromYear(r) <= n < DayFromYear(r + 1)
    decreases if n < DayFromYear(y) then DayFromYear(y) - n
              else if n >= DayFromYear(y + 1) then n - DayFromYear(y + 1) + 1
              else 0
  {
    if n < DayFromYear(y) then
      YearStep(y - 1);
      LocateYear(y - 1, n)
    else if n >= DayFromYear(y + 1) then
      YearStep(y + 1);
      LocateYear(y + 1, n)
    else
      y
  }

  /** The month of year `y` containing day `r` of that year, searched for from month `m`. */
  function LocateMonth(y: int, r: int, m: int): (k: int)
    requires 1 <= m <= 12
    requires DaysBeforeMonth(y, m) <= r < DaysInYear(y)
    ensures m <= k <= 12
    ensures DaysBeforeMonth(y, k) <= r < DaysBeforeMonth(y, k + 1)
    decreases 12 - m
  {
    if r < DaysBeforeMonth(y, m + 1) then m else LocateMonth(y, r, m + 1)
  }

  /** The date whose day number is `n`. */
  function FromDayNumber(n: int): (d: Date)
    ensures Valid(d) && DayNumber(d) == n
  {
    var y := LocateYear(1970, n);
    YearStep(y);
    var m := LocateMonth(y, n - DayFromYear(y), 1);
    MonthStep(y, m);
    Date(y, m, n - DayFromYear(y) - DaysBeforeMonth(y, m) + 1)
  }

  /** Different calendar days have different day numbers. */
  lemma DayNumberInjective(a: Date, b: Date)
    requires Valid(a) && Valid(b)
    requires DayNumber(a) == DayNumber(b)
    ensures a == b
  {
    YearStep(a.year);
    YearStep(b.year);
    if a.year < b.year {
      YearsBelow(a.year, b.year);
    } else if b.year < a.year {
      YearsBelow(b.year, a.year);
    }
    var y := a.year;
    MonthStep(y, a.month);
    MonthStep(y, b.month);
    if a.month < b.month {
      MonthsBelow(y, a.month + 1, b.month);
    } else if b.month < a.month {
      MonthsBelow(y, b.month + 1, a.month);
    }
  }

  /** A valid date is recovered from its day number. */
  lemma FromDayNumberOfDayNumber(d: Date)
    requires Valid(d)
    ensures FromDayNumber(DayNumber(d)) == d
  {
    DayNumberInjective(FromDayNumber(DayNumber(d)), d);
  }

  /** The date `n` calendar days after `d` (before it when `n` is negative):
      `d.setDate(d.getDate() + n)`. */
  function AddDays(d: Date, n: int): (r: Date)
    requires Valid(d)
    ensures Valid(r)
    ensures DayNumber(r) == DayNumber(d) + n
  {
    FromDayNumber(DayNumber(d) + n)
  }

  /** The calendar day after `d`, by the rule of month and year ends:
      an independent reference for one step of `AddDays`. */
  function NextDay(d: Date): (r: Date)
    requires Valid(d)
    ensures Valid(r)
  {
    if d.day < DaysInMonth(d.year, d.month) then Date(d.year, d.month, d.day + 1)
    else if d.month < 12 then Date(d.year, d.month + 1, 1)
    else Date(d.year + 1, 1, 1)
  }

  /** `n` applications of `NextDay`. */
  function NextDays(d: Date, n: nat): (r: Date)
    requires Valid(d)
    ensures Valid(r)
  {
    if n == 0 then d else NextDay(NextDays(d, n - 1))
  }

  lemma AddDaysZero(d: Date)
    requires Valid(d)
    ensures AddDays(d, 0) == d
  {
    FromDayNumberOfDayNumber(d);
  }

  lemma AddDaysAdd(d: Date, a: int, b: int)
    requires Valid(d)
    ensures AddDays(AddDays(d, a), b) == AddDays(d, a + b)
  {
    var e := AddDays(d, a);
    var n := DayNumber(d) + (a + b);
    assert DayNumber(e) + b == n;
    assert AddDays(e, b) == FromDayNumber(n);
    assert AddDays(d, a + b) == FromDayNumber(n);
  }

  /** Adding one day is stepping to the next calendar day, across month and year ends. */
  lemma AddDaysOne(d: Date)
    requires Valid(d)
    ensures AddDays(d, 1) == NextDay(d)
  {
    var e := NextDay(d);
    MonthStep(d.year, d.month);
    if d.day == DaysInMonth(d.year, d.month) && d.month == 12 {
      YearStep(d.year);
    }
    assert DayNumber(e) == DayNumber(d) + 1;
    DayNumberInjective(AddDays(d, 1), e);
  }

  /** One more day of term is one more step to the next day. */
  lemma AddDaysStep(d: Date, n: int)
    requires Valid(d)
    ensures AddDays(d, n + 1) == NextDay(AddDays(d, n))
  {
    var e := AddDays(d, n);
    AddDaysAdd(d, n, 1);
    AddDaysOne(e);
  }

  /** For a non-negative term, `AddDays` is `n` steps to the next day. */
  lemma {:induction false} AddDaysIsNextDays(d: Date, n: nat)
    requires Valid(d)
    ensures AddDays(d, n) == NextDays(d, n)
  {
    if n == 0 {
      AddDaysZero(d);
    } else {
      AddDaysIsNextDays(d, n - 1);
      AddDaysStep(d, n - 1);
    }
  }

  /** A term that stays inside the month only moves the day of the month. */
  lemma AddDaysWithinMonth(d: Date, n: int)
    requires Valid(d) && 1 <= d.day + n <= DaysInMonth(d.year, d.month)
    ensures AddDays(d, n) == Date(d.year, d.month, d.day + n)
  {
    var e := Date(d.year, d.month, d.day + n);
    assert DayNumber(e) == DayNumber(d) + n;
    DayNumberInjective(AddDays(d, n), e);
  }

  /** In a leap year the day after February 28th is February 29th. */
  lemma AddDaysIntoLeapDay(y: int)
    requires IsLeapYear(y)
    ensures AddDays(Date(y, 2, 28), 1) == Date(y, 2, 29)
  {
    AddDaysOne(Date(y, 2, 28));
  }

  /** In a common year (1900 and 2023, say) the day after February 28th is March 1st. */
  lemma AddDaysOverCommonFebruary(y: int)
    requires !IsLeapYear(y)
    ensures AddDays(Date(y, 2, 28), 1) == Date(y, 3, 1)
  {
    AddDaysOne(Date(y, 2, 28));
  }

  /** The day after December 31st is January 1st of the next year. */
  lemma AddDaysOverYearEnd(y: int)
    ensures AddDays(Date(y, 12, 31), 1) == Date(y + 1, 1, 1)
  {
    AddDaysOne(Date(y, 12, 31));
  }
}
