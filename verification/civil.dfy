/**
 The proleptic Gregorian calendar: civil dates, their count of days from
 1970-01-01, and the inverse conversion. Years use astronomical numbering
 (year 0 is 1 BCE), as chrono's `NaiveDate` does.
 */
module Civil {

  datatype Date = Date(year: int, month: int, day: int)

  predicate IsLeapYear(y: int) {
    y % 4 == 0 && (y % 100 != 0 || y % 400 == 0)
  }

  function YearLength(y: int): int {
    if IsLeapYear(y) then 366 else 365
  }

  function DaysInMonth(y: int, m: int): (n: int)
    requires 1 <= m <= 12
    ensures 28 <= n <= 31
  {
    if m == 2 then (if IsLeapYear(y) then 29 else 28)
    else if m == 4 || m == 6 || m == 9 || m == 11 then 30
    else 31
  }

  predicate IsValidDate(d: Date) {
    1 <= d.month <= 12 && 1 <= d.day <= DaysInMonth(d.year, d.month)
  }

  /** Days from 0000-01-01 to the first day of year `y`. */
  function DaysBeforeYear(y: int): int {
    365 * y + (y + 3) / 4 - (y + 99) / 100 + (y + 399) / 400
  }

  /** Days from the first of the year to the first of month `m`; month 13 is the next New Year. */
  function DaysBeforeMonth(y: int, m: int): (n: int)
    requires 1 <= m <= 13
    ensures 0 <= n <= 366
  {
    var table := [0, 31, 59, 90, 120, 151, 181, 212, 243, 273, 304, 334, 365];
    table[m - 1] + (if m > 2 && IsLeapYear(y) then 1 else 0)
  }

  /** The Unix epoch, 1970-01-01, counted from 0000-01-01. */
  const UnixEpochDays: int := 719528

  /** Days from 1970-01-01 to `d` (negative before the epoch). */
  function DaysFromCivil(d: Date): int
    requires 1 <= d.month <= 12
  {
    DaysBeforeYear(d.year) + DaysBeforeMonth(d.year, d.month) + d.day - 1 - UnixEpochDays
  }

  lemma EpochIsYear1970()
    ensures DaysBeforeYear(1970) == UnixEpochDays
  {
  }

  lemma DivStep4(x: int)
    ensures (x + 4) / 4 == (x + 3) / 4 + (if x % 4 == 0 then 1 else 0)
  {
  }

  lemma DivStep100(x: int)
    ensures (x + 100) / 100 == (x + 99) / 100 + (if x % 100 == 0 then 1 else 0)
  {
  }

  lemma DivStep400(x: int)
    ensures (x + 400) / 400 == (x + 399) / 400 + (if x % 400 == 0 then 1 else 0)
  {
  }

  /** Consecutive New Years are one year length apart, under the Gregorian leap rule. */
  lemma DaysBeforeYearStep(y: int)
    ensures DaysBeforeYear(y + 1) == DaysBeforeYear(y) + YearLength(y)
  {
    DivStep4(y);
    DivStep100(y);
    DivStep400(y);
  }

  /** The count of days before a year stays within a constant of 365.2425 days a year. */
  lemma DaysBeforeYearBounds(y: int)
    ensures 146097 * y - 396 <= 400 * DaysBeforeYear(y) <= 146097 * y + 699
  {
  }

  lemma DaysBeforeYearMonotone(a: int, b: int)
    requires a <= b
    ensures DaysBeforeYear(a) <= DaysBeforeYear(b)
  {
    DaysBeforeYearBounds(a);
    DaysBeforeYearBounds(b);
  }

  /** The year whose days contain day `n`, days counted from 0000-01-01. */
  function YearContaining(n: int): (y: int)
    ensures DaysBeforeYear(y) <= n < DaysBeforeYear(y + 1)
  {
    var e := (400 * n) / 146097;
    DaysBeforeYearBounds(e - 1);
    DaysBeforeYearBounds(e + 2);
    if DaysBeforeYear(e + 1) <= n then e + 1
    else if DaysBeforeYear(e) <= n then e
    else e - 1
  }

  /** At most one year contains a given day. */
  lemma YearContainingUnique(n: int, y: int)
    requires DaysBeforeYear(y) <= n < DaysBeforeYear(y + 1)
    ensures YearContaining(n) == y
  {
    var z := YearContaining(n);
    if z < y {
      DaysBeforeYearMonotone(z + 1, y);
    } else if y < z {
      DaysBeforeYearMonotone(y + 1, z);
    }
  }

  lemma DaysBeforeMonthStep(y: int, m: int)
    requires 1 <= m <= 12
    ensures DaysBeforeMonth(y, m + 1) == DaysBeforeMonth(y, m) + DaysInMonth(y, m)
    ensures DaysBeforeMonth(y, 13) == YearLength(y)
  {
  }

  lemma DaysBeforeMonthMonotone(y: int, a: int, b: int)
    requires 1 <= a <= b <= 13
    ensures DaysBeforeMonth(y, a) <= DaysBeforeMonth(y, b)
  {
  }

  /** The month (from `m` on) whose days contain day-of-year `doy`. */
  function MonthFrom(y: int, doy: int, m: int): (r: int)
    requires 1 <= m <= 12
    requires DaysBeforeMonth(y, m) <= doy < YearLength(y)
    ensures m <= r <= 12
    ensures DaysBeforeMonth(y, r) <= doy < DaysBeforeMonth(y, r + 1)
    decreases 12 - m
  {
    if m == 12 || doy < DaysBeforeMonth(y, m + 1) then m
    else MonthFrom(y, doy, m + 1)
  }

  /** The civil date lying `n` days after 1970-01-01. */
  function CivilFromDays(n: int): (d: Date)
    ensures IsValidDate(d)
    ensures DaysFromCivil(d) == n
  {
    var total := n + UnixEpochDays;
    var y := YearContaining(total);
    var doy := total - DaysBeforeYear(y);
    DaysBeforeYearStep(y);
    var m := MonthFrom(y, doy, 1);
    DaysBeforeMonthStep(y, m);
    Date(y, m, doy - DaysBeforeMonth(y, m) + 1)
  }

  /** At most one month contains a given day of the year. */
  lemma MonthFromUnique(y: int, doy: int, m: int)
    requires 1 <= m <= 12
    requires DaysBeforeMonth(y, m) <= doy < DaysBeforeMonth(y, m + 1)
    ensures DaysBeforeMonth(y, 1) <= doy < YearLength(y)
    ensures MonthFrom(y, doy, 1) == m
  {
    DaysBeforeMonthStep(y, m);
    DaysBeforeMonthMonotone(y, m + 1, 13);
    var r := MonthFrom(y, doy, 1);
    if r < m {
      DaysBeforeMonthMonotone(y, r + 1, m);
    } else if m < r {
      DaysBeforeMonthMonotone(y, m + 1, r);
    }
  }

  /** A valid date lies within its year: its day of the year is below the year's length. */
  lemma DateWithinYear(d: Date)
    requires IsValidDate(d)
    ensures var total := DaysFromCivil(d) + UnixEpochDays;
            DaysBeforeYear(d.year) <= total < DaysBeforeYear(d.year + 1)
  {
    DaysBeforeMonthStep(d.year, d.month);
    DaysBeforeMonthMonotone(d.year, d.month + 1, 13);
    DaysBeforeYearStep(d.year);
  }

  /** Distinct valid dates are distinct days. */
  lemma DaysFromCivilInjective(a: Date, b: Date)
    requires IsValidDate(a) && IsValidDate(b)
    requires DaysFromCivil(a) == DaysFromCivil(b)
    ensures a == b
  {
    var total := DaysFromCivil(a) + UnixEpochDays;
    assert a.year == b.year by {
      DateWithinYear(a);
      DateWithinYear(b);
      YearContainingUnique(total, a.year);
      YearContainingUnique(total, b.year);
    }
    var doy := total - DaysBeforeYear(a.year);
    assert a.month == b.month by {
      DaysBeforeMonthStep(a.year, a.month);
      DaysBeforeMonthStep(b.year, b.month);
      MonthFromUnique(a.year, doy, a.month);
      MonthFromUnique(b.year, doy, b.month);
    }
  }

  /** Counting the days of a valid date and converting back gives the date again. */
  lemma CivilFromDaysInverse(d: Date)
    requires IsValidDate(d)
    ensures CivilFromDays(DaysFromCivil(d)) == d
  {
    DaysFromCivilInjective(CivilFromDays(DaysFromCivil(d)), d);
  }

  /** The date following `d`. */
  function NextDay(d: Date): (r: Date)
    requires IsValidDate(d)
    ensures IsValidDate(r)
  {
    if d.day < DaysInMonth(d.year, d.month) then Date(d.year, d.month, d.day + 1)
    else if d.month < 12 then Date(d.year, d.month + 1, 1)
    else Date(d.year + 1, 1, 1)
  }

  /** The next date is exactly one day later. */
  lemma DaysFromCivilNextDay(d: Date)
    requires IsValidDate(d)
    ensures DaysFromCivil(NextDay(d)) == DaysFromCivil(d) + 1
  {
    DaysBeforeMonthStep(d.year, d.month);
    DaysBeforeYearStep(d.year);
  }
}
