/**
 * Proleptic Gregorian calendar dates, as Python's `datetime.date`
 * constructor accepts them: years 1 through 9999, months 1 through 12,
 * and days up to the month's length under the leap-year rule.
 */
module Calendar {
  import opened Wrappers

  datatype Date = Date(year: int, month: int, day: int)

  /** `datetime.MINYEAR` and `datetime.MAXYEAR`. */
  const MinYear := 1
  const MaxYear := 9999

  /** Every fourth year, except centuries not divisible by 400. */
  predicate IsLeapYear(y: int) {
    y % 4 == 0 && (y % 100 != 0 || y % 400 == 0)
  }

  function DaysInMonth(y: int, m: int): int
    requires 1 <= m <= 12
  {
    if m == 2 then (if IsLeapYear(y) then 29 else 28)
    else if m == 4 || m == 6 || m == 9 || m == 11 then 30
    else 31
  }

  predicate ValidDate(d: Date) {
    && MinYear <= d.year <= MaxYear
    && 1 <= d.month <= 12
    && 1 <= d.day <= DaysInMonth(d.year, d.month)
  }

  /** `date(y, m, d)`: the date, or `None` where Python raises `ValueError`. */
  function MakeDate(y: int, m: int, d: int): (r: Option<Date>)
    ensures r.Some? ==> r.value.year == y && r.value.month == m && r.value.day == d
    ensures r.None? <==> y < MinYear || y > MaxYear || m < 1 || m > 12 || d < 1 || d > DaysInMonth(y, m)
  {
    if ValidDate(Date(y, m, d)) then Some(Date(y, m, d)) else None
  }

  /** Total number of days in months `1..m` of year `y`. */
  function DaysBeforeMonthEnd(y: int, m: int): int
    requires 0 <= m <= 12
  {
    if m == 0 then 0 else DaysBeforeMonthEnd(y, m - 1) + DaysInMonth(y, m)
  }

  /** The month table agrees with the length of the year: 366 days in a leap
      year and 365 otherwise. */
  lemma {:induction false} MonthsFillYear(y: int)
    ensures DaysBeforeMonthEnd(y, 12) == if IsLeapYear(y) then 366 else 365
  {
    assert DaysBeforeMonthEnd(y, 1) == 31;
    assert DaysBeforeMonthEnd(y, 2) == 31 + DaysInMonth(y, 2);
    assert DaysBeforeMonthEnd(y, 3) == 62 + DaysInMonth(y, 2);
    assert DaysBeforeMonthEnd(y, 4) == 92 + DaysInMonth(y, 2);
    assert DaysBeforeMonthEnd(y, 5) == 123 + DaysInMonth(y, 2);
    assert DaysBeforeMonthEnd(y, 6) == 153 + DaysInMonth(y, 2);
    assert DaysBeforeMonthEnd(y, 7) == 184 + DaysInMonth(y, 2);
    assert DaysBeforeMonthEnd(y, 8) == 215 + DaysInMonth(y, 2);
    assert DaysBeforeMonthEnd(y, 9) == 245 + DaysInMonth(y, 2);
    assert DaysBeforeMonthEnd(y, 10) == 276 + DaysInMonth(y, 2);
    assert DaysBeforeMonthEnd(y, 11) == 306 + DaysInMonth(y, 2);
  }

  /** 29 February exists exactly in leap years. */
  lemma LeapDay(y: int)
    requires MinYear <= y <= MaxYear
    ensures MakeDate(y, 2, 29).Some? <==> IsLeapYear(y)
  {
  }

  /** Calendar facts the filename grammar relies on. */
  lemma CalendarExamples()
    ensures MakeDate(2023, 10, 15) == Some(Date(2023, 10, 15))
    ensures MakeDate(2024, 2, 29).Some? && MakeDate(2000, 2, 29).Some?
    ensures MakeDate(2023, 2, 29).None? && MakeDate(1900, 2, 29).None?
    ensures MakeDate(0, 1, 1).None? && MakeDate(2023, 0, 1).None? && MakeDate(2023, 13, 1).None?
    ensures MakeDate(2023, 4, 31).None? && MakeDate(2023, 1, 0).None?
  {
  }
}
