/** The proleptic Gregorian calendar of Python's `datetime.date`, years 1 to 9999. */
module Calendar {

  datatype Date = Date(year: int, month: int, day: int)

  predicate IsLeapYear(year: int) {
    year % 4 == 0 && (year % 100 != 0 || year % 400 == 0)
  }

  function DaysInMonth(year: int, month: int): int
    requires 1 <= month <= 12
  {
    if month == 2 then (if IsLeapYear(year) then 29 else 28)
    else if month == 4 || month == 6 || month == 9 || month == 11 then 30
    else 31
  }

  /** The number of days in the months before `month` of `year`. */
  function DaysBefore(year: int, month: int): int
    requires 1 <= month <= 13
  {
    if month == 1 then 0 else DaysBefore(year, month - 1) + DaysInMonth(year, month - 1)
  }

  /** The month table adds up to the length of the Gregorian year: 366 days in
      a leap year and 365 otherwise. */
  lemma YearLength(year: int)
    ensures DaysBefore(year, 13) == if IsLeapYear(year) then 366 else 365
  {
    // One month at a time, since each step unfolds `DaysBefore` once.
    var feb := DaysInMonth(year, 2);
    assert DaysBefore(year, 2) == 31;
    assert DaysBefore(year, 3) == 31 + feb;
    assert DaysBefore(year, 4) == 62 + feb;
    assert DaysBefore(year, 5) == 92 + feb;
    assert DaysBefore(year, 6) == 123 + feb;
    assert DaysBefore(year, 7) == 153 + feb;
    assert DaysBefore(year, 8) == 184 + feb;
    assert DaysBefore(year, 9) == 215 + feb;
    assert DaysBefore(year, 10) == 245 + feb;
    assert DaysBefore(year, 11) == 276 + feb;
    assert DaysBefore(year, 12) == 306 + feb;
  }

  /** A date `datetime.date` can represent: MINYEAR 1 to MAXYEAR 9999. */
  predicate IsValid(d: Date) {
    && 1 <= d.year <= 9999
    && 1 <= d.month <= 12
    && 1 <= d.day <= DaysInMonth(d.year, d.month)
  }

  /** February 29 exists exactly in leap years. */
  lemma LeapDayExists(year: int)
    requires 1 <= year <= 9999
    ensures IsValid(Date(year, 2, 29)) <==> IsLeapYear(year)
  {
  }
}
