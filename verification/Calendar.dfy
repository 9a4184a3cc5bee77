/** The civil calendar: the closed-form day number against a plain count of days. */
module Calendar {

  datatype Date = Date(year: int, month: int, day: int) {
    predicate Valid() {
      && 1 <= month <= 12
      && 1 <= day <= DaysInMonth(year, month)
    }

    predicate Before(that: Date) {
      || year < that.year
      || (year == that.year && month < that.month)
      || (year == that.year && month == that.month && day < that.day)
    }

    /** The calendar's successor: the next day, month or year. */
    function Next(): Date
      requires Valid()
    {
      if day < DaysInMonth(year, month) then Date(year, month, day + 1)
      else if month < 12 then Date(year, month + 1, 1)
      else Date(year + 1, 1, 1)
    }

    function Previous(): Date
      requires Valid()
    {
      if day > 1 then Date(year, month, day - 1)
      else if month > 1 then Date(year, month - 1, DaysInMonth(year, month - 1))
      else Date(year - 1, 12, 31)
    }
  }

  const EPOCH := Date(1970, 1, 1)

  predicate IsLeapYear(year: int) {
    year % 4 == 0 && (year % 100 != 0 || year % 400 == 0)
  }

  function DaysInMonth(year: int, month: int): (days: nat)
    requires 1 <= month <= 12
    ensures 28 <= days <= 31
  {
    if month == 2 && IsLeapYear(year) then 29
    else [31, 28, 31, 30, 31, 30, 31, 31, 30, 31, 30, 31][month - 1]
  }

  /** C++ division of integers, which truncates toward zero. */
  function TruncatedDivision(a: int, b: int): int
    requires b > 0
  {
    if a >= 0 then a / b else -(-a / b)
  }

  function DaysFromCivil(date: Date): int {
    var year := date.year - (if date.month <= 2 then 1 else 0);
    var era := TruncatedDivision(if year >= 0 then year else year - 399, 400);
    var yearOfEra := year - era * 400;
    var dayOfYear := (153 * (if date.month > 2 then date.month - 3 else date.month + 9) + 2) / 5 + date.day - 1;
    var dayOfEra := yearOfEra * 365 + yearOfEra / 4 - yearOfEra / 100 + dayOfYear;
    era * 146097 + dayOfEra - 719468
  }

  // ----- the reference: counting days month by month and year by year

  function DaysBeforeMonth(year: int, month: int): int
    requires 1 <= month <= 13
  {
    if month == 1 then 0 else DaysBeforeMonth(year, month - 1) + DaysInMonth(year, month - 1)
  }

  function YearLength(year: int): int {
    DaysBeforeMonth(year, 13)
  }

  /** Days from the first day of 1970 to the first day of `year`, negative for earlier years. */
  function DaysBeforeYear(year: int): int
    decreases if year < 1970 then 1970 - year else year - 1970
  {
    if year == 1970 then 0
    else if year > 1970 then DaysBeforeYear(year - 1) + YearLength(year - 1)
    else DaysBeforeYear(year + 1) - YearLength(year)
  }

  function DayCount(date: Date): int
    requires 1 <= date.month <= 12
  {
    DaysBeforeYear(date.year) + DaysBeforeMonth(date.year, date.month) + date.day - 1
  }

  // ----- the closed form is the count

  /** The era part of the closed form: days up to the first of March of `year`. */
  function MarchFirst(year: int): int {
    var era := TruncatedDivision(if year >= 0 then year else year - 399, 400);
    var yearOfEra := year - era * 400;
    era * 146097 + yearOfEra * 365 + yearOfEra / 4 - yearOfEra / 100
  }

  /** Truncating division of the shifted year rounds down, so eras tile the years on both sides of zero. */
  lemma MarchFirstInEra(era: int, yearOfEra: int)
    requires 0 <= yearOfEra < 400
    ensures MarchFirst(400 * era + yearOfEra) == era * 146097 + YearsOfEra(yearOfEra)
  {
    var year := 400 * era + yearOfEra;
    assert TruncatedDivision(if year >= 0 then year else year - 399, 400) == era;
  }

  lemma EraStartsLeap()
    ensures IsLeapYear(0)
  {
  }

  /** Whether a year is a leap year depends only on its place in the era. */
  lemma LeapRepeats(era: int, yearOfEra: int)
    ensures IsLeapYear(400 * era + yearOfEra) == IsLeapYear(yearOfEra)
  {
    AddMultiple(yearOfEra, 100 * era, 4);
    AddMultiple(yearOfEra, 4 * era, 100);
    AddMultiple(yearOfEra, era, 400);
  }

  lemma AddMultiple(x: int, k: int, m: int)
    requires m == 4 || m == 100 || m == 400
    ensures (x + k * m) % m == x % m
  {
  }

  function YearsOfEra(yearOfEra: int): int {
    yearOfEra * 365 + yearOfEra / 4 - yearOfEra / 100
  }

  lemma YearOfEraStep(y: int)
    requires 1 <= y < 400
    ensures YearsOfEra(y) - YearsOfEra(y - 1) == if IsLeapYear(y) then 366 else 365
  {
    assert y / 4 - (y - 1) / 4 == if y % 4 == 0 then 1 else 0;
    assert y / 100 - (y - 1) / 100 == if y % 100 == 0 then 1 else 0;
  }

  lemma MarchFirstStep(year: int)
    ensures MarchFirst(year) - MarchFirst(year - 1) == if IsLeapYear(year) then 366 else 365
  {
    hide MarchFirst, TruncatedDivision, IsLeapYear;
    var era := year / 400;
    var yearOfEra := year - 400 * era;
    LeapRepeats(era, yearOfEra);
    MarchFirstInEra(era, yearOfEra);
    if yearOfEra == 0 {
      MarchFirstInEra(era - 1, 399);
      EraStartsLeap();
    } else {
      MarchFirstInEra(era, yearOfEra - 1);
      YearOfEraStep(yearOfEra);
    }
  }

  lemma MonthTable(year: int, month: int)
    requires 1 <= month <= 13
    ensures DaysBeforeMonth(year, month) ==
            (if month <= 2 then 31 * (month - 1)
             else 59 + (if IsLeapYear(year) then 1 else 0) + (153 * (month - 3) + 2) / 5)
  {
    if month > 1 {
      MonthTable(year, month - 1);
    }
  }

  lemma FirstOfYear(year: int)
    ensures DaysFromCivil(Date(year, 1, 1)) == MarchFirst(year - 1) + 306 - 719468
  {
  }

  lemma FirstOfYearStep(year: int)
    ensures DaysFromCivil(Date(year + 1, 1, 1)) == DaysFromCivil(Date(year, 1, 1)) + YearLength(year)
  {
    hide DaysFromCivil, MarchFirst;
    FirstOfYear(year);
    FirstOfYear(year + 1);
    MarchFirstStep(year);
    MonthTable(year, 13);
  }

  lemma {:induction false} YearStarts(year: int)
    ensures DaysFromCivil(Date(year, 1, 1)) == DaysBeforeYear(year)
    decreases if year < 1970 then 1970 - year else year - 1970
  {
    if year > 1970 {
      YearStarts(year - 1);
      FirstOfYearStep(year - 1);
    } else if year < 1970 {
      YearStarts(year + 1);
      FirstOfYearStep(year);
    }
  }

  /** From March on the closed form counts from the first of March of the same year. */
  lemma FromMarch(date: Date)
    requires 3 <= date.month <= 12
    ensures DaysFromCivil(date) == MarchFirst(date.year) + (153 * (date.month - 3) + 2) / 5 + date.day - 1 - 719468
  {
  }

  lemma UntilFebruary(date: Date)
    requires 1 <= date.month <= 2
    ensures DaysFromCivil(date) == DaysFromCivil(Date(date.year, 1, 1)) + 31 * (date.month - 1) + date.day - 1
  {
  }

  /** For every date of every year the closed form is the plain count of days since 1970-01-01. */
  lemma DaysFromCivilCounts(date: Date)
    requires date.Valid()
    ensures DaysFromCivil(date) == DayCount(date)
  {
    hide DaysFromCivil, MarchFirst;
    YearStarts(date.year);
    MonthTable(date.year, date.month);
    if date.month <= 2 {
      UntilFebruary(date);
    } else {
      FromMarch(date);
      FirstOfYear(date.year);
      MarchFirstStep(date.year);
    }
  }

  // ----- consequences

  lemma NextCount(date: Date)
    requires date.Valid()
    ensures date.Next().Valid() && DayCount(date.Next()) == DayCount(date) + 1
  {
    if date.month == 12 && date.day == 31 {
      assert YearLength(date.year) == DaysBeforeMonth(date.year, 12) + 31;
      YearCount(date.year);
    }
  }

  lemma YearCount(year: int)
    ensures DaysBeforeYear(year + 1) == DaysBeforeYear(year) + YearLength(year)
  {
  }

  lemma EpochIsDayZero()
    ensures DaysFromCivil(EPOCH) == 0
  {
  }

  /** The next calendar day is always exactly one more. */
  lemma NextDay(date: Date)
    requires date.Valid()
    ensures date.Next().Valid() && DaysFromCivil(date.Next()) == DaysFromCivil(date) + 1
  {
    hide DaysFromCivil, DayCount;
    NextCount(date);
    DaysFromCivilCounts(date);
    DaysFromCivilCounts(date.Next());
  }

  lemma PreviousDay(date: Date)
    requires date.Valid()
    ensures date.Previous().Valid() && date.Previous().Next() == date
    ensures DaysFromCivil(date.Previous()) == DaysFromCivil(date) - 1
  {
    hide DaysFromCivil;
    NextDay(date.Previous());
  }

  lemma {:induction false} YearsAhead(a: int, b: int)
    requires a <= b
    ensures DaysBeforeYear(b) - DaysBeforeYear(a) >= 365 * (b - a)
    decreases b - a
  {
    if a < b {
      YearsAhead(a, b - 1);
      MonthTable(b - 1, 13);
      YearCount(b - 1);
    }
  }

  lemma DayOfYearBounds(date: Date)
    requires date.Valid()
    ensures 0 <= DaysBeforeMonth(date.year, date.month) + date.day - 1 < YearLength(date.year)
  {
    MonthsAhead(date.year, 1, date.month);
    MonthsAhead(date.year, date.month + 1, 13);
  }

  lemma BeforeCountsLess(a: Date, b: Date)
    requires a.Valid() && b.Valid() && a.Before(b)
    ensures DaysFromCivil(a) < DaysFromCivil(b)
  {
    hide DaysFromCivil;
    DaysFromCivilCounts(a);
    DaysFromCivilCounts(b);
    if a.year < b.year {
      DayOfYearBounds(a);
      DayOfYearBounds(b);
      YearCount(a.year);
      YearsAhead(a.year + 1, b.year);
    } else if a.month < b.month {
      MonthsAhead(a.year, a.month + 1, b.month);
    }
  }

  lemma {:induction false} MonthsAhead(year: int, m: int, n: int)
    requires 1 <= m <= n <= 13
    ensures DaysBeforeMonth(year, m) <= DaysBeforeMonth(year, n)
    decreases n - m
  {
    if m < n {
      MonthsAhead(year, m, n - 1);
    }
  }

  /** Day numbers order dates exactly as year, month and day do. */
  lemma OrderIsLexicographic(a: Date, b: Date)
    requires a.Valid() && b.Valid()
    ensures DaysFromCivil(a) < DaysFromCivil(b) <==> a.Before(b)
    ensures DaysFromCivil(a) == DaysFromCivil(b) <==> a == b
  {
    hide DaysFromCivil;
    if a.Before(b) {
      BeforeCountsLess(a, b);
    } else if b.Before(a) {
      BeforeCountsLess(b, a);
    }
  }

  /** Every day number is the number of a date, so with the order it numbers the calendar without gaps. */
  lemma {:induction false} EveryDayHasADate(day: int) returns (date: Date)
    ensures date.Valid() && DaysFromCivil(date) == day
    decreases if day < 0 then -day else day
  {
    hide DaysFromCivil;
    if day == 0 {
      date := EPOCH;
      EpochIsDayZero();
    } else if day > 0 {
      var d := EveryDayHasADate(day - 1);
      NextDay(d);
      date := d.Next();
    } else {
      var d := EveryDayHasADate(day + 1);
      PreviousDay(d);
      date := d.Previous();
    }
  }
}
