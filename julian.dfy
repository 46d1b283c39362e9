/**
 The Julian Date of a UTC calendar timestamp, by the Fliegel–Van Flandern
 day-number formula: the date part is integer arithmetic with flooring
 division (Python 2 `/` on integers), the time of day is added as an exact
 fraction of a day counted from noon.

 Beside the formula stands an independent reference, the proleptic Gregorian
 calendar (leap years, month lengths, the next day), and the lemmas connect
 the two: the day number goes up by exactly one from each valid date to the
 next, so the Julian Date strictly increases with the timestamp.
 */
module Julian {
  import opened Numeric

  /** A UTC calendar breakdown, field for field as the source reads it. */
  datatype Timestamp = Timestamp(year: int, month: int, day: int, hour: int, minute: int, second: int)

  /** A calendar date, used by the Gregorian reference. */
  datatype Date = Date(year: int, month: int, day: int)

  // ---------------------------------------------------------------------------
  // The formula

  /** `a`: 1 for January and February, 0 for the other months. */
  function MonthShift(month: int): (a: int)
    ensures 1 <= month <= 12 ==> (a == 1 <==> month <= 2) && (a == 0 <==> 3 <= month)
  {
    FloorDiv(14 - month, 12)
  }

  /** `y`: the year counted from March of astronomical year -4800. */
  function ShiftedYear(year: int, month: int): int {
    year + 4800 - MonthShift(month)
  }

  /** `m`: the month counted from March (March is 0, February is 11). */
  function ShiftedMonth(month: int): (m: int)
    ensures 1 <= month <= 12 ==> 0 <= m <= 11 && m == (month + 9) % 12
  {
    month + 12 * MonthShift(month) - 3
  }

  /** `jdn`: the Julian Day Number of the date, the day that begins at its noon. */
  function DayNumber(year: int, month: int, day: int): int {
    var y := ShiftedYear(year, month);
    var m := ShiftedMonth(month);
    day + FloorDiv(153 * m + 2, 5) + 365 * y + FloorDiv(y, 4) - FloorDiv(y, 100) + FloorDiv(y, 400) - 32045
  }

  /** The time of day as a fraction of a day measured from noon. */
  function DayFraction(hour: int, minute: int, second: int): real {
    (hour - 12) as real / 24.0 + minute as real / 1440.0 + second as real / 86400.0
  }

  /** `julian_date`: day number plus time-of-day fraction. */
  function JulianDate(t: Timestamp): real {
    DayNumber(t.year, t.month, t.day) as real + DayFraction(t.hour, t.minute, t.second)
  }

  // ---------------------------------------------------------------------------
  // The Gregorian reference

  predicate IsLeapYear(year: int) {
    year % 4 == 0 && (year % 100 != 0 || year % 400 == 0)
  }

  function DaysInMonth(year: int, month: int): (n: int)
    requires 1 <= month <= 12
  {
    if month == 2 then (if IsLeapYear(year) then 29 else 28)
    else if month == 4 || month == 6 || month == 9 || month == 11 then 30
    else 31
  }

  predicate ValidDate(d: Date) {
    1 <= d.month <= 12 && 1 <= d.day <= DaysInMonth(d.year, d.month)
  }

  /** The calendar day after a valid date. */
  function NextDate(d: Date): Date
    requires ValidDate(d)
  {
    if d.day < DaysInMonth(d.year, d.month) then Date(d.year, d.month, d.day + 1)
    else if d.month < 12 then Date(d.year, d.month + 1, 1)
    else Date(d.year + 1, 1, 1)
  }

  function DateOf(t: Timestamp): Date {
    Date(t.year, t.month, t.day)
  }

  /** Seconds since the start of the UTC day. */
  function SecondOfDay(t: Timestamp): int {
    t.hour * 3600 + t.minute * 60 + t.second
  }

  /** A timestamp naming a real UTC instant (leap seconds excluded). */
  predicate ValidTimestamp(t: Timestamp) {
    ValidDate(DateOf(t)) && 0 <= t.hour < 24 && 0 <= t.minute < 60 && 0 <= t.second < 60
  }

  /** Calendar order on dates. */
  predicate DateBefore(a: Date, b: Date) {
    a.year < b.year
    || (a.year == b.year && a.month < b.month)
    || (a.year == b.year && a.month == b.month && a.day < b.day)
  }

  /** Chronological order on timestamps: by date, then by time of day. */
  predicate Before(s: Timestamp, t: Timestamp) {
    DateBefore(DateOf(s), DateOf(t)) || (DateOf(s) == DateOf(t) && SecondOfDay(s) < SecondOfDay(t))
  }

  // ---------------------------------------------------------------------------
  // Lemmas about the formula

  /** 2000-01-01 12:00:00 UTC is the J2000.0 epoch, Julian Date 2451545. */
  lemma JulianDateJ2000()
    ensures JulianDate(Timestamp(2000, 1, 1, 12, 0, 0)) == 2451545.0
  {
  }

  /** The time of day adds exactly its seconds past noon, as a fraction of 86400. */
  lemma DayFractionExact(t: Timestamp)
    ensures JulianDate(t) - DayNumber(t.year, t.month, t.day) as real
         == (SecondOfDay(t) - 43200) as real / 86400.0
  {
  }

  /** For a valid clock reading the fraction lies in [-0.5, 0.5): the Julian day begins at noon. */
  lemma DayFractionBounds(t: Timestamp)
    requires 0 <= t.hour < 24 && 0 <= t.minute < 60 && 0 <= t.second < 60
    ensures -0.5 <= JulianDate(t) - DayNumber(t.year, t.month, t.day) as real < 0.5
  {
    DayFractionExact(t);
  }

  /** Raising the day of the month by one raises the Julian Date by exactly one. */
  lemma JulianDateNextDay(t: Timestamp)
    ensures JulianDate(t.(day := t.day + 1)) == JulianDate(t) + 1.0
  {
  }

  /** A floored count of multiples of k (4, 100 or 400) grows by one exactly
      when stepping onto a multiple. */
  lemma MultipleCountStep(n: int, k: int)
    requires k == 4 || k == 100 || k == 400
    ensures FloorDiv(n + 1, k) - FloorDiv(n, k) == if (n + 1) % k == 0 then 1 else 0
  {
    if k == 4 {
      assert FloorDiv(n + 1, 4) - FloorDiv(n, 4) == if (n + 1) % 4 == 0 then 1 else 0;
    } else if k == 100 {
      assert FloorDiv(n + 1, 100) - FloorDiv(n, 100) == if (n + 1) % 100 == 0 then 1 else 0;
    } else {
      assert FloorDiv(n + 1, 400) - FloorDiv(n, 400) == if (n + 1) % 400 == 0 then 1 else 0;
    }
  }

  /** A multiple of 400 is a multiple of 100. */
  lemma MultipleOf400(n: int)
    requires n % 400 == 0
    ensures n % 100 == 0
  {
    assert n == 100 * (4 * (n / 400));
  }

  /** A multiple of 100 is a multiple of 4. */
  lemma MultipleOf100(n: int)
    requires n % 100 == 0
    ensures n % 4 == 0
  {
    assert n == 4 * (25 * (n / 100));
  }

  /** The quarter, century and quadricentury terms together gain one day
      exactly when y + 1 is a Gregorian leap year. */
  lemma LeapDayCount(y: int)
    ensures (FloorDiv(y + 1, 4) - FloorDiv(y, 4))
          - (FloorDiv(y + 1, 100) - FloorDiv(y, 100))
          + (FloorDiv(y + 1, 400) - FloorDiv(y, 400))
         == if IsLeapYear(y + 1) then 1 else 0
  {
    var n := y + 1;
    MultipleCountStep(y, 4);
    MultipleCountStep(y, 100);
    MultipleCountStep(y, 400);
    if n % 400 == 0 {
      MultipleOf400(n);
      MultipleOf100(n);
      assert IsLeapYear(n);
    } else if n % 100 == 0 {
      MultipleOf100(n);
      assert !IsLeapYear(n);
    } else if n % 4 == 0 {
      assert IsLeapYear(n);
    } else {
      assert !IsLeapYear(n);
    }
  }

  /** The month-of-year term of the formula grows by the length of each month
      from March (m = 0) to January (m = 10). */
  lemma MonthTermStep(m: int)
    requires 0 <= m <= 10
    ensures FloorDiv(153 * (m + 1) + 2, 5) - FloorDiv(153 * m + 2, 5)
         == [31, 30, 31, 30, 31, 31, 30, 31, 30, 31, 31][m]
  {
  }

  /** Within one shifted year (March to the following February) the year terms
      are shared, so the day number steps over a month end by one. */
  lemma MonthEndWithinShiftedYear(year: int, month: int)
    requires 1 <= month <= 11 && month != 2
    ensures DayNumber(year, month + 1, 1) == DayNumber(year, month, DaysInMonth(year, month)) + 1
  {
    assert ShiftedYear(year, month + 1) == ShiftedYear(year, month);
    MonthTermStep(ShiftedMonth(month));
  }

  /** The Gregorian leap-year rule repeats every 400 years, hence every 4800. */
  lemma LeapYearPeriod(year: int)
    ensures IsLeapYear(year + 4800) == IsLeapYear(year)
  {
    var n := year + 4800;
    assert n % 4 == year % 4 by { assert n == year + 4 * 1200; }
    assert n % 100 == year % 100 by { assert n == year + 100 * 48; }
    assert n % 400 == year % 400 by { assert n == year + 400 * 12; }
  }

  /** From the last of February to the first of March the shifted year turns over,
      adding the leap day exactly when the year is a Gregorian leap year. */
  lemma FebruaryEnd(year: int)
    ensures DayNumber(year, 3, 1) == DayNumber(year, 2, DaysInMonth(year, 2)) + 1
  {
    var y := year + 4799;
    assert ShiftedYear(year, 2) == y && ShiftedYear(year, 3) == y + 1;
    LeapDayCount(y);
    LeapYearPeriod(year);
  }

  /** From 31 December to 1 January the shifted year stays the same. */
  lemma DecemberEnd(year: int)
    ensures DayNumber(year + 1, 1, 1) == DayNumber(year, 12, 31) + 1
  {
    assert ShiftedYear(year + 1, 1) == ShiftedYear(year, 12);
  }

  /** The day number advances by exactly one from a valid date to the next calendar day. */
  lemma DayNumberNextDate(d: Date)
    requires ValidDate(d)
    ensures ValidDate(NextDate(d))
    ensures DayNumber(NextDate(d).year, NextDate(d).month, NextDate(d).day) == DayNumber(d.year, d.month, d.day) + 1
  {
    if d.day == DaysInMonth(d.year, d.month) {
      if d.month == 12 {
        DecemberEnd(d.year);
      } else if d.month == 2 {
        FebruaryEnd(d.year);
      } else {
        MonthEndWithinShiftedYear(d.year, d.month);
      }
    }
  }

  /** The last day of a month comes before the first day of any later month. */
  lemma {:induction false} MonthEndBeforeLaterMonth(y1: int, m1: int, y2: int, m2: int)
    requires 1 <= m1 <= 12 && 1 <= m2 <= 12
    requires y1 < y2 || (y1 == y2 && m1 < m2)
    ensures DayNumber(y1, m1, DaysInMonth(y1, m1)) < DayNumber(y2, m2, 1)
    decreases (y2 - y1) * 12 + m2 - m1
  {
    // the month just before (y2, m2)
    var py, pm := if m2 > 1 then y2 else y2 - 1, if m2 > 1 then m2 - 1 else 12;
    var last := Date(py, pm, DaysInMonth(py, pm));
    DayNumberNextDate(last);
    assert NextDate(last) == Date(y2, m2, 1);
    if (py, pm) != (y1, m1) {
      MonthEndBeforeLaterMonth(y1, m1, py, pm);
    }
  }

  /** The day number strictly increases along the calendar. */
  lemma DayNumberIncreasing(a: Date, b: Date)
    requires ValidDate(a) && ValidDate(b) && DateBefore(a, b)
    ensures DayNumber(a.year, a.month, a.day) < DayNumber(b.year, b.month, b.day)
  {
    if a.year != b.year || a.month != b.month {
      MonthEndBeforeLaterMonth(a.year, a.month, b.year, b.month);
    }
  }

  /** The Julian Date strictly increases with the UTC timestamp. */
  lemma JulianDateIncreasing(s: Timestamp, t: Timestamp)
    requires ValidTimestamp(s) && ValidTimestamp(t) && Before(s, t)
    ensures JulianDate(s) < JulianDate(t)
  {
    DayFractionExact(s);
    DayFractionExact(t);
    if DateBefore(DateOf(s), DateOf(t)) {
      DayNumberIncreasing(DateOf(s), DateOf(t));
      DayFractionBounds(s);
      DayFractionBounds(t);
    }
  }

  /** On valid clock readings the seconds of the day determine hour, minute and second. */
  lemma SecondOfDayInjective(s: Timestamp, t: Timestamp)
    requires 0 <= s.hour < 24 && 0 <= s.minute < 60 && 0 <= s.second < 60
    requires 0 <= t.hour < 24 && 0 <= t.minute < 60 && 0 <= t.second < 60
    requires SecondOfDay(s) == SecondOfDay(t)
    ensures s.hour == t.hour && s.minute == t.minute && s.second == t.second
  {
  }

  /** Julian Dates of valid timestamps compare exactly as the timestamps do,
      and two valid timestamps share a Julian Date only if they are equal. */
  lemma JulianDateOrder(s: Timestamp, t: Timestamp)
    requires ValidTimestamp(s) && ValidTimestamp(t)
    ensures JulianDate(s) < JulianDate(t) <==> Before(s, t)
    ensures JulianDate(s) == JulianDate(t) <==> s == t
  {
    if Before(s, t) {
      JulianDateIncreasing(s, t);
    } else if Before(t, s) {
      JulianDateIncreasing(t, s);
    } else {
      SecondOfDayInjective(s, t);
    }
  }
}
