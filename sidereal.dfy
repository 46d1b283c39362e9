/**
 The exact steps of `local_sidereal_time`: locating the UT midnight before a
 Julian Date, and turning the Greenwich apparent sidereal time (GAST, in hours)
 plus the observer's longitude (degrees, east positive) into a whole-second
 hour/minute/second reading of Local Sidereal Time.

 GAST itself comes from a floating-point polynomial and trigonometric
 nutation terms; here it is an input, any real number.
 */
module Sidereal {
  import opened Numeric
  import opened Circular
  import opened Julian

  /** A sidereal clock reading. */
  datatype SiderealTime = SiderealTime(hour: int, minute: int, second: int)

  /** A reading a 24-hour clock can show. */
  predicate ValidReading(t: SiderealTime) {
    0 <= t.hour < 24 && 0 <= t.minute < 60 && 0 <= t.second < 60
  }

  /** The seconds since 0h that a reading shows. */
  function ReadingSeconds(t: SiderealTime): int {
    t.hour * 3600 + t.minute * 60 + t.second
  }

  // ---------------------------------------------------------------------------
  // UT midnight and hours since it

  /** `jd0`: the Julian Date of the UT midnight at or before `jd`. */
  function UtMidnight(jd: real): real {
    (jd - 0.5).Floor as real + 0.5
  }

  /** `h`: the hours elapsed since that midnight. */
  function HoursSinceMidnight(jd: real): real {
    24.0 * (jd - UtMidnight(jd))
  }

  /** Midnights fall on half-integral Julian Dates, the latest one at or before `jd`,
      so the hours since it lie in [0, 24). */
  lemma UtMidnightBounds(jd: real)
    ensures UtMidnight(jd) <= jd < UtMidnight(jd) + 1.0
    ensures IsWhole(UtMidnight(jd) - 0.5)
    ensures 0.0 <= HoursSinceMidnight(jd) < 24.0
  {
    var f := (jd - 0.5).Floor;
    assert UtMidnight(jd) - 0.5 == f as real;
  }

  /** For the Julian Date of a valid timestamp, the midnight step undoes the
      day fraction of `julian_date`: midnight is half a day before the day
      number, and the hours since it are the clock time in hours. */
  lemma UtMidnightOfJulianDate(t: Timestamp)
    requires ValidTimestamp(t)
    ensures UtMidnight(JulianDate(t)) == DayNumber(t.year, t.month, t.day) as real - 0.5
    ensures HoursSinceMidnight(JulianDate(t)) == SecondOfDay(t) as real / 3600.0
  {
    var jdn := DayNumber(t.year, t.month, t.day);
    var jd := JulianDate(t);
    DayFractionExact(t);
    DayFractionBounds(t);
    FloorUnique(jd - 0.5, jdn - 1);
  }

  // ---------------------------------------------------------------------------
  // From GAST and longitude to a reading

  /** `lst`: local sidereal time in hours, GAST shifted by longitude / 15 and wrapped into [0, 24). */
  function LocalHours(gast: real, longitude: real): (lst: real)
    ensures 0.0 <= lst < 24.0
    ensures IsWhole((gast + longitude / 15.0 - lst) / 24.0)
  {
    RestrictBounds(gast + longitude / 15.0, 0.0, 24.0);
    RestrictCongruent(gast + longitude / 15.0, 0.0, 24.0);
    Restrict(gast + longitude / 15.0, 0.0, 24.0)
  }

  /** `seconds`: the hours in seconds, rounded, wrapped into [0, 86400) and converted to an integer. */
  function WholeSeconds(lst: real): (seconds: int)
    ensures 0 <= seconds < 86400
    ensures seconds == RoundHalfAway(lst * 3600.0) % 86400
  {
    var rounded := RoundHalfAway(lst * 3600.0);
    RestrictIntAgrees(rounded, 0, 86400);
    RestrictIntIsMod(rounded, 86400);
    TruncateWhole(rounded % 86400);
    Truncate(Restrict(rounded as real, 0.0, 86400.0))
  }

  /** `hour`, `minute`, `second`: the count of seconds split with flooring division. */
  function Split(seconds: int): (t: SiderealTime)
    ensures 0 <= seconds < 86400 ==> ValidReading(t) && ReadingSeconds(t) == seconds
  {
    var hour := FloorDiv(seconds, 3600);
    var minute := FloorDiv(seconds - hour * 3600, 60);
    SiderealTime(hour, minute, seconds - hour * 3600 - minute * 60)
  }

  /** The tail of `local_sidereal_time`, from GAST on. */
  function LocalSiderealTime(gast: real, longitude: real): SiderealTime {
    Split(WholeSeconds(LocalHours(gast, longitude)))
  }

  // ---------------------------------------------------------------------------
  // Lemmas

  /** A rounded count of 86400 seconds, a full sidereal day, shows as 0. */
  lemma WholeSecondsWrapsFullDay(lst: real)
    requires RoundHalfAway(lst * 3600.0) == 86400
    ensures WholeSeconds(lst) == 0
  {
  }

  /** For hours in [0, 24) the count is the nearest whole second, halves rounded up,
      except just below 24h, where the count that would be 86400 wraps to 0. */
  lemma WholeSecondsNearest(lst: real)
    requires 0.0 <= lst < 24.0
    ensures var x := lst * 3600.0;
            (x - 0.5 < WholeSeconds(lst) as real <= x + 0.5)
            || (WholeSeconds(lst) == 0 && x + 0.5 >= 86400.0)
  {
    var x := lst * 3600.0;
    var rounded := RoundHalfAway(x);
    assert 0 <= rounded <= 86400;
  }

  /** Split inverts ReadingSeconds on valid readings. */
  lemma SplitReadingSeconds(t: SiderealTime)
    requires ValidReading(t)
    ensures Split(ReadingSeconds(t)) == t
  {
    var n := ReadingSeconds(t);
    assert FloorDiv(n, 3600) == t.hour;
    assert FloorDiv(n - t.hour * 3600, 60) == t.minute;
  }

  /** The reading is valid and shows the nearest whole second (circularly) of the local hours. */
  lemma LocalSiderealTimeNearest(gast: real, longitude: real)
    ensures ValidReading(LocalSiderealTime(gast, longitude))
    ensures var x := LocalHours(gast, longitude) * 3600.0;
            var n := ReadingSeconds(LocalSiderealTime(gast, longitude));
            (x - 0.5 < n as real <= x + 0.5) || (n == 0 && x + 0.5 >= 86400.0)
  {
    WholeSecondsNearest(LocalHours(gast, longitude));
  }

  /** Longitude is an angle: adding 360 degrees leaves the local hours, hence the reading, unchanged. */
  lemma LongitudePeriodic(gast: real, longitude: real)
    ensures LocalHours(gast, longitude + 360.0) == LocalHours(gast, longitude)
    ensures LocalSiderealTime(gast, longitude + 360.0) == LocalSiderealTime(gast, longitude)
  {
    var x := gast + longitude / 15.0;
    RestrictPeriodic(x, 0.0, 24.0, 1);
    assert gast + (longitude + 360.0) / 15.0 == x + (1 as real) * (24.0 - 0.0);
  }

  /** GAST is an hour angle: adding 24 hours leaves the reading unchanged. */
  lemma GastPeriodic(gast: real, longitude: real)
    ensures LocalHours(gast + 24.0, longitude) == LocalHours(gast, longitude)
    ensures LocalSiderealTime(gast + 24.0, longitude) == LocalSiderealTime(gast, longitude)
  {
    var x := gast + longitude / 15.0;
    RestrictPeriodic(x, 0.0, 24.0, 1);
    assert (gast + 24.0) + longitude / 15.0 == x + (1 as real) * (24.0 - 0.0);
  }
}
