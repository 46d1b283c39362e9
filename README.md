# StarClock time calculations in Dafny

StarClock shows four clocks side by side: local time, UTC, the Julian Date and
the Local Sidereal Time (LST) at the observer's longitude. This project models
the exact part of its calculation module, `starclock/clock.py`:

- `restrict(value, lower, upper)`, the circular wrap into `[lower, upper)`
  (`circular.dfy`, module `Circular`);
- `julian_date`, the Fliegel–Van Flandern day number of a UTC date plus the
  time of day as a fraction of a day counted from noon (`julian.dfy`, module
  `Julian`);
- the steps of `local_sidereal_time` that do not involve the floating-point
  sidereal-time series: the UT midnight before a Julian Date and the hours
  since it, and, from the Greenwich apparent sidereal time (GAST) on, the
  longitude shift, the wrap into 24 hours, the rounding to whole seconds, the
  wrap into 86400 seconds and the split into hour, minute and second
  (`sidereal.dfy`, module `Sidereal`);
- the Python 2 numeric operations these rely on: `/` between integers (which
  floors), `round` (halves away from zero) and `int` on a float (which
  truncates) (`numeric.dfy`, module `Numeric`).

Floats are modelled as exact mathematical `real`s and Python integers as
Dafny's unbounded `int`. GAST is an input of the model: any real number.

Beside the formula, `Julian` defines the proleptic Gregorian calendar (leap
years, month lengths, the next day) as an independent reference, and proves
that the day number steps by exactly one from every valid date to the next.
From this follows that the Julian Date of valid timestamps is strictly
increasing and compares exactly as the timestamps do. `Circular` characterises
`restrict` as the unique value in the range that differs from the input by
whole periods.

The integer divisions of the day-number formula (starclock/clock.py:21 and 25)
and of the hour/minute split (starclock/clock.py:55-56) are Python 2 `/` on
integers, which rounds toward negative infinity. The model floors too
(`Numeric.FloorDiv`); on the non-negative operands that occur in practice this
is the same as truncation.

## Model

| member | source | states |
|---|---|---|
| Numeric.FloorDiv | starclock/clock.py:21-25 | Python 2 integer `/`: the quotient q with q*b <= a < q*b + b for a positive divisor (and the mirrored bounds for a negative one) |
| Numeric.FloorDivIsRealFloor | starclock/clock.py:21-25 | integer `/` equals the floor of the exact real quotient, for either sign of divisor |
| Numeric.RoundHalfAway | starclock/clock.py:54 | `round` gives an integer within one half of x; a tie goes up for x >= 0 and down for x < 0 |
| Numeric.RoundHalfAwayOdd | starclock/clock.py:54 | `round(-x) == -round(x)`: halves go away from zero on both sides |
| Numeric.Truncate | starclock/clock.py:54 | `int(x)` is the integer part of x, truncated toward zero |
| Numeric.TruncateWhole | starclock/clock.py:54 | `int` returns a whole-numbered float unchanged |
| Circular.Restrict | starclock/clock.py:7-10 | no contract of its own; characterised by Circular.RestrictUnique (the one value in [lower, upper) that differs from value by whole periods), Circular.RestrictBounds, Circular.RestrictCongruent and Circular.RestrictPeriodic |
| Circular.RestrictInt | starclock/clock.py:54 | no contract of its own; the float `restrict` of the whole-numbered count of seconds restated on integers, characterised by Circular.RestrictIntAgrees (equal to the real `restrict` on whole numbers) and Circular.RestrictIntIsMod (the remainder modulo the period) |
| Circular.RestrictBounds | starclock/clock.py:7-10 | for lower < upper the result lies in [lower, upper) |
| Circular.RestrictBoundsReversed | starclock/clock.py:7-10 | for upper < lower the result lies in (upper, lower] |
| Circular.RestrictCongruent | starclock/clock.py:9-10 | value minus the result is a whole number of periods upper - lower |
| Circular.RestrictPeriodic | starclock/clock.py:9-10 | adding any integer multiple of the period to value leaves the result unchanged |
| Circular.RestrictIdentity | starclock/clock.py:9-10 | values already in [lower, upper) are returned unchanged |
| Circular.RestrictOfCongruent | starclock/clock.py:9-10 | any x in [lower, upper) that differs from value by whole periods is the result |
| Circular.RestrictUnique | starclock/clock.py:7-10 | for lower < upper: x is the result if and only if x lies in [lower, upper) and differs from value by whole periods |
| Circular.RestrictIntAgrees | starclock/clock.py:54 | on whole numbers the float `restrict` equals the integer version with flooring division |
| Circular.RestrictIntIsMod | starclock/clock.py:54 | the integer `restrict` into [0, period) is the remainder modulo the period |
| Julian.MonthShift | starclock/clock.py:21 | for a month in [1, 12], `a` is 1 exactly for January and February and 0 exactly for March to December |
| Julian.ShiftedYear | starclock/clock.py:22 | no contract of its own; characterised by Julian.FebruaryEnd (the shifted year turns over between February and March) and Julian.DecemberEnd (it stays the same from December to January) |
| Julian.ShiftedMonth | starclock/clock.py:23 | for a month in [1, 12], `m` lies in [0, 11] and counts months from March: m == (month + 9) mod 12 |
| Julian.DayNumber | starclock/clock.py:25 | no contract of its own; characterised by Julian.DayNumberNextDate (it rises by exactly 1 from every valid Gregorian date to the next) and Julian.JulianDateJ2000 (its value at 2000-01-01) |
| Julian.DayFraction | starclock/clock.py:26 | no contract of its own; characterised by Julian.DayFractionExact (seconds past noon over 86400) and Julian.DayFractionBounds (within [-0.5, 0.5) for a valid clock time) |
| Julian.JulianDate | starclock/clock.py:12-28 | no contract of its own; characterised by Julian.JulianDateOrder (Julian Dates of valid timestamps compare exactly as the timestamps do) and Julian.JulianDateJ2000 (the J2000.0 epoch) |
| Julian.JulianDateJ2000 | starclock/clock.py:21-26 | 2000-01-01 12:00:00 UTC has Julian Date exactly 2451545, the J2000.0 epoch |
| Julian.DayFractionExact | starclock/clock.py:26 | the Julian Date exceeds the day number by (seconds of the day - 43200) / 86400 |
| Julian.DayFractionBounds | starclock/clock.py:26 | for hour in [0, 24) and minute, second in [0, 60) that excess lies in [-0.5, 0.5) |
| Julian.JulianDateNextDay | starclock/clock.py:25-26 | raising the day of the month by one raises the Julian Date by exactly 1 |
| Julian.MonthTermStep | starclock/clock.py:25 | the term (153*m + 2)/5 grows by the length of each month from March to January |
| Julian.LeapDayCount | starclock/clock.py:25 | the y/4 - y/100 + y/400 terms gain one day exactly when y + 1 is a Gregorian leap year |
| Julian.FebruaryEnd | starclock/clock.py:21-25 | the day number of 1 March is one more than that of the last day of February, leap year or not |
| Julian.DecemberEnd | starclock/clock.py:21-25 | the day number of 1 January is one more than that of 31 December of the year before |
| Julian.DayNumberNextDate | starclock/clock.py:21-25 | from every valid Gregorian date to the next calendar day the day number rises by exactly 1 |
| Julian.MonthEndBeforeLaterMonth | starclock/clock.py:21-25 | the last day of a month has a smaller day number than the first day of any later month |
| Julian.DayNumberIncreasing | starclock/clock.py:21-25 | the day number strictly increases along the calendar |
| Julian.JulianDateIncreasing | starclock/clock.py:12-28 | for valid timestamps, a later timestamp has a strictly larger Julian Date |
| Julian.JulianDateOrder | starclock/clock.py:12-28 | for valid timestamps, Julian Dates compare exactly as the timestamps do, and are equal only for equal timestamps |
| Sidereal.UtMidnight | starclock/clock.py:32 | no contract of its own; characterised by Sidereal.UtMidnightBounds (the latest half-integral Julian Date at or before jd) and Sidereal.UtMidnightOfJulianDate (the day number minus 0.5) |
| Sidereal.HoursSinceMidnight | starclock/clock.py:33 | no contract of its own; characterised by Sidereal.UtMidnightBounds (within [0, 24)) and Sidereal.UtMidnightOfJulianDate (the UTC clock time in hours) |
| Sidereal.UtMidnightBounds | starclock/clock.py:32-33 | `jd0` is the latest half-integral Julian Date at or before jd, so `h` lies in [0, 24) |
| Sidereal.UtMidnightOfJulianDate | starclock/clock.py:32-33 | for the Julian Date of a valid timestamp, `jd0` is its day number minus 0.5 and `h` is its UTC clock time in hours |
| Sidereal.LocalHours | starclock/clock.py:51-52 | `lst` lies in [0, 24) and differs from GAST + longitude/15 by a whole number of days |
| Sidereal.WholeSeconds | starclock/clock.py:54 | `seconds` lies in [0, 86400) and is the rounded count of seconds modulo 86400 |
| Sidereal.WholeSecondsWrapsFullDay | starclock/clock.py:54 | a count that rounds to 86400 is shown as 0 |
| Sidereal.WholeSecondsNearest | starclock/clock.py:54 | for hours in [0, 24), `seconds` is within half a second of the exact count, or 0 when the exact count rounds up to a full day |
| Sidereal.Split | starclock/clock.py:55-57 | for seconds in [0, 86400): hour in [0, 24), minute and second in [0, 60), and hour*3600 + minute*60 + second == seconds |
| Sidereal.SplitReadingSeconds | starclock/clock.py:55-57 | splitting the seconds shown by a valid reading gives back that reading |
| Sidereal.LocalSiderealTime | starclock/clock.py:51-59 | no contract of its own; characterised by Sidereal.LocalSiderealTimeNearest (a valid reading of the local hours to the nearest second), Sidereal.LongitudePeriodic and Sidereal.GastPeriodic |
| Sidereal.LocalSiderealTimeNearest | starclock/clock.py:51-59 | the returned triple is a valid reading showing the local hours to the nearest second, circularly |
| Sidereal.LongitudePeriodic | starclock/clock.py:51-52 | longitude and longitude + 360 give the same local hours and the same triple |
| Sidereal.GastPeriodic | starclock/clock.py:48-52 | GAST and GAST + 24 give the same local hours and the same triple |

## Left out

- The Greenwich mean sidereal time polynomial and the nutation terms (`d`, `d0`, `t`, `gmst`, `omega`, `l`, `delta_psi`, `epsilon`, `eqeq`, `gast`; starclock/clock.py:34-49): floating-point series with `math.sin`, `math.cos`, `math.radians` and `**`. GAST is an input of `Sidereal.LocalHours` and `Sidereal.LocalSiderealTime` instead, so the golden LST value for a given date is not stated.
- `calc` (starclock/clock.py:61-75): it reads the wall clock and host time zone and formats strings; I/O and library formatting.
- IEEE floating-point rounding: every float is an exact real, so the model does not show rounding error in the day fraction, the longitude division or the product `lst * 3600`.
- Circular.Restrict: requires lower != upper; with equal bounds the source raises a division-by-zero error, which is not modelled.
- Julian.ValidTimestamp: excludes the leap seconds 60 and 61 that a UTC breakdown may carry; `Julian.JulianDate` itself accepts any integers, as the source does.
- starclock/longitude.py (prompts for a longitude and rewrites its own source file), starclock/animation.py (a wall-clock sleep loop), starclock/console.py and starclock/gui.py (terminal and window output), starclock/__init__.py and starclock/info.py (wiring and a help text): I/O and timing, no calculation.
