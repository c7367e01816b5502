/**
 * Decomposition of a millisecond timestamp (elapsed milliseconds since
 * 1970-01-01T00:00:00Z) into a Gregorian year and the milliseconds elapsed
 * inside that year.  All quantities are unbounded integers.
 */
module Calculate {

  /** Milliseconds in one day: 1000 * 60 * 60 * 24, written out as one literal. */
  const DAY_MS: int := 86400000

  /** Milliseconds in an ordinary (365-day) year. */
  const YEAR_MS_NO_LEAP: int := DAY_MS * 365

  /** The first year of the epoch. */
  const EPOCH_YEAR: int := 1970

  /** The result of decomposing a timestamp. */
  datatype YearAndRemainderResult = YearAndRemainderResult(year: int, remainder: int)

  // ---------------------------------------------------------------------------
  // Years and their lengths
  // ---------------------------------------------------------------------------

  /** Gregorian rule: divisible by 4, and not by 100 unless also by 400. */
  predicate IsLeapYear(year: int)
  {
    year % 4 == 0 && (year % 100 != 0 || year % 400 == 0)
  }

  /**
   * The leap years the fixtures cross (1972 .. 2016, and 2000 by the
   * 400-year rule), and the years they treat as ordinary.
   */
  lemma LeapYearExamples()
    ensures IsLeapYear(1980) && IsLeapYear(1996) && IsLeapYear(2000)
    ensures !IsLeapYear(1981) && !IsLeapYear(2017) && !IsLeapYear(1900)
  {
  }

  /** Length of a year in milliseconds: 365 days, plus the leap day in leap years. */
  function YearLengthMs(year: int): (r: int)
    ensures YEAR_MS_NO_LEAP <= r <= YEAR_MS_NO_LEAP + DAY_MS
    ensures r % DAY_MS == 0
    ensures r > YEAR_MS_NO_LEAP <==> IsLeapYear(year)
  {
    if IsLeapYear(year) then YEAR_MS_NO_LEAP + DAY_MS else YEAR_MS_NO_LEAP
  }

  /**
   * Timestamp of the first millisecond of `year`: the lengths of all years
   * from 1970 up to, but not including, `year`.
   */
  function YearStartMs(year: int): (r: int)
    requires year >= EPOCH_YEAR
    ensures r >= 0
    ensures r == 0 <==> year == EPOCH_YEAR
    decreases year - EPOCH_YEAR
  {
    if year == EPOCH_YEAR then 0 else YearStartMs(year - 1) + YearLengthMs(year - 1)
  }

  /** The year after `year` starts where `year` ends. */
  lemma YearStartStep(year: int)
    requires year >= EPOCH_YEAR
    ensures YearStartMs(year + 1) == YearStartMs(year) + YearLengthMs(year)
  {
  }

  /** A later year starts no earlier than the end of an earlier one. */
  lemma {:induction false} YearStartMonotone(a: int, b: int)
    requires EPOCH_YEAR <= a < b
    ensures YearStartMs(a) + YearLengthMs(a) <= YearStartMs(b)
    decreases b - a
  {
    if a + 1 < b {
      YearStartMonotone(a, b - 1);
    }
  }

  // ---------------------------------------------------------------------------
  // Closed form of the year start, an independent reference definition
  // ---------------------------------------------------------------------------

  /** Number of leap years among 1 .. n, for n >= 0. */
  function LeapYearsThrough(n: int): int
  {
    n / 4 - n / 100 + n / 400
  }

  /** Whole days from 1970-01-01 to January 1 of `year`, counted arithmetically. */
  function DaysBefore(year: int): int
  {
    365 * (year - EPOCH_YEAR) + LeapYearsThrough(year - 1) - LeapYearsThrough(EPOCH_YEAR - 1)
  }

  // Stepping n by one raises n / k by one exactly when k divides n.

  lemma DivisionStep4(n: int)
    ensures n / 4 - (n - 1) / 4 == if n % 4 == 0 then 1 else 0
  {
  }

  lemma DivisionStep100(n: int)
    ensures n / 100 - (n - 1) / 100 == if n % 100 == 0 then 1 else 0
  {
  }

  lemma DivisionStep400(n: int)
    ensures n / 400 - (n - 1) / 400 == if n % 400 == 0 then 1 else 0
  {
  }

  lemma CenturyDivisibleBy4(n: int)
    requires n % 100 == 0
    ensures n % 4 == 0
  {
    assert n == 4 * (25 * (n / 100));
  }

  lemma QuadricentennialDivisibleBy100(n: int)
    requires n % 400 == 0
    ensures n % 100 == 0
  {
    assert n == 100 * (4 * (n / 400));
  }

  /** Moving the leap-year count from n - 1 to n adds one exactly when n is a leap year. */
  lemma LeapYearsThroughStep(n: int)
    ensures LeapYearsThrough(n) - LeapYearsThrough(n - 1) == if IsLeapYear(n) then 1 else 0
  {
    DivisionStep4(n);
    DivisionStep100(n);
    DivisionStep400(n);
    if n % 400 == 0 {
      QuadricentennialDivisibleBy100(n);
      CenturyDivisibleBy4(n);
    } else if n % 100 == 0 {
      CenturyDivisibleBy4(n);
    }
  }

  /** One more year adds 365 days, and the leap day when that year is a leap year. */
  lemma DaysBeforeStep(year: int)
    ensures DaysBefore(year + 1) == DaysBefore(year) + if IsLeapYear(year) then 366 else 365
  {
    LeapYearsThroughStep(year);
  }

  /** The recursive year start agrees with the closed form. */
  lemma {:induction false} YearStartClosedForm(year: int)
    requires year >= EPOCH_YEAR
    ensures YearStartMs(year) == DAY_MS * DaysBefore(year)
    decreases year - EPOCH_YEAR
  {
    if year == EPOCH_YEAR {
      assert DaysBefore(year) == 0;
    } else {
      var days := if IsLeapYear(year - 1) then 366 else 365;
      YearStartClosedForm(year - 1);
      DaysBeforeStep(year - 1);
      assert YearLengthMs(year - 1) == DAY_MS * days;
      assert DAY_MS * DaysBefore(year) == DAY_MS * DaysBefore(year - 1) + DAY_MS * days;
    }
  }

  // ---------------------------------------------------------------------------
  // Decomposition
  // ---------------------------------------------------------------------------

  /**
   * Greedy subtraction of whole years, starting at `year` with `remaining`
   * milliseconds left: a year is consumed only while at least its full length
   * remains, so a year boundary belongs to the later year.
   */
  function YearAndRemainderFrom(year: int, remaining: int): (d: YearAndRemainderResult)
    requires year >= EPOCH_YEAR && remaining >= 0
    ensures d.year >= year
    ensures 0 <= d.remainder < YearLengthMs(d.year)
    ensures YearStartMs(d.year) + d.remainder == YearStartMs(year) + remaining
    decreases remaining
  {
    if remaining < YearLengthMs(year) then
      YearAndRemainderResult(year, remaining)
    else
      YearAndRemainderFrom(year + 1, remaining - YearLengthMs(year))
  }

  /**
   * Year and milliseconds into that year of timestamp `t`: the year is at
   * least 1970, the remainder lies inside that year, and the year start plus
   * the remainder gives back `t`.
   */
  function YearAndRemainder(t: int): (d: YearAndRemainderResult)
    requires t >= 0
    ensures d.year >= EPOCH_YEAR
    ensures 0 <= d.remainder < YearLengthMs(d.year)
    ensures YearStartMs(d.year) + d.remainder == t
  {
    YearAndRemainderFrom(EPOCH_YEAR, t)
  }

  /** The year of timestamp `t`: the one year whose span contains `t`. */
  function Year(t: int): (y: int)
    requires t >= 0
    ensures y >= EPOCH_YEAR
    ensures YearStartMs(y) <= t < YearStartMs(y) + YearLengthMs(y)
  {
    YearAndRemainder(t).year
  }

  /** Year spans do not overlap: a timestamp lies in at most one year. */
  lemma SpansDisjoint(t: int, y1: int, y2: int)
    requires y1 >= EPOCH_YEAR && y2 >= EPOCH_YEAR
    requires YearStartMs(y1) <= t < YearStartMs(y1) + YearLengthMs(y1)
    requires YearStartMs(y2) <= t < YearStartMs(y2) + YearLengthMs(y2)
    ensures y1 == y2
  {
    if y1 < y2 {
      YearStartMonotone(y1, y2);
    } else if y2 < y1 {
      YearStartMonotone(y2, y1);
    }
  }

  /**
   * The decomposition is the only one: a year and an in-range remainder that
   * rebuild `t` are exactly what YearAndRemainder returns for `t`.
   */
  lemma DecompositionUnique(t: int, year: int, remainder: int)
    requires year >= EPOCH_YEAR && 0 <= remainder < YearLengthMs(year)
    requires t == YearStartMs(year) + remainder
    ensures YearAndRemainder(t) == YearAndRemainderResult(year, remainder)
  {
    SpansDisjoint(t, year, YearAndRemainder(t).year);
  }

  /** The first millisecond of a year belongs to that year, with remainder 0. */
  lemma YearStartBelongsToYear(year: int)
    requires year >= EPOCH_YEAR
    ensures YearAndRemainder(YearStartMs(year)) == YearAndRemainderResult(year, 0)
  {
    DecompositionUnique(YearStartMs(year), year, 0);
  }

  /**
   * The last millisecond of a year, the one just before the next year starts,
   * does not roll over into the next year.
   */
  lemma LastMsStaysInYear(t: int, year: int)
    requires year >= EPOCH_YEAR
    requires t == YearStartMs(year + 1) - 1
    ensures YearAndRemainder(t) == YearAndRemainderResult(year, YearLengthMs(year) - 1)
  {
    YearStartStep(year);
    DecompositionUnique(t, year, YearLengthMs(year) - 1);
  }

  /** A later timestamp never lies in an earlier year. */
  lemma YearMonotone(t1: int, t2: int)
    requires 0 <= t1 <= t2
    ensures Year(t1) <= Year(t2)
  {
    var y1, y2 := Year(t1), Year(t2);
    if y2 < y1 {
      YearStartMonotone(y2, y1);
      assert false;
    }
  }

  /**
   * The decomposition as a loop: subtract the current year's length and move
   * to the next year for as long as a whole year remains.
   */
  method ComputeYearAndRemainder(t: int) returns (year: int, remainder: int)
    requires t >= 0
    ensures YearAndRemainderResult(year, remainder) == YearAndRemainder(t)
  {
    year, remainder := EPOCH_YEAR, t;
    while remainder >= YearLengthMs(year)
      invariant year >= EPOCH_YEAR && remainder >= 0
      invariant YearStartMs(year) + remainder == t
      invariant YearAndRemainderFrom(year, remainder) == YearAndRemainder(t)
      decreases remainder
    {
      remainder := remainder - YearLengthMs(year);
      year := year + 1;
    }
  }

  // ---------------------------------------------------------------------------
  // Fixtures of the test suite
  // ---------------------------------------------------------------------------

  const LAST_SECOND_OF_2017: int := 1514764799000
  const LAST_SECOND_OF_1980: int := 347155199000
  const LAST_SECOND_OF_1996: int := 852076799000
  const START_OF_2018: int := 1514764800000
  const START_OF_1980: int := 315532800000
  const START_OF_1981: int := 347155200000
  const START_OF_2020: int := 1577836800000
  const AFTER_FEB_IN_LEAP_YEAR_1980: int := 326073599000

  /**
   * A timestamp `r` milliseconds past midnight of a year preceded by `days`
   * whole days decomposes into that year and `r`.
   */
  lemma DecomposeAfterDays(t: int, year: int, days: int, r: int)
    requires year >= EPOCH_YEAR && DaysBefore(year) == days
    requires 0 <= r < YearLengthMs(year) && t == DAY_MS * days + r
    ensures YearAndRemainder(t) == YearAndRemainderResult(year, r)
  {
    YearStartClosedForm(year);
    DecompositionUnique(t, year, r);
  }

  lemma EpochZeroIs1970()
    ensures YearAndRemainder(0) == YearAndRemainderResult(1970, 0)
  {
    YearStartBelongsToYear(EPOCH_YEAR);
  }

  // Midnight on January 1 decomposes to that year.

  lemma StartOf2018IsIn2018()
    ensures Year(START_OF_2018) == 2018
  {
    DecomposeAfterDays(START_OF_2018, 2018, 17532, 0);
  }

  lemma StartOf1980IsIn1980()
    ensures Year(START_OF_1980) == 1980
  {
    DecomposeAfterDays(START_OF_1980, 1980, 3652, 0);
  }

  lemma StartOf1981IsIn1981()
    ensures Year(START_OF_1981) == 1981
  {
    DecomposeAfterDays(START_OF_1981, 1981, 4018, 0);
  }

  lemma StartOf2020IsIn2020()
    ensures Year(START_OF_2020) == 2020
  {
    DecomposeAfterDays(START_OF_2020, 2020, 18262, 0);
  }

  // The last second of a year, leap or not, stays in that year.

  lemma LastSecondOf2017IsIn2017()
    ensures Year(LAST_SECOND_OF_2017) == 2017
  {
    DecomposeAfterDays(LAST_SECOND_OF_2017, 2017, 17167, YEAR_MS_NO_LEAP - 1000);
  }

  lemma LastSecondOf1980IsIn1980()
    ensures Year(LAST_SECOND_OF_1980) == 1980
  {
    DecomposeAfterDays(LAST_SECOND_OF_1980, 1980, 3652, YEAR_MS_NO_LEAP + DAY_MS - 1000);
  }

  lemma LastSecondOf1996IsIn1996()
    ensures Year(LAST_SECOND_OF_1996) == 1996
  {
    DecomposeAfterDays(LAST_SECOND_OF_1996, 1996, 9496, YEAR_MS_NO_LEAP + DAY_MS - 1000);
  }

  /**
   * The remainder of the last second of 1996 counts the leap day: it is 366
   * days less one second.
   */
  lemma LastSecondOf1996Remainder()
    ensures YearAndRemainder(LAST_SECOND_OF_1996).remainder == YEAR_MS_NO_LEAP + DAY_MS - 1000
  {
    DecomposeAfterDays(LAST_SECOND_OF_1996, 1996, 9496, YEAR_MS_NO_LEAP + DAY_MS - 1000);
  }

  /** An instant after February 29, 1980 (122 days less one second in) is still in 1980. */
  lemma AfterFebInLeapYearFixture()
    ensures Year(AFTER_FEB_IN_LEAP_YEAR_1980) == 1980
  {
    DecomposeAfterDays(AFTER_FEB_IN_LEAP_YEAR_1980, 1980, 3652, 122 * DAY_MS - 1000);
  }

  /** 45 days into 2018. */
  lemma RemainderFixture2018()
    ensures YearAndRemainder(START_OF_2018 + 3888000000) == YearAndRemainderResult(2018, 3888000000)
  {
    DecomposeAfterDays(START_OF_2018 + 3888000000, 2018, 17532, 3888000000);
  }

  /** 90 days into the leap year 1980. */
  lemma RemainderFixture1980()
    ensures YearAndRemainder(START_OF_1980 + 3888000000 * 2) == YearAndRemainderResult(1980, 3888000000 * 2)
  {
    DecomposeAfterDays(START_OF_1980 + 3888000000 * 2, 1980, 3652, 3888000000 * 2);
  }

  /** 270 days into 1981. */
  lemma RemainderFixture1981()
    ensures YearAndRemainder(START_OF_1981 + 3888000000 * 6) == YearAndRemainderResult(1981, 3888000000 * 6)
  {
    DecomposeAfterDays(START_OF_1981 + 3888000000 * 6, 1981, 4018, 3888000000 * 6);
  }
}
