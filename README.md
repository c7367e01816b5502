# lite-date calendar decomposition in Dafny

This project models the calendar-decomposition core of lite-date. The core
takes a non-negative timestamp: the milliseconds elapsed since
1970-01-01T00:00:00Z. It returns two values:

- the Gregorian year, from `calculateYearFromMs`;
- the year together with the milliseconds elapsed inside that year, from
  `calculateYearAndRemainder`, which gives `{year, remainder}`.

The algorithm subtracts whole years greedily. It starts at 1970 and subtracts
365 or 366 days of 86 400 000 ms each. It consumes a year only while at least
that year's full length remains.

The source of `src/calculate` is not part of this model. The model follows
the assertions and fixture constants in `test/calculate-test.js`, read as the
intended behaviour (see "## Left out"), and the algorithm described above.
Everything lives in one module, `Calculate` (`calculate.dfy`). All of it is pure, with unbounded `int`:

- `IsLeapYear` is the Gregorian rule.
- `YearLengthMs` is the length of one year in milliseconds.
- `YearStartMs(y)` is the sum of the lengths of the years 1970 .. y-1.
- `YearAndRemainderFrom` and `YearAndRemainder` are the greedy decomposition.
- `Year` is the year part of that decomposition.
- `ComputeYearAndRemainder` is the same decomposition written as a `while`
  loop that subtracts one year per iteration. It is proved equal to the
  function.

`DaysBefore` is an independent closed form for the year start: the number of
leap years counted with `n/4 - n/100 + n/400`. `YearStartClosedForm` proves
that it agrees with the recursive sum. The concrete fixtures are evaluated
through this closed form, so no proof has to unfold fifty years of recursion.

Every fixture lemma is proved from `DecompositionUnique`. That lemma says a
year together with an in-range remainder that rebuilds `t` is exactly what the
decomposition returns for `t`.

## Model

| member | source | states |
|---|---|---|
| `Calculate.YearLengthMs` | test/calculate-test.js:22-23 | a year is a whole number of days between `YEAR_MS_NO_LEAP` (365 × `DAY_MS`) and one `DAY_MS` more, so exactly 365 or 366 days, and it is 366 days exactly when it is a Gregorian leap year |
| `Calculate.LeapYearExamples` | test/calculate-test.js:15-21 | under the Gregorian rule of `IsLeapYear`, 1980, 1996 and 2000 (crossed on the way to `startOf2020`) are leap years, while 1981, 2017 and the century year 1900 are not |
| `Calculate.LeapYearsThroughStep` | test/calculate-test.js:15-21 | the leap-year count n/4 − n/100 + n/400 grows by one at n exactly when `IsLeapYear(n)` (divisible by 4, and not by 100 unless by 400) |
| `Calculate.YearStartMs` | test/calculate-test.js:17-20 | the start of a year is a non-negative timestamp, and it is 0 exactly for 1970, the epoch year |
| `Calculate.YearStartMonotone` | test/calculate-test.js:14-20 | a later year starts no earlier than the end of any earlier year, so year spans are ordered |
| `Calculate.YearStartClosedForm` | test/calculate-test.js:17-20 | the start of a year equals `DAY_MS` × (365 per year since 1970 plus one for each leap year in between), so every year start is a midnight |
| `Calculate.YearAndRemainderFrom` | test/calculate-test.js:94-111 | greedy subtraction from a given year never goes back a year, leaves a remainder inside the year it stops at, and preserves year start plus remainder |
| `Calculate.YearAndRemainder` | test/calculate-test.js:26-51 | for every t ≥ 0 the year is ≥ 1970, 0 ≤ remainder < the length of that year, and the start of that year plus the remainder is t |
| `Calculate.Year` | test/calculate-test.js:53-91 | the year of t is ≥ 1970 and is a year whose span [start, start + length) contains t |
| `Calculate.SpansDisjoint` | test/calculate-test.js:69-79 | two years whose spans both contain t are the same year, so no timestamp is in two years |
| `Calculate.DecompositionUnique` | test/calculate-test.js:95-111 | if t = start of y + r with 0 ≤ r < length of y, then the decomposition of t is exactly (y, r) |
| `Calculate.YearStartBelongsToYear` | test/calculate-test.js:54-67 | the first millisecond of a year decomposes to (that year, 0): year boundaries are closed on the left |
| `Calculate.LastMsStaysInYear` | test/calculate-test.js:69-79 | the millisecond before the next year starts decomposes to (that year, its length − 1): it does not roll over |
| `Calculate.YearMonotone` | test/calculate-test.js:53-91 | a later timestamp never has an earlier year |
| `Calculate.ComputeYearAndRemainder` | test/calculate-test.js:94-111 | the subtracting loop returns the same year and remainder as `YearAndRemainder` |
| `Calculate.DecomposeAfterDays` | test/calculate-test.js:95-111 | a timestamp r ms past a year start that is preceded by a known number of whole days decomposes to (that year, r) |
| `Calculate.EpochZeroIs1970` | test/calculate-test.js:87-91 | timestamp 0 decomposes to (1970, 0) |
| `Calculate.StartOf2018IsIn2018` | test/calculate-test.js:59-63 | `startOf2018` (1514764800000) is in 2018 |
| `Calculate.StartOf1980IsIn1980` | test/calculate-test.js:60-64 | `startOf1980` (315532800000) is in 1980 |
| `Calculate.StartOf1981IsIn1981` | test/calculate-test.js:61-65 | `startOf1981` (347155200000) is in 1981 |
| `Calculate.StartOf2020IsIn2020` | test/calculate-test.js:62-66 | `startOf2020` (1577836800000) is in 2020 |
| `Calculate.LastSecondOf2017IsIn2017` | test/calculate-test.js:73-76 | `lastSecondOf2017` (1514764799000) is in 2017 |
| `Calculate.LastSecondOf1980IsIn1980` | test/calculate-test.js:74-77 | `lastSecondOf1980` (347155199000) is in the leap year 1980, not 1981 |
| `Calculate.LastSecondOf1996IsIn1996` | test/calculate-test.js:75-78 | `lastSecondOf1996` (852076799000) is in the leap year 1996, not 1997 |
| `Calculate.LastSecondOf1996Remainder` | test/calculate-test.js:113-121 | the last second of 1996 decomposes with remainder 366 days less one second; this is one day more than the disabled expectation at these lines (see "## Left out") |
| `Calculate.AfterFebInLeapYearFixture` | test/calculate-test.js:81-85 | `afterFebInLeapYear1980` (326073599000) is in 1980, so the leap day is counted inside the year |
| `Calculate.RemainderFixture2018` | test/calculate-test.js:95-99 | `startOf2018` + 3888000000 decomposes to (2018, 3888000000), 45 days in |
| `Calculate.RemainderFixture1980` | test/calculate-test.js:101-105 | `startOf1980` + 7776000000 decomposes to (1980, 7776000000), 90 days into a leap year |
| `Calculate.RemainderFixture1981` | test/calculate-test.js:107-111 | `startOf1981` + 23328000000 decomposes to (1981, 23328000000), 270 days in |

## Left out

- `src/calculate` is not part of this model. Its exact loop, its variable names and its handling of unusual inputs could not be compared. The model follows the behaviour the test suite fixes and the greedy year subtraction described for the library.
- The fixtures of `test-values` (test/calculate-test.js:12, 26-51) are not part of this model, so their concrete epochs cannot be cited. `YearAndRemainder` states the general law that those cases are instances of.
- `caclulateEpochMS` (the inverse constructor) is only imported (test/calculate-test.js:8) and never called. Its behaviour is not fixed anywhere. The round trip is stated as `YearStartMs(year) + remainder == t` inside `YearAndRemainder`.
- `LastSecondOf1996Remainder` disagrees with the disabled test at test/calculate-test.js:113-121. That test expects the remainder of `lastSecondOf1996` to be `YEAR_MS_NO_LEAP - 1000` (365 days less one second), leaving out 1996's leap day. The model gives 366 days less one second. It follows the enabled test at lines 101-105, where 90 days into 1980, past February 29, give the full elapsed milliseconds.
- Only the block at test/calculate-test.js:26-51 runs as the suite is written, because `describe.only` at line 26 makes mocha skip every other block. The model treats the assertions at lines 53-111 as the intended behaviour even though the suite as written does not run them.
- `calculateDayOfYear`, `calculateDayOfWeek`, `calculatePartialYearMS` and `calculateIsLeapYear` are imported by the tests, but no assertion fixes their results. The weekday numbering in particular is never asserted. `IsLeapYear` and `YearStartMs` play the corresponding roles inside the model.
- Negative (pre-epoch) timestamps are excluded by `requires t >= 0`. No test passes one, so whether the library signals an error for them is not fixed.
- The Gregorian century and 400-year rules are included in `IsLeapYear`. The fixtures only exercise years 1970–2020, where the only century year is 2000, and no test asserts those rules on their own.
- JavaScript numbers are doubles. The model uses unbounded integers. Doubles represent every integer up to 2^53 exactly, which covers every fixture and every timestamp up to roughly the year 285 000.
- The mocha/chai harness (`describe`, `describe.only`, `it`, `assert`) is not modelled. Each asserted value is a lemma instead.
