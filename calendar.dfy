/** The proleptic Gregorian calendar as Python's `datetime` counts it:
    day ordinals from 0001-01-01, seconds since the Unix epoch for a naive
    wall-clock reading taken as UTC, and the `strftime` layout the worker
    sends to the monitoring backend. */
module Calendar {
  import opened Text

  datatype DateTime = DateTime(year: int, month: int, day: int, hour: int, minute: int, second: int)

  predicate IsLeap(y: int) { y % 4 == 0 && (y % 100 != 0 || y % 400 == 0) }

  function DaysInYear(y: int): int { if IsLeap(y) then 366 else 365 }

  function DaysInMonth(y: int, m: int): (n: int)
    requires 1 <= m <= 12
    ensures 28 <= n <= 31
  {
    if m == 2 then (if IsLeap(y) then 29 else 28)
    else if m == 4 || m == 6 || m == 9 || m == 11 then 30
    else 31
  }

  /** What the `datetime` constructor accepts (whole seconds). */
  predicate Valid(d: DateTime)
  {
    && 1 <= d.year <= 9999
    && 1 <= d.month <= 12
    && 1 <= d.day <= DaysInMonth(d.year, d.month)
    && 0 <= d.hour < 24 && 0 <= d.minute < 60 && 0 <= d.second < 60
  }

  /** Days in the years before `y`. */
  function DaysBeforeYear(y: int): int
    requires y >= 1
  {
    var p := y - 1;
    p * 365 + p / 4 - p / 100 + p / 400
  }

  /** Days in the months of year `y` before month `m`. */
  function DaysBeforeMonth(y: int, m: int): int
    requires 1 <= m <= 12
  {
    [0, 31, 59, 90, 120, 151, 181, 212, 243, 273, 304, 334][m - 1]
      + (if m > 2 && IsLeap(y) then 1 else 0)
  }

  /** `date.toordinal()`: 0001-01-01 is day 1. */
  function Ordinal(d: DateTime): int
    requires Valid(d)
  {
    DaysBeforeYear(d.year) + DaysBeforeMonth(d.year, d.month) + d.day
  }

  /** The ordinal of 1970-01-01. */
  const EpochOrdinal := 719163

  /** `datetime.timestamp()` of the reading taken as UTC. */
  function Epoch(d: DateTime): int
    requires Valid(d)
  {
    (Ordinal(d) - EpochOrdinal) * 86400 + d.hour * 3600 + d.minute * 60 + d.second
  }

  /** The timestamps of 0001-01-01 00:00:00 and 9999-12-31 23:59:59, the
      ends of `datetime`'s range in whole seconds. */
  const MinEpoch := -62135596800
  const MaxEpoch := 253402300799

  lemma DaysBeforeYearStep(y: int)
    requires y >= 1
    ensures DaysBeforeYear(y + 1) == DaysBeforeYear(y) + DaysInYear(y)
  {
    var p := y - 1;
    StepOver4(p);
    StepOver100(p);
    StepOver400(p);
    MultiplesNest(y);
    assert DaysBeforeYear(y + 1) - DaysBeforeYear(y)
      == 365 + (y / 4 - p / 4) - (y / 100 - p / 100) + (y / 400 - p / 400);
  }

  /** A multiple of 400 is one of 100, and a multiple of 100 one of 4. */
  lemma MultiplesNest(y: int)
    ensures y % 400 == 0 ==> y % 100 == 0
    ensures y % 100 == 0 ==> y % 4 == 0
  {
    if y % 400 == 0 {
      Hundreds(4 * (y / 400));
    }
    if y % 100 == 0 {
      Fours(25 * (y / 100));
    }
  }

  lemma Hundreds(k: int)
    ensures (100 * k) % 100 == 0
  {
  }

  lemma Fours(k: int)
    ensures (4 * k) % 4 == 0
  {
  }

  /** Counting one more year adds a leap-rule multiple exactly when the
      new count is one. */
  lemma StepOver4(p: nat)
    ensures (p + 1) / 4 == p / 4 + (if (p + 1) % 4 == 0 then 1 else 0)
  {
  }

  lemma StepOver100(p: nat)
    ensures (p + 1) / 100 == p / 100 + (if (p + 1) % 100 == 0 then 1 else 0)
  {
  }

  lemma StepOver400(p: nat)
    ensures (p + 1) / 400 == p / 400 + (if (p + 1) % 400 == 0 then 1 else 0)
  {
  }

  lemma {:induction false} DaysBeforeYearBelow(y: int)
    requires 1 <= y <= 10000
    ensures 0 <= DaysBeforeYear(y) <= DaysBeforeYear(10000)
    decreases 10000 - y
  {
    if y < 10000 {
      DaysBeforeYearBelow(y + 1);
      DaysBeforeYearStep(y);
      if y > 1 {
        DaysBeforeYearStep(y - 1);
      }
    }
  }

  lemma DaysBeforeYearNonNegative(y: int)
    requires 1 <= y
    ensures DaysBeforeYear(y) >= 0
  {
  }

  /** Every valid reading lies in `datetime`'s range, and the range ends
      are those of the first and last representable second. */
  lemma EpochInRange(d: DateTime)
    requires Valid(d)
    ensures MinEpoch <= Epoch(d) <= MaxEpoch
  {
    DaysBeforeYearNonNegative(d.year);
    DaysBeforeYearStep(d.year);
    DaysBeforeYearBelow(d.year + 1);
    assert DaysBeforeMonth(d.year, d.month) + DaysInMonth(d.year, d.month) <= DaysInYear(d.year);
  }

  /** Zero-padded two-digit field (`%m`, `%d`, `%H`, `%M`, `%S`). */
  function Pad2(n: nat): (s: string)
    requires n < 100
    ensures |s| == 2 && AllDigits(s) && DigitsValue(s) == n
  {
    var s := [DigitChar(n / 10), DigitChar(n % 10)];
    DigitsSnoc([], s[0]);
    assert [s[0]] == [] + [s[0]];
    DigitsSnoc([s[0]], s[1]);
    assert s == [s[0]] + [s[1]];
    s
  }

  /** Zero-padded four-digit year (`%Y`). */
  function Pad4(n: nat): (s: string)
    requires n < 10000
    ensures |s| == 4 && AllDigits(s) && DigitsValue(s) == n
  {
    var hi := Pad2(n / 100);
    var lo := Pad2(n % 100);
    DigitsAppend2(hi, lo);
    hi + lo
  }

  /** `%Y<sep>%m<sep>%d`, all fields zero-padded. */
  function DatePart(d: DateTime, sep: char): (s: string)
    requires Valid(d)
    ensures |s| == 10
  {
    Pad4(d.year) + [sep] + Pad2(d.month) + [sep] + Pad2(d.day)
  }

  /** `%H:%M:%S`. */
  function ClockPart(d: DateTime): (s: string)
    requires Valid(d)
    ensures |s| == 8
  {
    Pad2(d.hour) + ":" + Pad2(d.minute) + ":" + Pad2(d.second)
  }

  /** `YYYY-MM-DDTHH:MM:SS`, the date-time of section 5.6 of RFC 3339
      without fraction or offset. */
  function IsoPrefix(d: DateTime): (s: string)
    requires Valid(d)
    ensures |s| == 19
  {
    DatePart(d, '-') + "T" + ClockPart(d)
  }

  /** `d.strftime('%Y-%m-%dT%H:%M:%S.000Z')`, the form in which the worker
      hands its window ends to the backend. */
  function IsoText(d: DateTime): (s: string)
    requires Valid(d)
    ensures |s| == 24
  {
    IsoPrefix(d) + ".000Z"
  }

  /** The layout `%Y/%m/%d %H:%M:%S` that `strptime` reads back. */
  function WallText(d: DateTime): (s: string)
    requires Valid(d)
    ensures |s| == 19
  {
    DatePart(d, '/') + " " + ClockPart(d)
  }
}
