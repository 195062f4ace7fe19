/**
 * TimeValueCalculator: Unix timestamps of a TimeValue, and the lowest and
 * highest timestamps its precision and before/after uncertainty allow.
 * Source: src/DataValues/TimeValueCalculator.php. PHP computes these as floats;
 * here they are exact integers.
 */
module TimeValueCalculator {
  import opened Results
  import opened Text
  import opened TimeValues
  import opened MkTimeUtc

  const SECONDS_PER_GREGORIAN_YEAR := 31556952
  const TIMESTAMP_ZERO: string := "+0000000000000000-01-01T00:00:00Z"
  const HIGHEST_TIMESTAMP: string := "+9999999999999999-12-31T23:59:59Z"
  const MAX_LENGTH_TIMESTAMP := 33

  // ----------------------------------------------------------------------
  // Leap years

  /** There is no year 0: the calculator moves negative years up by one, so -1 (1 BCE) counts as year 0. */
  function ShiftYear(y: int): int {
    if y < 0 then y + 1 else y
  }

  predicate IsLeapYear(y: int) {
    IsGregorianLeap(ShiftYear(y))
  }

  /** Leap days between 31 December of year 1 and 31 December of year y. */
  function NumberOfLeapYears(y: int): int {
    var s := ShiftYear(y);
    s / 4 - s / 100 + s / 400
  }

  /** The closed-form count of leap years up to s, on ordinary year numbers. */
  function LeapsThrough(s: int): int {
    s / 4 - s / 100 + s / 400
  }

  lemma LeapsThroughStep(s: int)
    ensures LeapsThrough(s) - LeapsThrough(s - 1) == if IsGregorianLeap(s) then 1 else 0
  {
    DivStep(s, 4);
    DivStep(s, 100);
    DivStep(s, 400);
    if s % 400 == 0 {
      assert s % 100 == 0 && s % 4 == 0 by {
        assert s == 400 * (s / 400);
        assert s == 100 * (4 * (s / 400));
        assert s == 4 * (100 * (s / 400));
      }
    } else if s % 100 == 0 {
      assert s % 4 == 0 by {
        assert s == 100 * (s / 100);
        assert s == 4 * (25 * (s / 100));
      }
    }
  }

  /** Floor division by k steps up by one exactly at the multiples of k. */
  lemma DivStep(s: int, k: int)
    requires k > 0
    ensures s / k - (s - 1) / k == if s % k == 0 then 1 else 0
  {
    var q, r := (s - 1) / k, (s - 1) % k;
    assert s - 1 == k * q + r && 0 <= r < k;
    if r == k - 1 {
      assert s == k * (q + 1) + 0;
      DivModUnique(s, k, q + 1, 0);
    } else {
      assert s == k * q + (r + 1);
      DivModUnique(s, k, q, r + 1);
    }
  }

  lemma DivModUnique(x: int, k: int, q: int, r: int)
    requires k > 0 && x == k * q + r && 0 <= r < k
    ensures x / k == q && x % k == r
  {
    var q', r' := x / k, x % k;
    assert x == k * q' + r' && 0 <= r' < k;
    assert k * (q - q') == r' - r;
    MulSmall(k, q - q');
  }

  /** A multiple of k strictly between -k and k is zero. */
  lemma MulSmall(k: int, d: int)
    requires k > 0 && -k < k * d < k
    ensures d == 0
  {
  }

  /** From one year to the next, the count grows exactly when the later year is a leap year. */
  lemma NumberOfLeapYearsStep(y: int)
    requires y != 0
    ensures NumberOfLeapYears(y) - NumberOfLeapYears(y - 1) == if IsLeapYear(y) then 1 else 0
  {
    LeapsThroughStep(ShiftYear(y));
  }

  /** A reference count of leap years, one year at a time away from years -1 and 0 (which both count as 0). */
  function LeapYearsCounted(y: int): int
    decreases if y >= 0 then y else -y
  {
    if y == 0 || y == -1 then 0
    else if y > 0 then LeapYearsCounted(y - 1) + (if IsLeapYear(y) then 1 else 0)
    else LeapYearsCounted(y + 1) - (if IsLeapYear(y + 1) then 1 else 0)
  }

  lemma {:induction false} NumberOfLeapYearsCounts(y: int)
    ensures NumberOfLeapYears(y) == LeapYearsCounted(y)
    decreases if y >= 0 then y else -y
  {
    if y == 0 || y == -1 {
    } else if y > 0 {
      NumberOfLeapYearsCounts(y - 1);
      NumberOfLeapYearsStep(y);
    } else {
      NumberOfLeapYearsCounts(y + 1);
      NumberOfLeapYearsStep(y + 1);
    }
  }

  /** The leap years and counts the calculator's tests list. */
  lemma LeapYearExamples()
    ensures !IsLeapYear(1895) && NumberOfLeapYears(1895) == 459
    ensures IsLeapYear(1896) && NumberOfLeapYears(1896) == 460
    ensures !IsLeapYear(1900) && NumberOfLeapYears(1900) == 460
    ensures IsLeapYear(2000) && NumberOfLeapYears(2000) == 485
    ensures !IsLeapYear(2100) && NumberOfLeapYears(2100) == 509
    ensures NumberOfLeapYears(1) == 0 && NumberOfLeapYears(9999) == 2424
    ensures NumberOfLeapYears(2147483647) == 520764784
  {
  }

  /** The calculator's test cases around year zero and before it. */
  lemma NegativeLeapYearExamples()
    ensures IsLeapYear(-1) && NumberOfLeapYears(-1) == 0
    ensures IsLeapYear(0) && NumberOfLeapYears(0) == 0
    ensures !IsLeapYear(-6) && NumberOfLeapYears(-6) == -2
    ensures IsLeapYear(-5) && NumberOfLeapYears(-5) == -1
    ensures !IsLeapYear(-4) && NumberOfLeapYears(-4) == -1
    ensures IsLeapYear(4) && NumberOfLeapYears(4) == 1
  {
  }

  // ----------------------------------------------------------------------
  // Precision

  /** Seconds in one unit of the precision; an unknown precision above SECOND is an error. */
  function SecondsForPrecision(p: int): (r: Option<nat>)
    ensures r.Some? <==> p <= PRECISION_SECOND
    ensures r.Some? ==> r.value >= 1
  {
    if p <= PRECISION_YEAR then Some(SECONDS_PER_GREGORIAN_YEAR * Pow10(PRECISION_YEAR - p))
    else if p == PRECISION_SECOND then Some(1)
    else if p == PRECISION_MINUTE then Some(60)
    else if p == PRECISION_HOUR then Some(3600)
    else if p == PRECISION_DAY then Some(86400)
    else if p == PRECISION_MONTH then Some(SECONDS_PER_GREGORIAN_YEAR / 12)
    else None
  }

  /** Each coarser precision spans more seconds; above a year, ten times as many per step. */
  lemma SecondsForPrecisionScale(p: int)
    requires p < PRECISION_SECOND
    ensures SecondsForPrecision(p).value > SecondsForPrecision(p + 1).value
    ensures p < PRECISION_YEAR ==> SecondsForPrecision(p).value == 10 * SecondsForPrecision(p + 1).value
    ensures SecondsForPrecision(PRECISION_MONTH).value * 12 == SECONDS_PER_GREGORIAN_YEAR
    ensures SECONDS_PER_GREGORIAN_YEAR * 400 == SECONDS_PER_DAY * (365 * 400 + 97)
  {
  }

  /** How many trailing characters of a 33-character timestamp lie below the precision. */
  function CharsAffectedByPrecision(p: int): (n: nat)
    ensures 1 <= n <= 25
  {
    if p == PRECISION_MINUTE then 3
    else if p == PRECISION_HOUR then 6
    else if p == PRECISION_DAY then 9
    else if p == PRECISION_MONTH then 12
    else if p == PRECISION_YEAR then 15
    else if p == PRECISION_YEAR10 then 17
    else if p == PRECISION_YEAR100 then 18
    else if p == PRECISION_YEAR1K then 19
    else if p == PRECISION_YEAR10K then 20
    else if p == PRECISION_YEAR100K then 21
    else if p == PRECISION_YEAR1M then 22
    else if p == PRECISION_YEAR10M then 23
    else if p == PRECISION_YEAR100M then 24
    else if p == PRECISION_YEAR1G then 25
    else 1
  }

  /**
   * The first character a precision leaves unknown in a 33-character
   * timestamp: below year precision, year digit 8 + p; otherwise the first
   * character of the month, day, hour, minute or second field, or the final Z.
   */
  function Cut(p: int): (c: nat)
    requires PRECISION_YEAR1G <= p <= PRECISION_SECOND
    ensures 8 <= c <= 32
  {
    if p < PRECISION_YEAR then 8 + p
    else [18, 21, 24, 27, 30, 32][p - PRECISION_YEAR]
  }

  lemma CharsAffectedCut(p: int)
    requires PRECISION_YEAR1G <= p <= PRECISION_SECOND
    ensures MAX_LENGTH_TIMESTAMP - CharsAffectedByPrecision(p) == Cut(p)
    ensures p < PRECISION_SECOND ==> CharsAffectedByPrecision(p) > CharsAffectedByPrecision(p + 1)
  {
  }

  // ----------------------------------------------------------------------
  // Days and seconds since the epoch

  /** Days from 1970-01-01 to 1 January of ordinary (astronomical) year s, for any s. */
  function DaysBeforeYear(s: int): int {
    (s - 1970) * 365 + LeapsThrough(s - 1) - LeapsThrough(1969)
  }

  lemma DaysBeforeYearStep(s: int)
    ensures DaysBeforeYear(s + 1) == DaysBeforeYear(s) + YearLength(s)
  {
    LeapsThroughStep(s);
  }

  /** From 1970 on the closed form agrees with mktime's year-by-year count. */
  lemma {:induction false} DaysBeforeYearFromEpoch(y: int)
    requires y >= 1970
    ensures DaysBeforeYear(y) == DaysFromEpoch(y)
    decreases y
  {
    if y > 1970 {
      DaysBeforeYearFromEpoch(y - 1);
      DaysBeforeYearStep(y - 1);
    }
  }

  lemma {:induction false} DaysBeforeYearMonotone(s: int, s': int)
    requires s <= s'
    ensures DaysBeforeYear(s) + 365 * (s' - s) <= DaysBeforeYear(s')
    decreases s' - s
  {
    if s < s' {
      DaysBeforeYearMonotone(s + 1, s');
      DaysBeforeYearStep(s);
    }
  }

  /** The signed year as PHP reads the numeric string: "-0000" reads as 0. */
  function FullYear(st: Stamp): int
    requires WellFormed(st)
  {
    var y: int := Value(st.year);
    if st.sign == '-' then -y else y
  }

  /** `max(1, n)`: month and day 0 stand for the start of the year or month. */
  function Max1(n: int): int {
    if n < 1 then 1 else n
  }

  /** Seconds from the start of its year to a stamp, for a year of the given kind. */
  function SecondsIntoYear(st: Stamp, leap: bool): (n: int)
    requires WellFormed(st) && Value(st.month) <= 12
    ensures n >= 0
  {
    (DaysBeforeMonth(Max1(Value(st.month)), leap) + Max1(Value(st.day)) - 1) * SECONDS_PER_DAY
      + Value(st.hour) * 3600 + Value(st.minute) * 60 + Value(st.second)
  }

  /** The ordinary year number a stamp falls in. */
  function AstronomicalYear(st: Stamp): int
    requires WellFormed(st)
  {
    ShiftYear(FullYear(st))
  }

  /**
   * getSecondsSinceUnixEpoch on the fields of a timestamp: mktime for the
   * month, day and time within 1970 (or 1972 for a leap year), plus the days of
   * the missing years and leap days, minus the timezone offset in minutes.
   */
  function SecondsSinceUnixEpoch(st: Stamp, timezone: int): (t: int)
    requires WellFormed(st) && Value(st.month) <= 12
    ensures var s := AstronomicalYear(st);
      t == DaysBeforeYear(s) * SECONDS_PER_DAY + SecondsIntoYear(st, IsGregorianLeap(s)) - timezone * 60
  {
    var fullYear := FullYear(st);
    var year := if IsLeapYear(fullYear) then 1972 else 1970;
    var timestamp := MkTime(Value(st.hour), Value(st.minute), Value(st.second),
                            Max1(Value(st.month)), Max1(Value(st.day)), year);
    var missingYears := ShiftYear(fullYear) - year;
    var missingLeapDays := NumberOfLeapYears(fullYear) - NumberOfLeapYears(year);
    ReferenceYear(fullYear, Max1(Value(st.month)), Max1(Value(st.day)));
    timestamp + (missingYears * 365 + missingLeapDays) * SECONDS_PER_DAY - timezone * 60
  }

  /** Counting from 1970 or 1972, whichever matches the year's kind, lands on the same day count. */
  lemma ReferenceYear(fullYear: int, month: int, day: int)
    requires 1 <= month <= 12
    ensures var year := if IsLeapYear(fullYear) then 1972 else 1970;
      var s := ShiftYear(fullYear);
      && IsGregorianLeap(year) == IsGregorianLeap(s)
      && DaysFromEpoch(year) + DaysBeforeMonth(month, IsGregorianLeap(year)) + day - 1
         + (s - year) * 365 + NumberOfLeapYears(fullYear) - NumberOfLeapYears(year)
         == DaysBeforeYear(s) + DaysBeforeMonth(month, IsGregorianLeap(s)) + day - 1
  {
    var s := ShiftYear(fullYear);
    LeapsThroughStep(s);
    assert DaysFromEpoch(1972) == 730;
    assert NumberOfLeapYears(1970) == 477 && NumberOfLeapYears(1972) == 478;
  }

  /** Padding the year with zeros does not move the timestamp. */
  lemma EpochPadded(st: Stamp, timezone: int)
    requires WellFormed(st) && Value(st.month) <= 12
    ensures var st' := st.(year := PadLeft(st.year, 16, '0'));
      WellFormed(st') && SecondsSinceUnixEpoch(st', timezone) == SecondsSinceUnixEpoch(st, timezone)
  {
    var y' := PadLeft(st.year, 16, '0');
    ValueLeadingZeros(16 - |st.year|, st.year);
  }

  lemma DigitPairValue(s: string)
    requires IsTwoDigits(s)
    ensures Value(s) == 10 * DigitValue(s[0]) + DigitValue(s[1])
  {
    LastDigit(s);
    LastDigit(s[..1]);
    assert s[..1][..0] == [];
  }

  /** One step of the decimal value: all digits but the last, times ten, plus the last. */
  lemma LastDigit(s: string)
    requires IsDigits(s) && |s| >= 1
    ensures Value(s) == 10 * Value(s[..|s| - 1]) + DigitValue(s[|s| - 1])
  {
  }

  /** The field values of a stamp with a four-digit year, digit by digit. */
  lemma ShortStampValues(st: Stamp)
    requires WellFormed(st) && |st.year| == 4
    ensures Value(st.year) == 1000 * DigitValue(st.year[0]) + 100 * DigitValue(st.year[1])
                              + 10 * DigitValue(st.year[2]) + DigitValue(st.year[3])
    ensures Value(st.month) == 10 * DigitValue(st.month[0]) + DigitValue(st.month[1])
    ensures Value(st.day) == 10 * DigitValue(st.day[0]) + DigitValue(st.day[1])
    ensures Value(st.hour) == 10 * DigitValue(st.hour[0]) + DigitValue(st.hour[1])
    ensures Value(st.minute) == 10 * DigitValue(st.minute[0]) + DigitValue(st.minute[1])
    ensures Value(st.second) == 10 * DigitValue(st.second[0]) + DigitValue(st.second[1])
  {
    DigitPairValue(st.month);
    DigitPairValue(st.day);
    DigitPairValue(st.hour);
    DigitPairValue(st.minute);
    DigitPairValue(st.second);
    var y := st.year;
    LastDigit(y);
    LastDigit(y[..3]);
    assert y[..3][..2] == y[..2];
    DigitPairValue(y[..2]);
  }

  /** The Unix epoch itself is 0. */
  lemma EpochAtUnixEpoch()
    ensures SecondsSinceUnixEpoch(Stamp('+', "1970", "01", "01", "00", "00", "00"), 0) == 0
  {
    var st := Stamp('+', "1970", "01", "01", "00", "00", "00");
    assert WellFormed(st);
    ShortStampValues(st);
    assert AstronomicalYear(st) == 1970;
    assert DaysBeforeYear(1970) == 0;
    assert SecondsIntoYear(st, false) == 0;
  }

  /** The last second of 1969 is -1. */
  lemma EpochBeforeUnixEpoch()
    ensures SecondsSinceUnixEpoch(Stamp('+', "1969", "12", "31", "23", "59", "59"), 0) == -1
  {
    var st := Stamp('+', "1969", "12", "31", "23", "59", "59");
    assert WellFormed(st);
    ShortStampValues(st);
    assert AstronomicalYear(st) == 1969;
    assert DaysBeforeYear(1969) == -365;
    assert SecondsIntoYear(st, false) == 31535999;
  }

  /** 2000 is a leap year: 29 February exists. */
  lemma EpochLeapDay2000()
    ensures SecondsSinceUnixEpoch(Stamp('+', "2000", "02", "29", "00", "00", "00"), 0) == 951782400
  {
    var st := Stamp('+', "2000", "02", "29", "00", "00", "00");
    assert WellFormed(st);
    ShortStampValues(st);
    assert AstronomicalYear(st) == 2000;
    assert DaysBeforeYear(2000) == 10957;
    assert SecondsIntoYear(st, true) == 5097600;
  }

  /** An ordinary date and time agrees with the Unix timestamp. */
  lemma EpochOrdinaryDate()
    ensures SecondsSinceUnixEpoch(Stamp('+', "2014", "04", "30", "12", "35", "55"), 0) == 1398861355
  {
    var st := Stamp('+', "2014", "04", "30", "12", "35", "55");
    assert WellFormed(st);
    ShortStampValues(st);
    assert AstronomicalYear(st) == 2014;
    assert DaysBeforeYear(2014) == 16071;
    assert SecondsIntoYear(st, false) == 10326955;
  }

  /** Month and day 0 read as 1 January. */
  lemma EpochMonthDayZero()
    ensures SecondsSinceUnixEpoch(Stamp('+', "2038", "00", "00", "00", "00", "00"), 0) == 2145916800
  {
    var st := Stamp('+', "2038", "00", "00", "00", "00", "00");
    assert WellFormed(st);
    ShortStampValues(st);
    assert AstronomicalYear(st) == 2038;
    assert DaysBeforeYear(2038) == 24837;
    assert SecondsIntoYear(st, false) == 0;
  }

  /** A year of the fifth century. */
  lemma EpochEarlyYear()
    ensures SecondsSinceUnixEpoch(Stamp('+', "0401", "00", "00", "00", "00", "00"), 0) == -49512816000
  {
    var st := Stamp('+', "0401", "00", "00", "00", "00", "00");
    assert WellFormed(st);
    ShortStampValues(st);
    assert AstronomicalYear(st) == 401;
    assert DaysBeforeYear(401) == -573065;
    assert SecondsIntoYear(st, false) == 0;
  }

  /** A timezone of -120 minutes adds two hours. */
  lemma EpochTimezone()
    ensures SecondsSinceUnixEpoch(Stamp('+', "2000", "01", "01", "12", "59", "59"), -120) == 946738799
  {
    var st := Stamp('+', "2000", "01", "01", "12", "59", "59");
    assert WellFormed(st);
    ShortStampValues(st);
    assert AstronomicalYear(st) == 2000;
    assert DaysBeforeYear(2000) == 10957;
    assert SecondsIntoYear(st, true) == 46799;
  }

  /** The last second of 1 BCE. */
  lemma EpochLastSecondBce()
    ensures SecondsSinceUnixEpoch(Stamp('-', "0001", "12", "31", "23", "59", "59"), 0) == -62135596801
  {
    var st := Stamp('-', "0001", "12", "31", "23", "59", "59");
    assert WellFormed(st);
    ShortStampValues(st);
    assert AstronomicalYear(st) == 0;
    assert DaysBeforeYear(0) == -719528;
    assert SecondsIntoYear(st, true) == 31622399;
  }

  /** The first second of 1 CE, one second after the last of 1 BCE. */
  lemma EpochFirstSecondCe()
    ensures SecondsSinceUnixEpoch(Stamp('+', "0001", "00", "00", "00", "00", "00"), 0) == -62135596800
  {
    var st := Stamp('+', "0001", "00", "00", "00", "00", "00");
    assert WellFormed(st);
    ShortStampValues(st);
    assert AstronomicalYear(st) == 1;
    assert DaysBeforeYear(1) == -719162;
    assert SecondsIntoYear(st, false) == 0;
  }

  /** "-0000" reads as 1 BCE. */
  lemma EpochMinusZeroYear()
    ensures SecondsSinceUnixEpoch(Stamp('-', "0000", "12", "31", "23", "59", "59"), 0) == -62135596801
  {
    var st := Stamp('-', "0000", "12", "31", "23", "59", "59");
    assert WellFormed(st);
    ShortStampValues(st);
    assert AstronomicalYear(st) == 0;
    assert DaysBeforeYear(0) == -719528;
    assert SecondsIntoYear(st, true) == 31622399;
  }

  /** Second 61 rolls over into the next minute, with no special treatment. */
  lemma EpochLeapSecond()
    ensures SecondsSinceUnixEpoch(Stamp('+', "1970", "10", "11", "12", "13", "61"), 0) == 24495241
  {
    var st := Stamp('+', "1970", "10", "11", "12", "13", "61");
    assert WellFormed(st);
    ShortStampValues(st);
    assert AstronomicalYear(st) == 1970;
    assert DaysBeforeYear(1970) == 0;
    assert SecondsIntoYear(st, false) == 24495241;
  }

  /** The second that second 61 rolls over to. */
  lemma EpochAfterLeapSecond()
    ensures SecondsSinceUnixEpoch(Stamp('+', "1970", "10", "11", "12", "14", "01"), 0) == 24495241
  {
    var st := Stamp('+', "1970", "10", "11", "12", "14", "01");
    assert WellFormed(st);
    ShortStampValues(st);
    assert AstronomicalYear(st) == 1970;
    assert DaysBeforeYear(1970) == 0;
    assert SecondsIntoYear(st, false) == 24495241;
  }

  // ----------------------------------------------------------------------
  // Rounding a timestamp to its precision

  /** The bounds whose trailing characters timestampAbsFloor and timestampAbsCeiling copy. */
  const ZERO_STAMP := Stamp('+', Repeat('0', 16), "01", "01", "00", "00", "00")
  const HIGHEST_STAMP := Stamp('+', Repeat('9', 16), "12", "31", "23", "59", "59")

  lemma BoundStamps()
    ensures WellFormed(ZERO_STAMP) && Format(ZERO_STAMP) == TIMESTAMP_ZERO
    ensures WellFormed(HIGHEST_STAMP) && Format(HIGHEST_STAMP) == HIGHEST_TIMESTAMP
  {
    assert Format(ZERO_STAMP) == TIMESTAMP_ZERO;
    assert Format(HIGHEST_STAMP) == HIGHEST_TIMESTAMP;
  }

  /** The second field is at most 59: not a leap second. */
  predicate NoLeapSecond(st: Stamp)
    requires WellFormed(st)
  {
    Value(st.second) <= 59
  }

  /** A stamp with its year padded to 16 digits. */
  function Pad16(st: Stamp): (r: Stamp)
    requires WellFormed(st)
    ensures WellFormed(r) && |r.year| == 16 && Value(r.year) == Value(st.year)
    ensures r == st.(year := r.year)
  {
    ValueLeadingZeros(16 - |st.year|, st.year);
    st.(year := PadLeft(st.year, 16, '0'))
  }

  /** Zeros inserted after the sign until the timestamp has the full 33 characters (a 16-digit year). */
  function PadYear(ts: string): (r: string)
    requires 1 <= |ts| <= MAX_LENGTH_TIMESTAMP
    ensures |r| == MAX_LENGTH_TIMESTAMP
  {
    [ts[0]] + Repeat('0', MAX_LENGTH_TIMESTAMP - |ts|) + ts[1..]
  }

  lemma PadYearFormat(st: Stamp)
    requires WellFormed(st)
    ensures PadYear(Format(st)) == Format(Pad16(st))
  {
    var z := Repeat('0', 16 - |st.year|);
    PadYearOf(st.sign, st.year, Tail(st));
    assert Format(Pad16(st)) == [st.sign] + (z + st.year) + Tail(st);
  }

  /** Padding a sign, a year and a tail puts the zeros between the sign and the year. */
  lemma PadYearOf(a: char, y: string, u: string)
    requires 1 + |y| + |u| <= MAX_LENGTH_TIMESTAMP
    ensures PadYear([a] + y + u) == [a] + (Repeat('0', MAX_LENGTH_TIMESTAMP - 1 - |y| - |u|) + y) + u
  {
    var f := [a] + y + u;
    assert f[0] == a;
    assert f[1..] == y + u;
  }

  /**
   * The stamp with every field below precision p taken from a bound: below
   * year precision the trailing 9 - p year digits come from yearBound, and
   * the month, day and time fields below p come from bound.
   */
  function Round(st: Stamp, yearBound: Stamp, bound: Stamp, p: int): (r: Stamp)
    requires WellFormed(st) && WellFormed(yearBound) && WellFormed(bound)
    requires |st.year| == 16 && |yearBound.year| == 16
    requires PRECISION_YEAR1G <= p <= PRECISION_SECOND
    ensures WellFormed(r) && |r.year| == 16 && r.sign == st.sign
  {
    Stamp(st.sign,
          if p < PRECISION_YEAR then st.year[..7 + p] + yearBound.year[7 + p..] else st.year,
          if p < PRECISION_MONTH then bound.month else st.month,
          if p < PRECISION_DAY then bound.day else st.day,
          if p < PRECISION_HOUR then bound.hour else st.hour,
          if p < PRECISION_MINUTE then bound.minute else st.minute,
          if p < PRECISION_SECOND then bound.second else st.second)
  }

  /** Character i of a formatted stamp with a 16-digit year. */
  lemma FormatAt(st: Stamp, i: int)
    requires WellFormed(st) && |st.year| == 16 && 0 <= i < MAX_LENGTH_TIMESTAMP
    ensures Format(st)[i] == if i == 0 then st.sign else if i <= 16 then st.year[i - 1] else Tail(st)[i - 17]
  {
  }

  /** Every character of a rounded stamp comes from the stamp before the cut and from the bound after it. */
  lemma RoundAt(st: Stamp, b: Stamp, p: int, i: int)
    requires WellFormed(st) && WellFormed(b) && |st.year| == 16 && |b.year| == 16
    requires PRECISION_YEAR1G <= p <= PRECISION_SECOND && 0 <= i < MAX_LENGTH_TIMESTAMP
    ensures Format(Round(st, b, b, p))[i] == if i < Cut(p) then Format(st)[i] else Format(b)[i]
  {
    var r := Round(st, b, b, p);
    FormatAt(r, i);
    FormatAt(st, i);
    FormatAt(b, i);
    if 1 <= i <= 16 && p < PRECISION_YEAR {
      if i - 1 < 7 + p {
        assert r.year[i - 1] == st.year[i - 1];
      } else {
        assert r.year[i - 1] == b.year[i - 1];
      }
    } else if i > 16 {
      RoundTailAt(st, b, p, i - 17);
    }
  }

  /** The fixed-width tail of a rounded stamp, character by character. */
  lemma RoundTailAt(st: Stamp, b: Stamp, p: int, j: int)
    requires WellFormed(st) && WellFormed(b) && |st.year| == 16 && |b.year| == 16
    requires PRECISION_YEAR1G <= p <= PRECISION_SECOND && 0 <= j < 16
    ensures Tail(Round(st, b, b, p))[j] == if j + 17 < Cut(p) then Tail(st)[j] else Tail(b)[j]
  {
  }

  /**
   * timestampAbsFloor: pad the year to 16 digits, then replace the characters
   * the precision leaves unknown by those of the lowest timestamp.
   */
  function AbsFloor(ts: string, p: int): (r: string)
    requires 1 <= |ts| <= MAX_LENGTH_TIMESTAMP
    ensures |r| == MAX_LENGTH_TIMESTAMP
  {
    var padded := PadYear(ts);
    var n := CharsAffectedByPrecision(p);
    padded[..MAX_LENGTH_TIMESTAMP - n] + TIMESTAMP_ZERO[MAX_LENGTH_TIMESTAMP - n..]
  }

  /** timestampAbsCeiling: the same, from the highest timestamp. */
  function AbsCeiling(ts: string, p: int): (r: string)
    requires 1 <= |ts| <= MAX_LENGTH_TIMESTAMP
    ensures |r| == MAX_LENGTH_TIMESTAMP
  {
    var padded := PadYear(ts);
    var n := CharsAffectedByPrecision(p);
    padded[..MAX_LENGTH_TIMESTAMP - n] + HIGHEST_TIMESTAMP[MAX_LENGTH_TIMESTAMP - n..]
  }

  /** On a well-formed timestamp, flooring keeps the fields the precision knows and zeroes the rest. */
  lemma AbsFloorFields(st: Stamp, p: int)
    requires WellFormed(st) && PRECISION_YEAR1G <= p <= PRECISION_SECOND
    ensures AbsFloor(Format(st), p) == Format(Round(Pad16(st), ZERO_STAMP, ZERO_STAMP, p))
  {
    BoundStamps();
    CharsAffectedCut(p);
    PadYearFormat(st);
    var a := AbsFloor(Format(st), p);
    var b := Format(Round(Pad16(st), ZERO_STAMP, ZERO_STAMP, p));
    forall i | 0 <= i < MAX_LENGTH_TIMESTAMP ensures a[i] == b[i] {
      RoundAt(Pad16(st), ZERO_STAMP, p, i);
    }
  }

  /** On a well-formed timestamp, the ceiling keeps the fields the precision knows and maximises the rest. */
  lemma AbsCeilingFields(st: Stamp, p: int)
    requires WellFormed(st) && PRECISION_YEAR1G <= p <= PRECISION_SECOND
    ensures AbsCeiling(Format(st), p) == Format(Round(Pad16(st), HIGHEST_STAMP, HIGHEST_STAMP, p))
  {
    BoundStamps();
    CharsAffectedCut(p);
    PadYearFormat(st);
    var a := AbsCeiling(Format(st), p);
    var b := Format(Round(Pad16(st), HIGHEST_STAMP, HIGHEST_STAMP, p));
    forall i | 0 <= i < MAX_LENGTH_TIMESTAMP ensures a[i] == b[i] {
      RoundAt(Pad16(st), HIGHEST_STAMP, p, i);
    }
  }

  // ----------------------------------------------------------------------
  // Where rounded stamps fall

  lemma BoundValues()
    ensures WellFormed(ZERO_STAMP) && WellFormed(HIGHEST_STAMP)
    ensures Value(ZERO_STAMP.month) == 1 && Value(ZERO_STAMP.day) == 1
    ensures Value(ZERO_STAMP.hour) == 0 && Value(ZERO_STAMP.minute) == 0 && Value(ZERO_STAMP.second) == 0
    ensures Value(HIGHEST_STAMP.month) == 12 && Value(HIGHEST_STAMP.day) == 31
    ensures Value(HIGHEST_STAMP.hour) == 23 && Value(HIGHEST_STAMP.minute) == 59
    ensures Value(HIGHEST_STAMP.second) == 59
  {
    DigitPairValue(ZERO_STAMP.month);
    DigitPairValue(ZERO_STAMP.day);
    DigitPairValue(ZERO_STAMP.hour);
    DigitPairValue(ZERO_STAMP.minute);
    DigitPairValue(ZERO_STAMP.second);
    DigitPairValue(HIGHEST_STAMP.month);
    DigitPairValue(HIGHEST_STAMP.day);
    DigitPairValue(HIGHEST_STAMP.hour);
    DigitPairValue(HIGHEST_STAMP.minute);
    DigitPairValue(HIGHEST_STAMP.second);
  }

  /** The month, day and time of st are those of bound. */
  predicate TailOf(st: Stamp, bound: Stamp) {
    st.month == bound.month && st.day == bound.day && st.hour == bound.hour
    && st.minute == bound.minute && st.second == bound.second
  }

  lemma StartOfYearEpoch(a: Stamp, timezone: int)
    requires WellFormed(a) && TailOf(a, ZERO_STAMP)
    ensures Value(a.month) <= 12
    ensures SecondsSinceUnixEpoch(a, timezone) == DaysBeforeYear(AstronomicalYear(a)) * SECONDS_PER_DAY - timezone * 60
  {
    BoundValues();
  }

  lemma EndOfYearEpoch(a: Stamp, timezone: int)
    requires WellFormed(a) && TailOf(a, HIGHEST_STAMP)
    ensures Value(a.month) <= 12
    ensures SecondsSinceUnixEpoch(a, timezone)
            == DaysBeforeYear(AstronomicalYear(a) + 1) * SECONDS_PER_DAY - 1 - timezone * 60
  {
    BoundValues();
    var leap := IsGregorianLeap(AstronomicalYear(a));
    DaysBeforeMonthSteps(leap);
    DaysBeforeYearStep(AstronomicalYear(a));
  }

  /** A stamp with its month in range is no earlier than the start of its year. */
  lemma AfterStartOfYear(b: Stamp, timezone: int)
    requires WellFormed(b) && Value(b.month) <= 12
    ensures DaysBeforeYear(AstronomicalYear(b)) * SECONDS_PER_DAY - timezone * 60
            <= SecondsSinceUnixEpoch(b, timezone)
  {
  }

  /** A stamp with its fields in range starts no earlier than its year and, without a leap second, ends within it. */
  lemma InItsYear(b: Stamp, timezone: int)
    requires WellFormed(b) && InRange(b)
    ensures DaysBeforeYear(AstronomicalYear(b)) * SECONDS_PER_DAY - timezone * 60
            <= SecondsSinceUnixEpoch(b, timezone)
    ensures Value(b.second) <= 59 ==>
            SecondsSinceUnixEpoch(b, timezone)
            <= DaysBeforeYear(AstronomicalYear(b) + 1) * SECONDS_PER_DAY - 1 - timezone * 60
  {
    AfterStartOfYear(b, timezone);
    if Value(b.second) <= 59 {
      WithinYear(b, timezone);
    }
  }

  /** A stamp with its fields in range, and no leap second, lies within its own year. */
  lemma WithinYear(b: Stamp, timezone: int)
    requires WellFormed(b) && InRange(b) && Value(b.second) <= 59
    ensures DaysBeforeYear(AstronomicalYear(b)) * SECONDS_PER_DAY - timezone * 60
            <= SecondsSinceUnixEpoch(b, timezone)
            <= DaysBeforeYear(AstronomicalYear(b) + 1) * SECONDS_PER_DAY - 1 - timezone * 60
  {
    var leap := IsGregorianLeap(AstronomicalYear(b));
    DaysBeforeMonthSteps(leap);
    DaysBeforeMonthMonotone(Max1(Value(b.month)), 12, leap);
    DaysBeforeYearStep(AstronomicalYear(b));
  }

  /** Within one year, a stamp no later in any field is no later overall. */
  lemma SameYearFieldwise(a: Stamp, b: Stamp, timezone: int)
    requires WellFormed(a) && WellFormed(b) && Value(a.month) <= 12 && Value(b.month) <= 12
    requires AstronomicalYear(a) == AstronomicalYear(b)
    requires Max1(Value(a.month)) <= Max1(Value(b.month)) && Max1(Value(a.day)) <= Max1(Value(b.day))
    requires Value(a.hour) <= Value(b.hour) && Value(a.minute) <= Value(b.minute)
    requires Value(a.second) <= Value(b.second)
    ensures SecondsSinceUnixEpoch(a, timezone) <= SecondsSinceUnixEpoch(b, timezone)
  {
    DaysBeforeMonthMonotone(Max1(Value(a.month)), Max1(Value(b.month)), IsGregorianLeap(AstronomicalYear(a)));
  }

  /** Moving the sign's direction: a larger magnitude is later for '+' and earlier for '-'. */
  lemma AstronomicalYearOrder(a: Stamp, b: Stamp)
    requires WellFormed(a) && WellFormed(b) && a.sign == b.sign
    requires Value(a.year) <= Value(b.year)
    ensures a.sign == '+' ==> AstronomicalYear(a) <= AstronomicalYear(b)
    ensures a.sign == '-' ==> AstronomicalYear(b) <= AstronomicalYear(a)
    ensures AstronomicalYear(a) >= FullYear(a) && AstronomicalYear(b) >= FullYear(b)
  {
  }

  /** A later year starts no earlier, in seconds at any timezone. */
  lemma DaysBeforeYearOrder(s: int, s': int, timezone: int)
    requires s <= s'
    ensures DaysBeforeYear(s) * SECONDS_PER_DAY - 1 - timezone * 60
            <= DaysBeforeYear(s') * SECONDS_PER_DAY - 1 - timezone * 60
  {
    DaysBeforeYearMonotone(s, s');
  }

  /**
   * Below year precision the floor of the year drops its last 9 - p digits and
   * the ceiling sets them to nines; the two bracket the year, at least 9 apart.
   */
  lemma RoundYearValues(st: Stamp, b: Stamp, p: int)
    requires WellFormed(st) && |st.year| == 16 && WellFormed(b)
    requires PRECISION_YEAR1G <= p < PRECISION_YEAR
    ensures var y, unit := Value(st.year), Pow10(PRECISION_YEAR - p);
            var lo := Value(Round(st, ZERO_STAMP, b, p).year);
            var hi := Value(Round(st, HIGHEST_STAMP, b, p).year);
            && lo == y - y % unit && hi == lo + unit - 1
            && lo <= y <= hi && lo + 9 <= hi
  {
    var k := PRECISION_YEAR - p;
    assert Repeat('0', 16)[16 - k..] == Repeat('0', k);
    assert Repeat('9', 16)[16 - k..] == Repeat('9', k);
    assert Round(st, ZERO_STAMP, b, p).year == st.year[..16 - k] + Repeat('0', k);
    assert Round(st, HIGHEST_STAMP, b, p).year == st.year[..16 - k] + Repeat('9', k);
    TruncatedDigits(st.year, k);
  }

  /** Replacing the last k digits by zeros rounds down to a multiple of 10^k; by nines, up to the next one less one. */
  lemma TruncatedDigits(y: string, k: nat)
    requires IsDigits(y) && |y| == 16 && 1 <= k <= 9
    ensures var v, unit := Value(y), Pow10(k);
            var lo := Value(y[..16 - k] + Repeat('0', k));
            var hi := Value(y[..16 - k] + Repeat('9', k));
            && lo == v - v % unit && hi == lo + unit - 1
            && lo <= v <= hi && lo + 9 <= hi
  {
    var m := 16 - k;
    var unit := Pow10(k);
    var a, r := SplitValue(y, m);
    assert r < unit by { ValueBound(y[m..]); }
    var lo := AppendRepeated(y[..m], '0', k);
    var hi := AppendRepeated(y[..m], '9', k);
    Pow10AtLeastTen(k);
    DivideDigits(Value(y), unit, a, r, lo, hi);
  }

  /** The value of a digit string splits at any position into head times a power of ten plus tail. */
  lemma SplitValue(y: string, m: nat) returns (a: nat, r: nat)
    requires IsDigits(y) && m <= |y|
    ensures a == Value(y[..m]) && r == Value(y[m..])
    ensures Value(y) == a * Pow10(|y| - m) + r
  {
    a, r := Value(y[..m]), Value(y[m..]);
    assert y[..m] + y[m..] == y;
    ValueAppend(y[..m], y[m..]);
  }

  /** Appending k zeros multiplies by 10^k; appending k nines adds 10^k - 1 on top. */
  lemma AppendRepeated(head: string, c: char, k: nat) returns (v: nat)
    requires IsDigits(head) && (c == '0' || c == '9')
    ensures v == Value(head + Repeat(c, k))
    ensures c == '0' ==> v == Value(head) * Pow10(k)
    ensures c == '9' ==> v == Value(head) * Pow10(k) + Pow10(k) - 1
  {
    if c == '0' { ValueOfZeros(k); } else { ValueOfNines(k); }
    ValueAppend(head, Repeat(c, k));
    v := Value(head + Repeat(c, k));
  }

  /** Arithmetic core of truncation: a * unit + r with r < unit has remainder r. */
  lemma DivideDigits(v: nat, unit: nat, a: nat, r: nat, lo: nat, hi: nat)
    requires unit >= 10 && v == a * unit + r && r < unit
    requires lo == a * unit && hi == a * unit + unit - 1
    ensures lo == v - v % unit && hi == lo + unit - 1
    ensures lo <= v <= hi && lo + 9 <= hi
  {
    DivModUnique(v, unit, a, r);
  }

  lemma Pow10AtLeastTen(k: nat)
    requires k >= 1
    ensures Pow10(k) >= 10
  {
    assert Pow10(k) == 10 * Pow10(k - 1);
  }

  /** Flooring never moves a timestamp later, except for negative years below year precision. */
  lemma FloorNotLater(st: Stamp, p: int, timezone: int)
    requires WellFormed(st) && InRange(st) && PRECISION_YEAR1G <= p <= PRECISION_SECOND
    ensures var f := Round(Pad16(st), ZERO_STAMP, ZERO_STAMP, p);
      && Value(f.month) <= 12
      && (st.sign == '+' || p >= PRECISION_YEAR ==>
            SecondsSinceUnixEpoch(f, timezone) <= SecondsSinceUnixEpoch(st, timezone))
  {
    var pad := Pad16(st);
    var f := Round(pad, ZERO_STAMP, ZERO_STAMP, p);
    BoundValues();
    EpochPadded(st, timezone);
    if p >= PRECISION_YEAR {
      SameYearFieldwise(f, pad, timezone);
    } else if st.sign == '+' {
      RoundYearValues(pad, ZERO_STAMP, p);
      AstronomicalYearOrder(f, pad);
      StartOfYearEpoch(f, timezone);
      DaysBeforeYearMonotone(AstronomicalYear(f), AstronomicalYear(pad));
    }
  }

  /** The ceiling never moves a timestamp earlier, except for negative years below year precision and leap seconds. */
  lemma CeilingNotEarlier(st: Stamp, p: int, timezone: int)
    requires WellFormed(st) && InRange(st) && PRECISION_YEAR1G <= p <= PRECISION_SECOND
    ensures var c := Round(Pad16(st), HIGHEST_STAMP, HIGHEST_STAMP, p);
      && Value(c.month) <= 12
      && ((st.sign == '+' || p >= PRECISION_YEAR) && (NoLeapSecond(st) || p == PRECISION_SECOND) ==>
            SecondsSinceUnixEpoch(st, timezone) <= SecondsSinceUnixEpoch(c, timezone))
  {
    var pad := Pad16(st);
    var c := Round(pad, HIGHEST_STAMP, HIGHEST_STAMP, p);
    BoundValues();
    if (st.sign == '+' || p >= PRECISION_YEAR) && (NoLeapSecond(st) || p == PRECISION_SECOND) {
      CeilingNotEarlierWhen(st, p, timezone);
    }
  }

  lemma CeilingNotEarlierWhen(st: Stamp, p: int, timezone: int)
    requires WellFormed(st) && InRange(st) && PRECISION_YEAR1G <= p <= PRECISION_SECOND
    requires (st.sign == '+' || p >= PRECISION_YEAR) && (NoLeapSecond(st) || p == PRECISION_SECOND)
    ensures var c := Round(Pad16(st), HIGHEST_STAMP, HIGHEST_STAMP, p);
      SecondsSinceUnixEpoch(st, timezone) <= SecondsSinceUnixEpoch(c, timezone)
  {
    EpochPadded(st, timezone);
    if p >= PRECISION_YEAR {
      CeilingInYear(Pad16(st), p, timezone);
    } else {
      BoundValues();
      CeilingOfYear(Pad16(st), p, timezone);
    }
  }

  /** At year precision or finer the ceiling keeps the year and raises every other field. */
  lemma CeilingInYear(pad: Stamp, p: int, timezone: int)
    requires WellFormed(pad) && |pad.year| == 16 && InRange(pad)
    requires PRECISION_YEAR <= p <= PRECISION_SECOND && (NoLeapSecond(pad) || p == PRECISION_SECOND)
    ensures var c := Round(pad, HIGHEST_STAMP, HIGHEST_STAMP, p);
      Value(c.month) <= 12 && SecondsSinceUnixEpoch(pad, timezone) <= SecondsSinceUnixEpoch(c, timezone)
  {
    BoundValues();
    SameYearFieldwise(pad, Round(pad, HIGHEST_STAMP, HIGHEST_STAMP, p), timezone);
  }

  lemma CeilingOfYear(pad: Stamp, p: int, timezone: int)
    requires WellFormed(pad) && |pad.year| == 16 && InRange(pad) && pad.sign == '+'
    requires PRECISION_YEAR1G <= p < PRECISION_YEAR && Value(pad.second) <= 59
    ensures var c := Round(pad, HIGHEST_STAMP, HIGHEST_STAMP, p);
      Value(c.month) <= 12 && SecondsSinceUnixEpoch(pad, timezone) <= SecondsSinceUnixEpoch(c, timezone)
  {
    var c := Round(pad, HIGHEST_STAMP, HIGHEST_STAMP, p);
    RoundYearValues(pad, HIGHEST_STAMP, p);
    AstronomicalYearOrder(pad, c);
    EndOfLaterYear(pad, c, timezone);
  }

  /** A stamp within its year is no later than the last second of the same or a later year. */
  lemma EndOfLaterYear(b: Stamp, c: Stamp, timezone: int)
    requires WellFormed(b) && InRange(b) && Value(b.second) <= 59
    requires WellFormed(c) && TailOf(c, HIGHEST_STAMP) && AstronomicalYear(b) <= AstronomicalYear(c)
    ensures Value(c.month) <= 12 && SecondsSinceUnixEpoch(b, timezone) <= SecondsSinceUnixEpoch(c, timezone)
  {
    EndOfYearEpoch(c, timezone);
    WithinYear(b, timezone);
    DaysBeforeYearOrder(AstronomicalYear(b) + 1, AstronomicalYear(c) + 1, timezone);
  }

  /** The stamps getLowerTimestamp and getHigherTimestamp read: ceiling and floor swap for negative years below year precision. */
  function LowerStamp(st: Stamp, p: int): (r: Stamp)
    requires WellFormed(st) && PRECISION_YEAR1G <= p <= PRECISION_SECOND
    ensures WellFormed(r)
  {
    if st.sign == '-' && p < PRECISION_YEAR then Round(Pad16(st), HIGHEST_STAMP, HIGHEST_STAMP, p)
    else Round(Pad16(st), ZERO_STAMP, ZERO_STAMP, p)
  }

  function HigherStamp(st: Stamp, p: int): (r: Stamp)
    requires WellFormed(st) && PRECISION_YEAR1G <= p <= PRECISION_SECOND
    ensures WellFormed(r)
  {
    if st.sign == '-' && p < PRECISION_YEAR then Round(Pad16(st), ZERO_STAMP, ZERO_STAMP, p)
    else Round(Pad16(st), HIGHEST_STAMP, HIGHEST_STAMP, p)
  }

  /** Whatever the sign and precision, the lower stamp is no later than the higher one. */
  lemma LowerStampNotLater(st: Stamp, p: int, timezone: int)
    requires WellFormed(st) && InRange(st) && PRECISION_YEAR1G <= p <= PRECISION_SECOND
    ensures Value(LowerStamp(st, p).month) <= 12 && Value(HigherStamp(st, p).month) <= 12
    ensures SecondsSinceUnixEpoch(LowerStamp(st, p), timezone) <= SecondsSinceUnixEpoch(HigherStamp(st, p), timezone)
  {
    var pad := Pad16(st);
    var lo, hi := LowerStamp(st, p), HigherStamp(st, p);
    BoundValues();
    if p >= PRECISION_YEAR {
      SameYearFieldwise(lo, hi, timezone);
    } else if st.sign == '-' {
      RoundYearValues(pad, ZERO_STAMP, p);
      RoundYearValues(pad, HIGHEST_STAMP, p);
      assert Round(pad, HIGHEST_STAMP, ZERO_STAMP, p).year == lo.year;
      AstronomicalYearOrder(hi, lo);
      EndOfYearEpoch(lo, timezone);
      StartOfYearEpoch(hi, timezone);
      DaysBeforeYearMonotone(AstronomicalYear(lo) + 1, AstronomicalYear(hi));
    } else {
      RoundYearValues(pad, ZERO_STAMP, p);
      assert Round(pad, HIGHEST_STAMP, ZERO_STAMP, p).year == hi.year;
      AstronomicalYearOrder(lo, hi);
      StartOfYearEpoch(lo, timezone);
      DaysBeforeYearMonotone(AstronomicalYear(lo), AstronomicalYear(hi));
    }
  }

  // ----------------------------------------------------------------------
  // The bounds of a timestamp

  /** The formatted stamp padded and cut by timestampAbsFloor and timestampAbsCeiling parses back to the rounded stamps. */
  lemma RoundedStrings(st: Stamp, p: int)
    requires WellFormed(st) && PRECISION_YEAR1G <= p <= PRECISION_SECOND
    ensures ParseStamp(AbsFloor(Format(st), p)) == Some(Round(Pad16(st), ZERO_STAMP, ZERO_STAMP, p))
    ensures ParseStamp(AbsCeiling(Format(st), p)) == Some(Round(Pad16(st), HIGHEST_STAMP, HIGHEST_STAMP, p))
  {
    BoundStamps();
    RoundedParses(st, ZERO_STAMP, p);
    RoundedParses(st, HIGHEST_STAMP, p);
    AbsFloorFields(st, p);
    AbsCeilingFields(st, p);
  }

  lemma RoundedParses(st: Stamp, b: Stamp, p: int)
    requires WellFormed(st) && WellFormed(b) && |b.year| == 16 && PRECISION_YEAR1G <= p <= PRECISION_SECOND
    ensures ParseStamp(Format(Round(Pad16(st), b, b, p))) == Some(Round(Pad16(st), b, b, p))
  {
    ParseFormat(Round(Pad16(st), b, b, p));
  }

  /** The 33-character timestamp getLowerTimestamp reads: the ceiling for a negative year below year precision, else the floor. */
  function LowerString(st: Stamp, p: int): (s: string)
    requires WellFormed(st) && PRECISION_YEAR1G <= p <= PRECISION_SECOND
    ensures ParseStamp(s) == Some(LowerStamp(st, p))
  {
    var ts := Format(st);
    RoundedStrings(st, p);
    FormatLayout(st);
    if ts[0] == '-' && p < PRECISION_YEAR then AbsCeiling(ts, p) else AbsFloor(ts, p)
  }

  /** The 33-character timestamp getHigherTimestamp reads: the floor for a negative year below year precision, else the ceiling. */
  function HigherString(st: Stamp, p: int): (s: string)
    requires WellFormed(st) && PRECISION_YEAR1G <= p <= PRECISION_SECOND
    ensures ParseStamp(s) == Some(HigherStamp(st, p))
  {
    var ts := Format(st);
    RoundedStrings(st, p);
    FormatLayout(st);
    if ts[0] == '-' && p < PRECISION_YEAR then AbsFloor(ts, p) else AbsCeiling(ts, p)
  }

  lemma LowerStampNear(st: Stamp, p: int, timezone: int)
    requires WellFormed(st) && InRange(st) && PRECISION_YEAR1G <= p <= PRECISION_SECOND
    ensures Value(LowerStamp(st, p).month) <= 12
    ensures st.sign == '+' || p >= PRECISION_YEAR ==>
      SecondsSinceUnixEpoch(LowerStamp(st, p), timezone) <= SecondsSinceUnixEpoch(st, timezone)
    ensures p == PRECISION_SECOND ==>
      SecondsSinceUnixEpoch(LowerStamp(st, p), timezone) == SecondsSinceUnixEpoch(st, timezone)
  {
    FloorNotLater(st, p, timezone);
    CeilingNotEarlier(st, p, timezone);
    if p == PRECISION_SECOND {
      EpochPadded(st, timezone);
    }
  }

  lemma HigherStampNear(st: Stamp, p: int, timezone: int)
    requires WellFormed(st) && InRange(st) && PRECISION_YEAR1G <= p <= PRECISION_SECOND
    ensures Value(HigherStamp(st, p).month) <= 12
    ensures (st.sign == '+' || p >= PRECISION_YEAR) && (NoLeapSecond(st) || p == PRECISION_SECOND) ==>
      SecondsSinceUnixEpoch(st, timezone) <= SecondsSinceUnixEpoch(HigherStamp(st, p), timezone)
    ensures p == PRECISION_SECOND ==>
      SecondsSinceUnixEpoch(HigherStamp(st, p), timezone) == SecondsSinceUnixEpoch(st, timezone)
  {
    FloorNotLater(st, p, timezone);
    CeilingNotEarlier(st, p, timezone);
    if p == PRECISION_SECOND {
      EpochPadded(st, timezone);
    }
  }

  /**
   * getLowerTimestamp as written, on the fields of the timestamp: the epoch of
   * the floor (the ceiling for a negative year below year precision), less
   * `before` units of the precision. It is no later than the timestamp less
   * `before` units except for negative years below year precision.
   */
  function LowerBound(st: Stamp, p: int, timezone: int, before: nat): (t: int)
    requires WellFormed(st) && InRange(st) && PRECISION_YEAR1G <= p <= PRECISION_SECOND
    ensures var unit := SecondsForPrecision(p).value;
      && (st.sign == '+' || p >= PRECISION_YEAR ==> t + before * unit <= SecondsSinceUnixEpoch(st, timezone))
      && (p == PRECISION_SECOND ==> t == SecondsSinceUnixEpoch(st, timezone) - before)
  {
    LowerStampNear(st, p, timezone);
    SecondsSinceUnixEpoch(ParseStamp(LowerString(st, p)).value, timezone) - before * SecondsForPrecision(p).value
  }

  /**
   * getHigherTimestamp as written: the epoch of the ceiling (the floor for a
   * negative year below year precision), plus `after` units of the precision.
   * It is no earlier than the timestamp plus `after` units except for negative
   * years below year precision and leap seconds the ceiling drops.
   */
  function HigherBound(st: Stamp, p: int, timezone: int, after: nat): (t: int)
    requires WellFormed(st) && InRange(st) && PRECISION_YEAR1G <= p <= PRECISION_SECOND
    ensures var unit := SecondsForPrecision(p).value;
      && ((st.sign == '+' || p >= PRECISION_YEAR) && (NoLeapSecond(st) || p == PRECISION_SECOND) ==>
            SecondsSinceUnixEpoch(st, timezone) + after * unit <= t)
      && (p == PRECISION_SECOND ==> t == SecondsSinceUnixEpoch(st, timezone) + after)
  {
    HigherStampNear(st, p, timezone);
    SecondsSinceUnixEpoch(ParseStamp(HigherString(st, p)).value, timezone) + after * SecondsForPrecision(p).value
  }

  /** Whatever the sign and precision, the lower bound is no later than the higher one. */
  lemma BoundsOrdered(st: Stamp, p: int, timezone: int, before: nat, after: nat)
    requires WellFormed(st) && InRange(st) && PRECISION_YEAR1G <= p <= PRECISION_SECOND
    ensures LowerBound(st, p, timezone, before) <= HigherBound(st, p, timezone, after)
  {
    LowerBoundIs(st, p, timezone, before);
    HigherBoundIs(st, p, timezone, after);
    LowerStampNotLater(st, p, timezone);
  }

  /** Read through the string it builds, the lower bound is the epoch of LowerStamp less the widening. */
  lemma LowerBoundIs(st: Stamp, p: int, timezone: int, before: nat)
    requires WellFormed(st) && InRange(st) && PRECISION_YEAR1G <= p <= PRECISION_SECOND
    ensures Value(LowerStamp(st, p).month) <= 12
    ensures LowerBound(st, p, timezone, before) + before * SecondsForPrecision(p).value
            == SecondsSinceUnixEpoch(LowerStamp(st, p), timezone)
    ensures before * SecondsForPrecision(p).value >= 0
  {
    LowerStampNear(st, p, timezone);
    NonNegativeProduct(before, SecondsForPrecision(p).value);
  }

  /** Read through the string it builds, the higher bound is the epoch of HigherStamp plus the widening. */
  lemma HigherBoundIs(st: Stamp, p: int, timezone: int, after: nat)
    requires WellFormed(st) && InRange(st) && PRECISION_YEAR1G <= p <= PRECISION_SECOND
    ensures Value(HigherStamp(st, p).month) <= 12
    ensures HigherBound(st, p, timezone, after) - after * SecondsForPrecision(p).value
            == SecondsSinceUnixEpoch(HigherStamp(st, p), timezone)
    ensures after * SecondsForPrecision(p).value >= 0
  {
    HigherStampNear(st, p, timezone);
    NonNegativeProduct(after, SecondsForPrecision(p).value);
  }

  lemma NonNegativeProduct(a: nat, b: nat)
    ensures a * b >= 0
  {
  }

  // ----------------------------------------------------------------------
  // Bounds of negative years below year precision

  /**
   * For a negative year below year precision the magnitude rounds the other
   * way round, but the month, day and time must still be those of the start
   * (lower bound) or the end (higher bound) of the year.
   */
  function CorrectedLowerStamp(st: Stamp, p: int): (r: Stamp)
    requires WellFormed(st) && PRECISION_YEAR1G <= p <= PRECISION_SECOND
    ensures WellFormed(r) && r.sign == st.sign
    ensures st.sign == '+' || p >= PRECISION_YEAR ==> r == LowerStamp(st, p)
    ensures st.sign == '-' && p < PRECISION_YEAR ==>
      r.year == LowerStamp(st, p).year && TailOf(r, ZERO_STAMP)
  {
    if st.sign == '-' && p < PRECISION_YEAR then Round(Pad16(st), HIGHEST_STAMP, ZERO_STAMP, p)
    else Round(Pad16(st), ZERO_STAMP, ZERO_STAMP, p)
  }

  function CorrectedHigherStamp(st: Stamp, p: int): (r: Stamp)
    requires WellFormed(st) && PRECISION_YEAR1G <= p <= PRECISION_SECOND
    ensures WellFormed(r) && r.sign == st.sign
    ensures st.sign == '+' || p >= PRECISION_YEAR ==> r == HigherStamp(st, p)
    ensures st.sign == '-' && p < PRECISION_YEAR ==>
      r.year == HigherStamp(st, p).year && TailOf(r, HIGHEST_STAMP)
  {
    if st.sign == '-' && p < PRECISION_YEAR then Round(Pad16(st), ZERO_STAMP, HIGHEST_STAMP, p)
    else Round(Pad16(st), HIGHEST_STAMP, HIGHEST_STAMP, p)
  }

  lemma CorrectedLowerNotLater(st: Stamp, p: int, timezone: int)
    requires WellFormed(st) && InRange(st) && PRECISION_YEAR1G <= p <= PRECISION_SECOND
    ensures Value(CorrectedLowerStamp(st, p).month) <= 12
    ensures SecondsSinceUnixEpoch(CorrectedLowerStamp(st, p), timezone) <= SecondsSinceUnixEpoch(st, timezone)
  {
    var pad := Pad16(st);
    var c := CorrectedLowerStamp(st, p);
    BoundValues();
    LowerStampNear(st, p, timezone);
    if st.sign == '-' && p < PRECISION_YEAR {
      EpochPadded(st, timezone);
      RoundYearValues(pad, ZERO_STAMP, p);
      AstronomicalYearOrder(pad, c);
      StartOfYearEpoch(c, timezone);
      AfterStartOfYear(pad, timezone);
      DaysBeforeYearMonotone(AstronomicalYear(c), AstronomicalYear(pad));
    }
  }

  lemma CorrectedHigherNotEarlier(st: Stamp, p: int, timezone: int)
    requires WellFormed(st) && InRange(st) && PRECISION_YEAR1G <= p <= PRECISION_SECOND
    ensures Value(CorrectedHigherStamp(st, p).month) <= 12
    ensures NoLeapSecond(st) || p == PRECISION_SECOND ==>
      SecondsSinceUnixEpoch(st, timezone) <= SecondsSinceUnixEpoch(CorrectedHigherStamp(st, p), timezone)
  {
    var pad := Pad16(st);
    var c := CorrectedHigherStamp(st, p);
    BoundValues();
    HigherStampNear(st, p, timezone);
    if st.sign == '-' && p < PRECISION_YEAR && NoLeapSecond(st) {
      EpochPadded(st, timezone);
      RoundYearValues(pad, HIGHEST_STAMP, p);
      AstronomicalYearOrder(c, pad);
      EndOfLaterYear(pad, c, timezone);
    }
  }

  /** The lower bound with the start of the year kept for negative years: never later than the timestamp less `before` units. */
  function CorrectedLowerBound(st: Stamp, p: int, timezone: int, before: nat): (t: int)
    requires WellFormed(st) && InRange(st) && PRECISION_YEAR1G <= p <= PRECISION_SECOND
    ensures t + before * SecondsForPrecision(p).value <= SecondsSinceUnixEpoch(st, timezone)
    ensures st.sign == '+' || p >= PRECISION_YEAR ==> t == LowerBound(st, p, timezone, before)
  {
    CorrectedLowerNotLater(st, p, timezone);
    var shift := before * SecondsForPrecision(p).value;
    CorrectedLowerAgrees(st, p, timezone, before, shift);
    SecondsSinceUnixEpoch(CorrectedLowerStamp(st, p), timezone) - shift
  }

  /** Where the source's lower bound is right, the corrected one starts from the same stamp. */
  lemma CorrectedLowerAgrees(st: Stamp, p: int, timezone: int, before: nat, shift: int)
    requires WellFormed(st) && InRange(st) && PRECISION_YEAR1G <= p <= PRECISION_SECOND
    requires shift == before * SecondsForPrecision(p).value
    requires Value(CorrectedLowerStamp(st, p).month) <= 12
    ensures st.sign == '+' || p >= PRECISION_YEAR ==>
      SecondsSinceUnixEpoch(CorrectedLowerStamp(st, p), timezone) - shift == LowerBound(st, p, timezone, before)
  {
    LowerBoundIs(st, p, timezone, before);
  }

  /** The higher bound with the end of the year kept for negative years: never earlier than the timestamp plus `after` units, leap seconds aside. */
  function CorrectedHigherBound(st: Stamp, p: int, timezone: int, after: nat): (t: int)
    requires WellFormed(st) && InRange(st) && PRECISION_YEAR1G <= p <= PRECISION_SECOND
    ensures NoLeapSecond(st) || p == PRECISION_SECOND ==>
      SecondsSinceUnixEpoch(st, timezone) + after * SecondsForPrecision(p).value <= t
    ensures st.sign == '+' || p >= PRECISION_YEAR ==> t == HigherBound(st, p, timezone, after)
  {
    CorrectedHigherNotEarlier(st, p, timezone);
    var shift := after * SecondsForPrecision(p).value;
    CorrectedHigherAgrees(st, p, timezone, after, shift);
    SecondsSinceUnixEpoch(CorrectedHigherStamp(st, p), timezone) + shift
  }

  /** Where the source's higher bound is right, the corrected one starts from the same stamp. */
  lemma CorrectedHigherAgrees(st: Stamp, p: int, timezone: int, after: nat, shift: int)
    requires WellFormed(st) && InRange(st) && PRECISION_YEAR1G <= p <= PRECISION_SECOND
    requires shift == after * SecondsForPrecision(p).value
    requires Value(CorrectedHigherStamp(st, p).month) <= 12
    ensures st.sign == '+' || p >= PRECISION_YEAR ==>
      SecondsSinceUnixEpoch(CorrectedHigherStamp(st, p), timezone) + shift == HigherBound(st, p, timezone, after)
  {
    HigherBoundIs(st, p, timezone, after);
  }

  /** The corrected bounds are ordered for every sign and precision, leap seconds included. */
  lemma CorrectedBoundsOrdered(st: Stamp, p: int, timezone: int, before: nat, after: nat)
    requires WellFormed(st) && InRange(st) && PRECISION_YEAR1G <= p <= PRECISION_SECOND
    ensures CorrectedLowerBound(st, p, timezone, before) <= CorrectedHigherBound(st, p, timezone, after)
  {
    NonNegativeProduct(before, SecondsForPrecision(p).value);
    NonNegativeProduct(after, SecondsForPrecision(p).value);
    if st.sign == '-' && p < PRECISION_YEAR {
      var pad := Pad16(st);
      var lo, hi := CorrectedLowerStamp(st, p), CorrectedHigherStamp(st, p);
      BoundValues();
      RoundYearValues(pad, ZERO_STAMP, p);
      RoundYearValues(pad, HIGHEST_STAMP, p);
      AstronomicalYearOrder(hi, lo);
      StartOfYearEpoch(lo, timezone);
      EndOfYearEpoch(hi, timezone);
      DaysBeforeYearMonotone(AstronomicalYear(lo), AstronomicalYear(hi) + 1);
    } else {
      BoundsOrdered(st, p, timezone, before, after);
    }
  }

  // ----------------------------------------------------------------------
  // The calculator on TimeValues

  /** The fields of a valid TimeValue's timestamp. */
  function StampOf(v: TimeValue): (st: Stamp)
    requires Valid(v)
    ensures WellFormed(st) && InRange(st) && CanonicalYear(st.year)
    ensures ParseStamp(v.timestamp) == Some(st)
  {
    ParseStamp(v.timestamp).value
  }

  /** A valid TimeValue's timestamp is its stamp written out. */
  lemma StampOfFormat(v: TimeValue)
    requires Valid(v)
    ensures Format(StampOf(v)) == v.timestamp && v.timestamp[0] == StampOf(v).sign
  {
    FormatLayout(StampOf(v));
  }

  /** getTimestamp: seconds since the Unix epoch, no earlier than the start of the timestamp's year and, without a leap second, within it. */
  function GetTimestamp(v: TimeValue): (t: int)
    requires Valid(v)
    ensures var st := StampOf(v);
      && DaysBeforeYear(AstronomicalYear(st)) * SECONDS_PER_DAY - v.timezone * 60 <= t
      && (NoLeapSecond(st) ==>
            t <= DaysBeforeYear(AstronomicalYear(st) + 1) * SECONDS_PER_DAY - 1 - v.timezone * 60)
  {
    var st := StampOf(v);
    InItsYear(st, v.timezone);
    SecondsSinceUnixEpoch(st, v.timezone)
  }

  /** getLowerTimestamp: below the value by `before` units at least, unless the year is negative and the precision coarser than a year. */
  function GetLowerTimestamp(v: TimeValue): (t: int)
    requires Valid(v)
    ensures var st, p := StampOf(v), v.precision;
      && (st.sign == '+' || p >= PRECISION_YEAR ==>
            t + v.before * SecondsForPrecision(p).value <= GetTimestamp(v))
      && (p == PRECISION_SECOND ==> t == GetTimestamp(v) - v.before)
  {
    var st := StampOf(v);
    assert GetTimestamp(v) == SecondsSinceUnixEpoch(st, v.timezone);
    LowerBound(st, v.precision, v.timezone, v.before)
  }

  /** getHigherTimestamp: above the value by `after` units at least, unless the year is negative and the precision coarser than a year, or a leap second is dropped. */
  function GetHigherTimestamp(v: TimeValue): (t: int)
    requires Valid(v)
    ensures var st, p := StampOf(v), v.precision;
      && ((st.sign == '+' || p >= PRECISION_YEAR) && (NoLeapSecond(st) || p == PRECISION_SECOND) ==>
            GetTimestamp(v) + v.after * SecondsForPrecision(p).value <= t)
      && (p == PRECISION_SECOND ==> t == GetTimestamp(v) + v.after)
  {
    var st := StampOf(v);
    assert GetTimestamp(v) == SecondsSinceUnixEpoch(st, v.timezone);
    HigherBound(st, v.precision, v.timezone, v.after)
  }

  lemma LowerNotAboveHigher(v: TimeValue)
    requires Valid(v)
    ensures GetLowerTimestamp(v) <= GetHigherTimestamp(v)
  {
    BoundsOrdered(StampOf(v), v.precision, v.timezone, v.before, v.after);
  }

  /** The corrected lower timestamp: never above the value less `before` units, and equal to getLowerTimestamp where that one holds. */
  function CorrectedLowerTimestamp(v: TimeValue): (t: int)
    requires Valid(v)
    ensures t + v.before * SecondsForPrecision(v.precision).value <= GetTimestamp(v)
    ensures StampOf(v).sign == '+' || v.precision >= PRECISION_YEAR ==> t == GetLowerTimestamp(v)
  {
    CorrectedLowerBound(StampOf(v), v.precision, v.timezone, v.before)
  }

  /** The corrected higher timestamp: never below the value plus `after` units, leap seconds aside, and equal to getHigherTimestamp where that one holds. */
  function CorrectedHigherTimestamp(v: TimeValue): (t: int)
    requires Valid(v)
    ensures var st := StampOf(v);
      NoLeapSecond(st) || v.precision == PRECISION_SECOND ==>
        GetTimestamp(v) + v.after * SecondsForPrecision(v.precision).value <= t
    ensures StampOf(v).sign == '+' || v.precision >= PRECISION_YEAR ==> t == GetHigherTimestamp(v)
  {
    CorrectedHigherBound(StampOf(v), v.precision, v.timezone, v.after)
  }

  lemma CorrectedTimestampsOrdered(v: TimeValue)
    requires Valid(v)
    ensures CorrectedLowerTimestamp(v) <= CorrectedHigherTimestamp(v)
  {
    CorrectedBoundsOrdered(StampOf(v), v.precision, v.timezone, v.before, v.after);
  }

  // ----------------------------------------------------------------------
  // The bounds as written, on two negative years

  /** A value whose timestamp is the format of an in-range stamp with a four-digit year is valid, with that stamp. */
  lemma ExampleValue(st: Stamp, v: TimeValue)
    requires WellFormed(st) && |st.year| == 4 && InRange(st) && Format(st) == v.timestamp
    requires v.timezone == 0 && v.before == 0 && v.after == 0 && v.precision == PRECISION_YEAR10
    requires v.calendarModel == CALENDAR_JULIAN
    ensures Valid(v) && StampOf(v) == st
  {
    ParseFormat(st);
  }

  /**
   * -0009-00-00T00:00:00Z at decade precision: the lower bound is the last
   * second of the value's own year, later than the value itself.
   */
  lemma LowerAboveValue(v: TimeValue)
    requires v == TimeValue("-0009-00-00T00:00:00Z", 0, 0, 0, PRECISION_YEAR10, CALENDAR_JULIAN)
    ensures Valid(v) && GetLowerTimestamp(v) > GetTimestamp(v)
  {
    var st := Stamp('-', "0009", "00", "00", "00", "00", "00");
    StartOfYearNine(st);
    ExampleValue(st, v);
    LowerTimeOfExample(st);
  }

  lemma LowerTimeOfExample(st: Stamp)
    requires st == Stamp('-', "0009", "00", "00", "00", "00", "00")
    ensures WellFormed(st) && InRange(st)
    ensures LowerBound(st, PRECISION_YEAR10, 0, 0) > SecondsSinceUnixEpoch(st, 0)
  {
    StartOfYearNine(st);
    LowerBoundIs(st, PRECISION_YEAR10, 0, 0);
    CeilingOfNine(st);
    YearEndsAfterItStarts(-8);
  }

  lemma YearEndsAfterItStarts(s: int)
    ensures DaysBeforeYear(s) * SECONDS_PER_DAY < DaysBeforeYear(s + 1) * SECONDS_PER_DAY - 1
  {
    DaysBeforeYearStep(s);
  }

  lemma FormatOfNine(st: Stamp)
    requires st == Stamp('-', "0009", "00", "00", "00", "00", "00")
    ensures WellFormed(st) && Format(st) == "-0009-00-00T00:00:00Z"
  {
    assert Format(st) == "-0009-00-00T00:00:00Z";
  }

  lemma StartOfYearNine(st: Stamp)
    requires st == Stamp('-', "0009", "00", "00", "00", "00", "00")
    ensures WellFormed(st) && InRange(st) && Format(st) == "-0009-00-00T00:00:00Z"
    ensures SecondsSinceUnixEpoch(st, 0) == DaysBeforeYear(-8) * SECONDS_PER_DAY
  {
    ShortStampValues(st);
    FormatOfNine(st);
    assert AstronomicalYear(st) == -8;
  }

  /** The ceiling of year -9 at decade precision is the last second of year -9, ordinary year -8. */
  lemma CeilingOfNine(st: Stamp)
    requires st == Stamp('-', "0009", "00", "00", "00", "00", "00")
    ensures WellFormed(st) && Value(LowerStamp(st, PRECISION_YEAR10).month) <= 12
    ensures SecondsSinceUnixEpoch(LowerStamp(st, PRECISION_YEAR10), 0) == DaysBeforeYear(-7) * SECONDS_PER_DAY - 1
  {
    ShortStampValues(st);
    var p := PRECISION_YEAR10;
    var pad := Pad16(st);
    var c := LowerStamp(st, p);
    assert c == Round(pad, HIGHEST_STAMP, HIGHEST_STAMP, p);
    assert TailOf(c, HIGHEST_STAMP);
    EndOfYearEpoch(c, 0);
    RoundYearValues(pad, HIGHEST_STAMP, p);
    assert AstronomicalYear(c) == -8;
  }

  /**
   * -0010-06-15T00:00:00Z at decade precision: the higher bound is the first
   * second of the value's own year, earlier than the value itself.
   */
  lemma HigherBelowValue(v: TimeValue)
    requires v == TimeValue("-0010-06-15T00:00:00Z", 0, 0, 0, PRECISION_YEAR10, CALENDAR_JULIAN)
    ensures Valid(v) && GetHigherTimestamp(v) < GetTimestamp(v)
  {
    var st := Stamp('-', "0010", "06", "15", "00", "00", "00");
    MidYearTen(st);
    ExampleValue(st, v);
    HigherTimeOfExample(st);
  }

  lemma HigherTimeOfExample(st: Stamp)
    requires st == Stamp('-', "0010", "06", "15", "00", "00", "00")
    ensures WellFormed(st) && InRange(st)
    ensures HigherBound(st, PRECISION_YEAR10, 0, 0) < SecondsSinceUnixEpoch(st, 0)
  {
    MidYearTen(st);
    HigherBoundIs(st, PRECISION_YEAR10, 0, 0);
    FloorOfTen(st);
  }

  /** June 15 of year -10 lies fourteen days or more after the start of ordinary year -9. */
  lemma MidYearTen(st: Stamp)
    requires st == Stamp('-', "0010", "06", "15", "00", "00", "00")
    ensures WellFormed(st) && InRange(st) && Format(st) == "-0010-06-15T00:00:00Z"
    ensures SecondsSinceUnixEpoch(st, 0) >= DaysBeforeYear(-9) * SECONDS_PER_DAY + 14 * SECONDS_PER_DAY
  {
    FormatOfTen(st);
    ShortStampValues(st);
    assert AstronomicalYear(st) == -9;
  }

  lemma FormatOfTen(st: Stamp)
    requires st == Stamp('-', "0010", "06", "15", "00", "00", "00")
    ensures WellFormed(st) && Format(st) == "-0010-06-15T00:00:00Z"
  {
  }

  /** The floor of year -10 at decade precision is the first second of year -10, ordinary year -9. */
  lemma FloorOfTen(st: Stamp)
    requires st == Stamp('-', "0010", "06", "15", "00", "00", "00")
    ensures WellFormed(st) && Value(HigherStamp(st, PRECISION_YEAR10).month) <= 12
    ensures SecondsSinceUnixEpoch(HigherStamp(st, PRECISION_YEAR10), 0) == DaysBeforeYear(-9) * SECONDS_PER_DAY
  {
    ShortStampValues(st);
    var p := PRECISION_YEAR10;
    var pad := Pad16(st);
    var c := HigherStamp(st, p);
    assert c == Round(pad, ZERO_STAMP, ZERO_STAMP, p);
    assert TailOf(c, ZERO_STAMP);
    StartOfYearEpoch(c, 0);
    RoundYearValues(pad, ZERO_STAMP, p);
    assert AstronomicalYear(c) == -9;
  }
}
