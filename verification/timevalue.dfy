/**
 * The TimeValue data value: a canonical timestamp plus timezone, uncertainty
 * (before/after), precision and calendar model, validated on construction.
 * Source: src/DataValues/TimeValue.php.
 */
module TimeValues {
  import opened Results
  import opened Text

  const PRECISION_YEAR1G := 0
  const PRECISION_YEAR100M := 1
  const PRECISION_YEAR10M := 2
  const PRECISION_YEAR1M := 3
  const PRECISION_YEAR100K := 4
  const PRECISION_YEAR10K := 5
  const PRECISION_YEAR1K := 6
  const PRECISION_YEAR100 := 7
  const PRECISION_YEAR10 := 8
  const PRECISION_YEAR := 9
  const PRECISION_MONTH := 10
  const PRECISION_DAY := 11
  const PRECISION_HOUR := 12
  const PRECISION_MINUTE := 13
  const PRECISION_SECOND := 14

  const CALENDAR_GREGORIAN: string := "http://www.wikidata.org/entity/Q1985727"
  const CALENDAR_JULIAN: string := "http://www.wikidata.org/entity/Q1985786"

  /** Timezone bounds; the value is compared against hours times 3600 although documented as minutes. */
  const MIN_TIMEZONE: int := -12 * 3600
  const MAX_TIMEZONE: int := 14 * 3600

  /** The captured groups of `^([-+])(\d{1,16})-(\d\d)-(\d\d)T(\d\d):(\d\d):(\d\d)Z$`. */
  datatype Stamp = Stamp(sign: char, year: string, month: string, day: string,
                         hour: string, minute: string, second: string)

  predicate IsTwoDigits(s: string) {
    |s| == 2 && IsDigit(s[0]) && IsDigit(s[1])
  }

  predicate WellFormed(st: Stamp) {
    && (st.sign == '+' || st.sign == '-')
    && 1 <= |st.year| <= 16 && IsDigits(st.year)
    && IsTwoDigits(st.month) && IsTwoDigits(st.day)
    && IsTwoDigits(st.hour) && IsTwoDigits(st.minute) && IsTwoDigits(st.second)
  }

  /** The fixed-width part after the year: `-MM-DDTHH:MM:SSZ`. */
  function Tail(st: Stamp): (t: string)
    requires WellFormed(st)
    ensures |t| == 16
  {
    ['-', st.month[0], st.month[1], '-', st.day[0], st.day[1], 'T', st.hour[0], st.hour[1],
     ':', st.minute[0], st.minute[1], ':', st.second[0], st.second[1], 'Z']
  }

  function Format(st: Stamp): (s: string)
    requires WellFormed(st)
    ensures |s| == |st.year| + 17
  {
    [st.sign] + st.year + Tail(st)
  }

  /** Where the sign and year sit in a formatted stamp. */
  lemma FormatLayout(st: Stamp)
    requires WellFormed(st)
    ensures var s, y := Format(st), |st.year|;
      && s[0] == st.sign && s[1..y + 1] == st.year && s[y + 1..] == Tail(st)
  {
    var s, y := Format(st), |st.year|;
    assert s[1..y + 1] == st.year;
    assert s[y + 1..] == Tail(st);
  }

  /** Reads the fields of a recognised stamp back out of its characters. */
  function StampAt(s: string, t: nat): (st: Stamp)
    requires 2 <= t <= 17 && t + 16 <= |s|
    requires IsDigits(s[1..t])
    requires s[0] == '+' || s[0] == '-'
    requires TailShapeAt(s, t)
    ensures WellFormed(st)
  {
    Stamp(s[0], s[1..t], s[t + 1..t + 3], s[t + 4..t + 6], s[t + 7..t + 9],
          s[t + 10..t + 12], s[t + 13..t + 15])
  }

  predicate TailShapeAt(s: string, t: nat)
    requires t + 16 <= |s|
  {
    && s[t] == '-' && IsDigit(s[t + 1]) && IsDigit(s[t + 2])
    && s[t + 3] == '-' && IsDigit(s[t + 4]) && IsDigit(s[t + 5])
    && s[t + 6] == 'T' && IsDigit(s[t + 7]) && IsDigit(s[t + 8])
    && s[t + 9] == ':' && IsDigit(s[t + 10]) && IsDigit(s[t + 11])
    && s[t + 12] == ':' && IsDigit(s[t + 13]) && IsDigit(s[t + 14])
    && s[t + 15] == 'Z'
  }

  /**
   * The regular expression of normalizeIsoTimestamp as a recogniser. PHP's `$`
   * also matches before one final newline, so a trailing "\n" is accepted.
   */
  function ParseStamp(s: string): (r: Option<Stamp>)
    ensures r.Some? ==> WellFormed(r.value)
    ensures r.Some? ==> s == Format(r.value) || s == Format(r.value) + "\n"
  {
    if |s| < 2 || (s[0] != '+' && s[0] != '-') then None
    else
      var n := DigitRun(s, 1);
      var t := 1 + n;
      if n < 1 || n > 16 then None
      else if !(|s| == t + 16 || (|s| == t + 17 && s[t + 16] == '\n')) then None
      else if !TailShapeAt(s, t) then None
      else
        var st := StampAt(s, t);
        StampAtFormat(s, t);
        Some(st)
  }

  lemma StampAtFormat(s: string, t: nat)
    requires 2 <= t <= 17 && t + 16 <= |s| && IsDigits(s[1..t])
    requires s[0] == '+' || s[0] == '-'
    requires TailShapeAt(s, t)
    ensures Format(StampAt(s, t)) == s[..t + 16]
    ensures |s| == t + 17 && s[t + 16] == '\n' ==> s == s[..t + 16] + "\n"
    ensures |s| == t + 16 ==> s == s[..t + 16]
  {
    var st := StampAt(s, t);
    assert Tail(st) == s[t..t + 16] by {
      TailOfShape(s, t);
    }
    assert Format(st) == s[..t + 16] by {
      assert s[..t + 16] == [s[0]] + s[1..t] + s[t..t + 16];
    }
    CutAt(s, t + 16);
  }

  lemma TailOfShape(s: string, t: nat)
    requires 2 <= t <= 17 && t + 16 <= |s| && IsDigits(s[1..t])
    requires s[0] == '+' || s[0] == '-'
    requires TailShapeAt(s, t)
    ensures Tail(StampAt(s, t)) == s[t..t + 16]
  {
  }

  /** A string is its prefix up to n followed by the rest: nothing, or one newline. */
  lemma CutAt(s: string, n: nat)
    requires n <= |s|
    ensures |s| == n + 1 && s[n] == '\n' ==> s == s[..n] + "\n"
    ensures |s| == n ==> s == s[..n]
  {
    if |s| == n + 1 {
      assert s == s[..n] + [s[n]];
    }
  }
  /** Every well-formed stamp is recognised, with or without the final newline. */
  lemma ParseFormat(st: Stamp)
    requires WellFormed(st)
    ensures ParseStamp(Format(st)) == Some(st)
    ensures ParseStamp(Format(st) + "\n") == Some(st)
  {
    ParseFormatWith(st, "");
    ParseFormatWith(st, "\n");
  }

  lemma ParseFormatWith(st: Stamp, nl: string)
    requires WellFormed(st)
    requires nl == "" || nl == "\n"
    ensures ParseStamp(Format(st) + nl) == Some(st)
  {
    FormatShapeBare(st);
    ParseNewline(Format(st), 1 + |st.year|, nl);
  }

  /** A shaped string without a newline is recognised with or without one appended. */
  lemma ParseNewline(f: string, t: nat, nl: string)
    requires ShapedAt(f, t) && |f| == t + 16
    requires nl == "" || nl == "\n"
    ensures ParseStamp(f + nl) == Some(StampAt(f, t))
  {
    ShapedNewline(f, t, nl);
    ParseShape(f + nl, t);
  }

  /** A sign, a digit run up to index t and a stamp's tail, with at most a newline after it. */
  predicate ShapedAt(s: string, t: nat) {
    && 2 <= t <= 17 && t + 16 <= |s| && (s[0] == '+' || s[0] == '-')
    && DigitRun(s, 1) == t - 1 && IsDigits(s[1..t]) && TailShapeAt(s, t)
    && (|s| == t + 16 || (|s| == t + 17 && s[t + 16] == '\n'))
  }

  /** A formatted stamp is shaped, and its fields read back as the stamp. */
  lemma FormatShapeBare(st: Stamp)
    requires WellFormed(st)
    ensures var f, t := Format(st), 1 + |st.year|; |f| == t + 16 && ShapedAt(f, t) && StampAt(f, t) == st
  {
    var f, t := Format(st), 1 + |st.year|;
    YearDigitsAt(st, "");
    assert f + "" == f;
    FormatLayout(st);
    assert f[t..t + 16] == f[t..];
    TailFields(st, f, t);
    assert StampAt(f, t) == st;
  }

  /** A final newline changes neither the shape nor the fields read. */
  lemma ShapedNewline(f: string, t: nat, nl: string)
    requires ShapedAt(f, t) && |f| == t + 16
    requires nl == "" || nl == "\n"
    ensures ShapedAt(f + nl, t) && StampAt(f + nl, t) == StampAt(f, t)
  {
    var s := f + nl;
    assert s[..t + 16] == f;
    assert s[1..t] == f[1..t];
    forall k | 1 <= k < t ensures IsDigit(s[k]) {
      assert s[k] == f[1..t][k - 1];
    }
    assert s[t] == f[t];
    DigitRunOf(s, 1, t - 1);
    assert TailShapeAt(s, t);
  }

  /** A shaped string is recognised. */
  lemma ParseShape(s: string, t: nat)
    requires ShapedAt(s, t)
    ensures ParseStamp(s) == Some(StampAt(s, t))
  {
  }

  /** The year is the maximal digit run after the sign. */
  lemma YearDigitsAt(st: Stamp, nl: string)
    requires WellFormed(st)
    requires nl == "" || nl == "\n"
    ensures var s := Format(st) + nl;
      && s[1..1 + |st.year|] == st.year
      && DigitRun(s, 1) == |st.year|
  {
    var y := |st.year|;
    var s := Format(st) + nl;
    FormatLayout(st);
    assert s[..y + 17] == Format(st);
    assert s[1..y + 1] == st.year;
    forall k | 1 <= k < 1 + y ensures IsDigit(s[k]) {
      assert s[k] == st.year[k - 1];
    }
    assert s[y + 1] == Tail(st)[0] == '-';
    DigitRunOf(s, 1, y);
  }

  lemma TailFields(st: Stamp, s: string, t: nat)
    requires WellFormed(st)
    requires t + 16 <= |s| && s[t..t + 16] == Tail(st)
    ensures TailShapeAt(s, t)
    ensures s[t + 1..t + 3] == st.month && s[t + 4..t + 6] == st.day
    ensures s[t + 7..t + 9] == st.hour && s[t + 10..t + 12] == st.minute
    ensures s[t + 13..t + 15] == st.second
  {
    var u := Tail(st);
    forall k | 0 <= k < 16 ensures s[t + k] == u[k] {
      assert s[t..t + 16][k] == s[t + k];
    }
    assert s[t + 1..t + 3] == [u[1], u[2]] == st.month;
    assert s[t + 4..t + 6] == [u[4], u[5]] == st.day;
    assert s[t + 7..t + 9] == [u[7], u[8]] == st.hour;
    assert s[t + 10..t + 12] == [u[10], u[11]] == st.minute;
    assert s[t + 13..t + 15] == [u[13], u[14]] == st.second;
  }

  predicate InRange(st: Stamp)
    requires WellFormed(st)
  {
    && Value(st.month) <= 12
    && Value(st.day) <= 31
    && !(Value(st.day) > 0 && Value(st.month) < 1)
    && Value(st.hour) <= 23
    && Value(st.minute) <= 59
    && Value(st.second) <= 61
  }

  /** A year as stored: 4 to 16 digits, with a leading zero only when exactly 4 digits long. */
  predicate CanonicalYear(y: string) {
    IsDigits(y) && 4 <= |y| <= 16 && (|y| == 4 || y[0] != '0')
  }

  /** The year with its leading zeros dropped, then padded on the left with zeros to at least four digits. */
  function NormalizeYear(y: string): (r: string)
    requires IsDigits(y) && |y| <= 16
    ensures CanonicalYear(r)
    ensures Value(r) == Value(y)
    ensures CanonicalYear(y) ==> r == y
  {
    NormalizeYearFacts(y);
    PadLeft(TrimLeadingZeros(y), 4, '0')
  }

  lemma NormalizeYearFacts(y: string)
    requires IsDigits(y) && |y| <= 16
    ensures var r := PadLeft(TrimLeadingZeros(y), 4, '0');
      CanonicalYear(r) && Value(r) == Value(y) && (CanonicalYear(y) ==> r == y)
  {
    NormalizedValue(y);
    NormalizedCanonical(y);
    if CanonicalYear(y) {
      NormalizedKeeps(y);
    }
  }

  lemma NormalizedValue(y: string)
    requires IsDigits(y)
    ensures var r := PadLeft(TrimLeadingZeros(y), 4, '0'); IsDigits(r) && Value(r) == Value(y)
  {
    var t := TrimLeadingZeros(y);
    var r := PadLeft(t, 4, '0');
    var k := |y| - |t|;
    assert t == y[k..];
    assert IsDigits(t);
    ValueLeadingZeros(k, t);
    ValueLeadingZeros(|r| - |t|, t);
  }

  lemma NormalizedCanonical(y: string)
    requires IsDigits(y) && |y| <= 16
    ensures CanonicalYear(PadLeft(TrimLeadingZeros(y), 4, '0'))
  {
    var t := TrimLeadingZeros(y);
    var r := PadLeft(t, 4, '0');
    NormalizedValue(y);
    if |r| > 4 {
      assert r == t;
    }
  }

  lemma NormalizedKeeps(y: string)
    requires CanonicalYear(y)
    ensures PadLeft(TrimLeadingZeros(y), 4, '0') == y
  {
    var t := TrimLeadingZeros(y);
    var r := PadLeft(t, 4, '0');
    var k := |y| - |t|;
    if k == 0 {
      assert y == t;
    } else {
      assert y[0] == '0';
      assert |r| == 4 == |y|;
    }
  }

  /** A timestamp as TimeValue stores it: matches the grammar exactly, canonical year, fields in range. */
  predicate IsCanonical(ts: string) {
    var p := ParseStamp(ts);
    p.Some? && ts == Format(p.value) && CanonicalYear(p.value.year) && InRange(p.value)
  }

  datatype TimeValueError =
    | TimestampNotNonEmptyString
    | TimezoneNotInteger
    | TimezoneOutOfBounds
    | BeforeNotUnsigned
    | AfterNotUnsigned
    | PrecisionNotInteger
    | PrecisionOutOfBounds
    | CalendarModelNotNonEmptyString
    | MalformedTimestamp
    | MonthOutOfBounds
    | DayOutOfBounds
    | DayWithoutMonth
    | HourOutOfBounds
    | MinuteOutOfBounds
    | SecondOutOfBounds
    | MissingField(name: string)

  /** The error normalizeIsoTimestamp raises for a stamp, checked in the source's order. */
  function RangeError(st: Stamp): (e: Option<TimeValueError>)
    requires WellFormed(st)
    ensures e.None? <==> InRange(st)
  {
    if Value(st.month) > 12 then Some(MonthOutOfBounds)
    else if Value(st.day) > 31 then Some(DayOutOfBounds)
    else if Value(st.day) > 0 && Value(st.month) < 1 then Some(DayWithoutMonth)
    else if Value(st.hour) > 23 then Some(HourOutOfBounds)
    else if Value(st.minute) > 59 then Some(MinuteOutOfBounds)
    else if Value(st.second) > 61 then Some(SecondOutOfBounds)
    else None
  }

  /**
   * normalizeIsoTimestamp: the grammar check, the range checks, then the year
   * re-padded; every other character is kept as given.
   */
  function NormalizeIsoTimestamp(ts: string): (r: Result<string, TimeValueError>)
    ensures r.Ok? <==> ParseStamp(ts).Some? && InRange(ParseStamp(ts).value)
    ensures ParseStamp(ts).None? ==> r == Err(MalformedTimestamp)
    ensures r.Ok? ==> IsCanonical(r.value)
    ensures r.Ok? ==> var st := ParseStamp(ts).value;
      ParseStamp(r.value) == Some(st.(year := NormalizeYear(st.year)))
  {
    match ParseStamp(ts)
    case None => Err(MalformedTimestamp)
    case Some(st) =>
      match RangeError(st)
      case Some(e) => Err(e)
      case None =>
        var st' := st.(year := NormalizeYear(st.year));
        ParseFormat(st');
        Ok(Format(st'))
  }

  /** A canonical timestamp is a fixed point of normalisation. */
  lemma NormalizeCanonical(ts: string)
    requires IsCanonical(ts)
    ensures NormalizeIsoTimestamp(ts) == Ok(ts)
  {
  }

  lemma NormalizeIdempotent(ts: string)
    requires NormalizeIsoTimestamp(ts).Ok?
    ensures NormalizeIsoTimestamp(NormalizeIsoTimestamp(ts).value) == NormalizeIsoTimestamp(ts)
  {
    NormalizeCanonical(NormalizeIsoTimestamp(ts).value);
  }

  datatype TimeValue = TimeValue(timestamp: string, timezone: int, before: int, after: int,
                                 precision: int, calendarModel: string)

  /** The invariant every constructed TimeValue satisfies. */
  predicate Valid(v: TimeValue) {
    && IsCanonical(v.timestamp)
    && MIN_TIMEZONE <= v.timezone <= MAX_TIMEZONE
    && v.before >= 0 && v.after >= 0
    && PRECISION_YEAR1G <= v.precision <= PRECISION_SECOND
    && v.calendarModel != ""
  }

  /** A PHP value as it may appear in a constructor argument or an array field. */
  datatype Entry = StringEntry(s: string) | IntEntry(i: int) | OtherEntry

  /** The constructor, on arguments of any PHP type, with its checks in source order. */
  function Construct(timestamp: Entry, timezone: Entry, before: Entry, after: Entry,
                     precision: Entry, calendarModel: Entry): (r: Result<TimeValue, TimeValueError>)
    ensures r.Ok? ==> Valid(r.value)
    ensures r.Err? ==> !r.error.MissingField?
    ensures r.Ok? <==>
      && timestamp.StringEntry? && timezone.IntEntry? && before.IntEntry? && after.IntEntry?
      && precision.IntEntry? && calendarModel.StringEntry?
      && MIN_TIMEZONE <= timezone.i <= MAX_TIMEZONE && before.i >= 0 && after.i >= 0
      && PRECISION_YEAR1G <= precision.i <= PRECISION_SECOND && calendarModel.s != ""
      && NormalizeIsoTimestamp(timestamp.s).Ok?
    ensures r.Ok? ==> r.value == TimeValue(NormalizeIsoTimestamp(timestamp.s).value, timezone.i,
                                          before.i, after.i, precision.i, calendarModel.s)
  {
    match ArgumentError(timestamp, timezone, before, after, precision, calendarModel)
    case Some(e) => Err(e)
    case None =>
      var ts :- NormalizeIsoTimestamp(timestamp.s);
      Ok(TimeValue(ts, timezone.i, before.i, after.i, precision.i, calendarModel.s))
  }

  /** The constructor's argument checks, in source order, before the timestamp is parsed. */
  function ArgumentError(timestamp: Entry, timezone: Entry, before: Entry, after: Entry,
                         precision: Entry, calendarModel: Entry): (e: Option<TimeValueError>)
    ensures e.None? <==>
      && timestamp.StringEntry? && timestamp.s != "" && timezone.IntEntry? && before.IntEntry?
      && after.IntEntry? && precision.IntEntry? && calendarModel.StringEntry?
      && MIN_TIMEZONE <= timezone.i <= MAX_TIMEZONE && before.i >= 0 && after.i >= 0
      && PRECISION_YEAR1G <= precision.i <= PRECISION_SECOND && calendarModel.s != ""
    ensures e.Some? ==> !e.value.MissingField? && !e.value.MalformedTimestamp?
  {
    if !timestamp.StringEntry? || timestamp.s == "" then Some(TimestampNotNonEmptyString)
    else if !timezone.IntEntry? then Some(TimezoneNotInteger)
    else if timezone.i < MIN_TIMEZONE || timezone.i > MAX_TIMEZONE then Some(TimezoneOutOfBounds)
    else if !before.IntEntry? || before.i < 0 then Some(BeforeNotUnsigned)
    else if !after.IntEntry? || after.i < 0 then Some(AfterNotUnsigned)
    else if !precision.IntEntry? then Some(PrecisionNotInteger)
    else if precision.i < PRECISION_YEAR1G || precision.i > PRECISION_SECOND then Some(PrecisionOutOfBounds)
    else if !calendarModel.StringEntry? || calendarModel.s == "" then Some(CalendarModelNotNonEmptyString)
    else None
  }

  /** `new TimeValue(...)` with arguments of the documented types. */
  function New(timestamp: string, timezone: int, before: int, after: int, precision: int,
               calendarModel: string): (r: Result<TimeValue, TimeValueError>)
    ensures r.Ok? <==>
      && MIN_TIMEZONE <= timezone <= MAX_TIMEZONE && before >= 0 && after >= 0
      && PRECISION_YEAR1G <= precision <= PRECISION_SECOND && calendarModel != ""
      && ParseStamp(timestamp).Some? && InRange(ParseStamp(timestamp).value)
    ensures r.Ok? ==> Valid(r.value)
    ensures r.Ok? ==> (r.value.timezone == timezone && r.value.before == before && r.value.after == after
      && r.value.precision == precision && r.value.calendarModel == calendarModel)
    ensures r.Ok? ==> var st := ParseStamp(timestamp).value;
      ParseStamp(r.value.timestamp) == Some(st.(year := NormalizeYear(st.year)))
  {
    Construct(StringEntry(timestamp), IntEntry(timezone), IntEntry(before), IntEntry(after),
              IntEntry(precision), StringEntry(calendarModel))
  }

  /** Constructing again from the fields of a valid value gives that value back. */
  lemma NewOfValid(v: TimeValue)
    requires Valid(v)
    ensures New(v.timestamp, v.timezone, v.before, v.after, v.precision, v.calendarModel) == Ok(v)
  {
    NormalizeCanonical(v.timestamp);
  }

  /** getSortKey and __toString both return the stored timestamp. */
  function SortKey(v: TimeValue): (k: string)
    requires Valid(v)
    ensures IsCanonical(k) && k == v.timestamp
  {
    v.timestamp
  }

  function ToString(v: TimeValue): (k: string)
    requires Valid(v)
    ensures IsCanonical(k) && k == SortKey(v)
  {
    v.timestamp
  }

  /** The keys of the array form, in the order requireArrayFields checks them; other keys are ignored. */
  datatype Field = Time | Timezone | Before | After | Precision | CalendarModel

  /** The array key each field is stored under. */
  function FieldName(f: Field): string {
    match f
    case Time => "time"
    case Timezone => "timezone"
    case Before => "before"
    case After => "after"
    case Precision => "precision"
    case CalendarModel => "calendarmodel"
  }

  /** Every key requireArrayFields asks for is present. */
  predicate HasAllFields(data: map<Field, Entry>) {
    Time in data && Timezone in data && Before in data && After in data
    && Precision in data && CalendarModel in data
  }

  function GetArrayValue(v: TimeValue): (a: map<Field, Entry>)
    ensures HasAllFields(a)
    ensures a[Time] == StringEntry(v.timestamp) && a[CalendarModel] == StringEntry(v.calendarModel)
    ensures a[Timezone] == IntEntry(v.timezone) && a[Precision] == IntEntry(v.precision)
    ensures a[Before] == IntEntry(v.before) && a[After] == IntEntry(v.after)
  {
    map[Time := StringEntry(v.timestamp), Timezone := IntEntry(v.timezone),
        Before := IntEntry(v.before), After := IntEntry(v.after),
        Precision := IntEntry(v.precision), CalendarModel := StringEntry(v.calendarModel)]
  }

  /** requireArrayFields: the first required key that is missing, in the order the source lists them. */
  function MissingKey(data: map<Field, Entry>): (m: Option<Field>)
    ensures m.None? <==> HasAllFields(data)
    ensures m.Some? ==> m.value !in data
  {
    if Time !in data then Some(Time)
    else if Timezone !in data then Some(Timezone)
    else if Before !in data then Some(Before)
    else if After !in data then Some(After)
    else if Precision !in data then Some(Precision)
    else if CalendarModel !in data then Some(CalendarModel)
    else None
  }

  function NewFromArray(data: map<Field, Entry>): (r: Result<TimeValue, TimeValueError>)
    ensures !HasAllFields(data) <==> r.Err? && r.error.MissingField?
    ensures r.Ok? ==> Valid(r.value)
    ensures r.Ok? ==> && data[Time].StringEntry?
                      && NormalizeIsoTimestamp(data[Time].s) == Ok(r.value.timestamp)
                      && data[Timezone] == IntEntry(r.value.timezone)
                      && data[Before] == IntEntry(r.value.before)
                      && data[After] == IntEntry(r.value.after)
                      && data[Precision] == IntEntry(r.value.precision)
                      && data[CalendarModel] == StringEntry(r.value.calendarModel)
  {
    match MissingKey(data)
    case Some(f) => Err(MissingField(FieldName(f)))
    case None =>
      Construct(data[Time], data[Timezone], data[Before], data[After],
                data[Precision], data[CalendarModel])
  }

  /** newFromArray(getArrayValue(v)) reproduces v field for field. */
  lemma ArrayRoundTrip(v: TimeValue)
    requires Valid(v)
    ensures NewFromArray(GetArrayValue(v)) == Ok(v)
  {
    var a := GetArrayValue(v);
    assert MissingKey(a) == None;
    ConstructOfValid(v);
  }

  lemma ConstructOfValid(v: TimeValue)
    requires Valid(v)
    ensures Construct(StringEntry(v.timestamp), IntEntry(v.timezone), IntEntry(v.before),
                      IntEntry(v.after), IntEntry(v.precision), StringEntry(v.calendarModel)) == Ok(v)
  {
    NormalizeCanonical(v.timestamp);
  }

  /** Exporting what the array constructor built gives back the array, once its timestamp is canonical. */
  lemma ArrayRoundTripFromData(data: map<Field, Entry>)
    requires NewFromArray(data).Ok?
    requires data[Time].StringEntry? && IsCanonical(data[Time].s)
    ensures GetArrayValue(NewFromArray(data).value) == data
  {
    var v := NewFromArray(data).value;
    NormalizeCanonical(data[Time].s);
    SameArray(v, data);
  }

  lemma SameArray(v: TimeValue, data: map<Field, Entry>)
    requires HasAllFields(data)
    requires data[Time] == StringEntry(v.timestamp) && data[CalendarModel] == StringEntry(v.calendarModel)
    requires data[Timezone] == IntEntry(v.timezone) && data[Precision] == IntEntry(v.precision)
    requires data[Before] == IntEntry(v.before) && data[After] == IntEntry(v.after)
    ensures GetArrayValue(v) == data
  {
    var a := GetArrayValue(v);
    forall f: Field ensures f in data && f in a && a[f] == data[f] {
      match f
      case Time =>
      case Timezone =>
      case Before =>
      case After =>
      case Precision =>
      case CalendarModel =>
    }
    assert a.Keys == data.Keys;
  }
}
