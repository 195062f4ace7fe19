/**
 * The legacy TimeParser: only the full form `[sign]Y-MM-DDTHH:MM:SSZ`, with an
 * optional calendar name after it. The year is padded to 16 digits, the
 * precision is the finest field that is not "00" (or what the year's trailing
 * zeros say), and the calendar comes from the name, the `calendar` option or
 * the Gregorian default. Source: src/ValueParsers/TimeParser.php.
 */
module LegacyTimeParser {
  import opened Results
  import opened Text
  import opened TimeValues
  import opened Parsing
  import opened CalendarModels
  import opened IsoTimestamps

  // ---------------------------------------------------------------------------
  // splitTimeString:
  // optional blanks and sign, a year of one to sixteen digits, two-digit month, day, hour, minute
  // and second, a `Z`, then an optional calendar name (Gregorian or Julian, any case) that may sit
  // in parentheses, blanks allowed around each part; Unicode mode, case-insensitive

  predicate IsLegacySign(c: char) {
    c == '+' || c == '-'
  }

  /** `^\s*([\+\-]?)\s*(\d{1,16})-(\d{2})-(\d{2})`: the same as the ISO parser's but for the sign. */
  function LegacyDateAt(s: string): (r: Option<DateMatch>)
    ensures r.Some? ==> r.value.end <= |s|
    ensures r.Some? ==> r.value.sign == "" || r.value.sign == "+" || r.value.sign == "-"
    ensures r.Some? ==> 1 <= |r.value.year| <= 16 && IsDigits(r.value.year)
    ensures r.Some? ==> IsTwoDigits(r.value.month) && IsTwoDigits(r.value.day)
  {
    var i0 := SkipUnicodeSpaces(s, 0);
    var signed := i0 < |s| && IsLegacySign(s[i0]);
    var i1 := SkipUnicodeSpaces(s, if signed then i0 + 1 else i0);
    var n := DigitRun(s, i1);
    var y := i1 + n;
    if !(1 <= n <= 16 && y + 6 <= |s| && s[y] == '-' && TwoDigitsAt(s, y + 1)
         && s[y + 3] == '-' && TwoDigitsAt(s, y + 4)) then None
    else
      Some(DateMatch(if signed then [s[i0]] else "", s[i1..y], s[y + 1..y + 3], s[y + 4..y + 6], y + 6))
  }

  /**
   * `T(\d{2}):(\d{2}):(\d{2})Z` from index i, `T` and `Z` in either case; none
   * of it is optional here. The match ends at the `Z`, which the suffix consumes.
   */
  function LegacyClockAt(s: string, i: nat): (r: Option<TimeMatch>)
    ensures r.Some? ==> r.value.end == i + 9 && i + 10 <= |s| && LowerChar(s[i + 9]) == 'z'
    ensures r.Some? ==> IsTwoDigits(r.value.hour) && IsTwoDigits(r.value.minute) && IsTwoDigits(r.value.second)
  {
    if i + 10 <= |s| && LowerChar(s[i]) == 't' && TwoDigitsAt(s, i + 1) && s[i + 3] == ':'
       && TwoDigitsAt(s, i + 4) && s[i + 6] == ':' && TwoDigitsAt(s, i + 7) && LowerChar(s[i + 9]) == 'z'
    then Some(TimeMatch(s[i + 1..i + 3], s[i + 4..i + 6], s[i + 7..i + 9], i + 9))
    else None
  }

  /** What a match of the legacy pattern captures. */
  predicate LegacyCaptured(p: IsoParts) {
    && (p.sign == "" || p.sign == "+" || p.sign == "-")
    && 1 <= |p.year| <= 16 && IsDigits(p.year)
    && IsTwoDigits(p.month) && IsTwoDigits(p.day)
    && IsTwoDigits(p.hour) && IsTwoDigits(p.minute) && IsTwoDigits(p.second)
    && IsCalendarWord(p.calendar)
  }

  /**
   * The pattern as a recogniser. Each optional part is decided by its first
   * character and the year run must be followed by '-', so the match is unique.
   */
  function MatchTime(s: string): (r: Option<IsoParts>)
    ensures r.Some? ==> LegacyCaptured(r.value)
  {
    match LegacyDateAt(s)
    case None => None
    case Some(d) =>
      match LegacyClockAt(s, d.end)
      case None => None
      case Some(t) =>
        match SuffixAt(s, t.end)
        case None => None
        case Some(c) => Some(IsoParts(d.sign, d.year, d.month, d.day, t.hour, t.minute, t.second, c))
  }

  /** splitTimeString: the captured groups, or "Malformed time: " and the input. */
  function SplitTime(value: string): (r: Result<IsoParts, ParseError>)
    ensures r.Ok? <==> MatchTime(value).Some?
    ensures r.Ok? ==> LegacyCaptured(r.value)
    ensures r.Err? ==> r.error == ParseError("Malformed time: " + value)
  {
    match MatchTime(value)
    case None => Err(ParseError("Malformed time: " + value))
    case Some(p) => Ok(p)
  }

  // ---------------------------------------------------------------------------
  // padYear

  /** The year padded on the left with zeros to sixteen digits. */
  function PadYear(year: string): (r: string)
    requires IsDigits(year) && |year| <= 16
    ensures |r| == 16 && IsDigits(r) && Value(r) == Value(year)
    ensures r[16 - |year|..] == year
  {
    var r := PadLeft(year, 16, '0');
    ValueLeadingZeros(16 - |year|, year);
    r
  }

  // ---------------------------------------------------------------------------
  // getPrecisionFromTimeParts, getPrecisionFromYear

  /** Nine minus the trailing zeros of the year, and never below PRECISION_YEAR1G; no threshold. */
  function YearPrecision(year: string): (d: int)
    ensures PRECISION_YEAR1G <= d <= PRECISION_YEAR
    ensures TrailingZeros(year) == 0 ==> d == PRECISION_YEAR
  {
    var z := TrailingZeros(year);
    if PRECISION_YEAR - z < PRECISION_YEAR1G then PRECISION_YEAR1G else PRECISION_YEAR - z
  }

  /**
   * A non-zero year m·10^k, with m not a multiple of ten, has precision YEAR - k,
   * clamped at 1G; the value of the year plays no further part, so there is no threshold.
   */
  lemma YearPrecisionValue(year: string)
    requires IsDigits(year) && Value(year) > 0
    ensures var k := TrailingZeros(year);
      && k < |year| && IsDigits(year[..|year| - k])
      && var m := Value(year[..|year| - k]);
      && Value(year) == m * Pow10(k) && m % 10 != 0
      && YearPrecision(year) == (if k >= PRECISION_YEAR then PRECISION_YEAR1G else PRECISION_YEAR - k)
  {
    TrailingZerosValue(year);
  }

  /** The field that precision d, from month to second, is about. */
  function FieldAt(p: IsoParts, d: int): (f: string)
    requires PRECISION_MONTH <= d <= PRECISION_SECOND
  {
    if d == PRECISION_MONTH then p.month
    else if d == PRECISION_DAY then p.day
    else if d == PRECISION_HOUR then p.hour
    else if d == PRECISION_MINUTE then p.minute
    else p.second
  }

  /**
   * The precision the fields show: the finest field that is not "00", or the
   * year's precision when all of them are "00".
   */
  function PrecisionFromParts(p: IsoParts): (d: int)
    ensures PRECISION_YEAR1G <= d <= PRECISION_SECOND
    ensures d >= PRECISION_MONTH ==> FieldAt(p, d) != "00"
    ensures d >= PRECISION_MONTH ==> forall e | d < e <= PRECISION_SECOND :: FieldAt(p, e) == "00"
    ensures d <= PRECISION_YEAR <==> forall e | PRECISION_MONTH <= e <= PRECISION_SECOND :: FieldAt(p, e) == "00"
    ensures d <= PRECISION_YEAR ==> d == YearPrecision(p.year)
  {
    if p.second != "00" then PRECISION_SECOND
    else if p.minute != "00" then PRECISION_MINUTE
    else if p.hour != "00" then PRECISION_HOUR
    else if p.day != "00" then PRECISION_DAY
    else if p.month != "00" then PRECISION_MONTH
    else
      assert forall e | PRECISION_MONTH <= e <= PRECISION_SECOND :: FieldAt(p, e) == "00";
      YearPrecision(p.year)
  }

  /** The `precision` option counts only when it is an int no finer than the detected precision. */
  function ChoosePrecision(option: PrecisionOption, detected: int): (d: int)
    ensures d <= detected
    ensures d != detected <==> option.PrecisionNumber? && option.n < detected
    ensures d != detected ==> d == option.n
  {
    if option.PrecisionNumber? && option.n <= detected then option.n else detected
  }

  // ---------------------------------------------------------------------------
  // The calendar

  /** The canonical URIs as the `i` flag compares them. */
  const GREGORIAN_FOLDED: string := "http://www.wikidata.org/entity/q1985727"
  const JULIAN_FOLDED: string := "http://www.wikidata.org/entity/q1985786"

  /** A canonical calendar name occurs somewhere in s, in any case. */
  predicate MentionsCanonicalUri(s: string) {
    exists i | 0 <= i <= |s| :: MatchesAt(s, i, GREGORIAN_FOLDED) || MatchesAt(s, i, JULIAN_FOLDED)
  }

  /**
   * No name in the input and an option mentioning a canonical URI: the option,
   * as written; a name: whatever the calendar model parser makes of it;
   * otherwise Gregorian.
   */
  function ChooseCalendar(calendarOption: string, name: string,
                          parseCalendar: string -> Result<string, ParseError>): (r: Result<string, ParseError>)
    ensures name != "" ==> r == parseCalendar(name)
    ensures name == "" ==> r.Ok?
    ensures name == "" && MentionsCanonicalUri(calendarOption) ==> r.value == calendarOption
    ensures name == "" && !MentionsCanonicalUri(calendarOption) ==> r.value == CALENDAR_GREGORIAN
  {
    if name == "" && MentionsCanonicalUri(calendarOption) then Ok(calendarOption)
    else if name != "" then parseCalendar(name)
    else Ok(CALENDAR_GREGORIAN)
  }

  // ---------------------------------------------------------------------------
  // stringParse

  /** getTimeStringFromParts. */
  function TimeString(p: IsoParts): (s: string) {
    p.sign + p.year + ("-" + p.month + "-" + p.day + "T" + p.hour + ":" + p.minute + ":" + p.second + "Z")
  }

  /** The stamp a signed part list writes. */
  function StampOf(p: IsoParts): (st: Stamp)
    requires LegacyCaptured(p) && p.sign != ""
    ensures WellFormed(st)
  {
    Stamp(p.sign[0], p.year, p.month, p.day, p.hour, p.minute, p.second)
  }

  /** The parts with the year padded, as stringParse goes on with them. */
  function Padded(p: IsoParts): (q: IsoParts)
    requires LegacyCaptured(p)
    ensures LegacyCaptured(q) && |q.year| == 16 && Value(q.year) == Value(p.year)
  {
    p.(year := PadYear(p.year))
  }

  /**
   * stringParse. `calendar` is the `calendar` option (the Gregorian URI when
   * unset); `parseCalendar` is the injected calendar model parser. A refusal
   * by TimeValue's constructor comes back as InvalidValue.
   */
  function Parse(options: Options, parseCalendar: string -> Result<string, ParseError>, value: string)
    : (r: Result<TimeValue, ParseError>)
    ensures MatchTime(value).None? ==> r == Err(ParseError("Malformed time: " + value))
    ensures r.Ok? ==> Valid(r.value) && r.value.timezone == 0 && r.value.before == 0 && r.value.after == 0
    ensures r.Ok? ==> MatchTime(value).Some? && MatchTime(value).value.sign != ""
  {
    var p :- SplitTime(value);
    Assemble(options, parseCalendar, p)
  }

  /** The calendar stringParse picks for the parts p. */
  function CalendarOf(options: Options, parseCalendar: string -> Result<string, ParseError>, p: IsoParts)
    : (r: Result<string, ParseError>)
  {
    ChooseCalendar(options.calendar.GetOr(CALENDAR_GREGORIAN), p.calendar, parseCalendar)
  }

  /** The steps after the split: pad the year, pick the calendar and the precision, construct. */
  function Assemble(options: Options, parseCalendar: string -> Result<string, ParseError>, p: IsoParts)
    : (r: Result<TimeValue, ParseError>)
    requires LegacyCaptured(p)
    ensures var c := CalendarOf(options, parseCalendar, p);
      && (c.Err? ==> r == Err(c.error))
      && (c.Ok? && r.Err? ==> r.error.InvalidValue?)
      && (r.Ok? <==> && c.Ok? && c.value != "" && p.sign != "" && InRange(StampOf(Padded(p)))
                     && PRECISION_YEAR1G <= ChoosePrecision(options.precision, PrecisionFromParts(Padded(p))) <= PRECISION_SECOND)
      && (r.Ok? ==> r.value.calendarModel == c.value)
    ensures r.Ok? ==> && Valid(r.value) && r.value.timezone == 0 && r.value.before == 0 && r.value.after == 0
                      && r.value.precision == ChoosePrecision(options.precision, PrecisionFromParts(Padded(p)))
    ensures r.Ok? ==> var q := Padded(p);
      ParseStamp(r.value.timestamp) == Some(StampOf(q).(year := NormalizeYear(q.year)))
  {
    var q := Padded(p);
    var calendar :- CalendarOf(options, parseCalendar, p);
    Build(q, ChoosePrecision(options.precision, PrecisionFromParts(q)), calendar)
  }

  /** The TimeValue constructor on the assembled time string, its errors wrapped. */
  function Build(q: IsoParts, precision: int, calendar: string): (r: Result<TimeValue, ParseError>)
    requires LegacyCaptured(q)
    ensures r.Err? ==> r.error.InvalidValue?
    ensures r.Ok? <==> && q.sign != "" && InRange(StampOf(q))
                       && PRECISION_YEAR1G <= precision <= PRECISION_SECOND && calendar != ""
    ensures r.Ok? ==> && Valid(r.value) && r.value.timezone == 0 && r.value.before == 0 && r.value.after == 0
                      && r.value.precision == precision && r.value.calendarModel == calendar
    ensures r.Ok? ==> ParseStamp(r.value.timestamp) == Some(StampOf(q).(year := NormalizeYear(q.year)))
  {
    TimeStringStamp(q);
    match New(TimeString(q), 0, 0, 0, precision, calendar)
    case Ok(v) => Ok(v)
    case Err(e) => Err(InvalidValue(e))
  }

  /** A signed part list writes its stamp, which reads back as it was. */
  lemma SignedTimeString(p: IsoParts)
    requires LegacyCaptured(p) && p.sign != ""
    ensures TimeString(p) == Format(StampOf(p))
    ensures ParseStamp(TimeString(p)) == Some(StampOf(p))
  {
    TailText(StampOf(p));
    ParseFormat(StampOf(p));
  }

  /** An unsigned part list writes no stamp TimeValue accepts: its first character is a digit. */
  lemma UnsignedTimeString(p: IsoParts)
    requires LegacyCaptured(p) && p.sign == ""
    ensures ParseStamp(TimeString(p)).None?
  {
    assert TimeString(p)[0] == p.year[0];
  }

  /** The stamp a part list writes: its own when signed, none when not. */
  lemma TimeStringStamp(p: IsoParts)
    requires LegacyCaptured(p)
    ensures p.sign != "" ==> ParseStamp(TimeString(p)) == Some(StampOf(p))
    ensures p.sign == "" ==> ParseStamp(TimeString(p)).None?
  {
    if p.sign != "" { SignedTimeString(p); } else { UnsignedTimeString(p); }
  }

  // ---------------------------------------------------------------------------
  // Reading back what TimeValue writes

  /** A formatted stamp is matched with its own fields and no calendar name. */
  lemma MatchFormat(st: Stamp)
    requires WellFormed(st)
    ensures MatchTime(Format(st)) == Some(PartsOf(st))
  {
    var s, t := Format(st), |st.year| + 1;
    var p := IsoParts([s[0]], s[1..t], s[t + 1..t + 3], s[t + 4..t + 6],
                      s[t + 7..t + 9], s[t + 10..t + 12], s[t + 13..t + 15], "");
    assert MatchTime(s) == Some(p) by {
      FormatShaped(st);
      MatchShape(s, t);
    }
    assert p == PartsOf(st) by {
      FormatShaped(st);
    }
  }

  /** A stamp-shaped string with nothing after the `Z` is matched field by field. */
  lemma MatchShape(s: string, t: nat)
    requires StampShaped(s, t) && |s| == t + 16
    ensures MatchTime(s) == Some(IsoParts([s[0]], s[1..t], s[t + 1..t + 3], s[t + 4..t + 6],
                                          s[t + 7..t + 9], s[t + 10..t + 12], s[t + 13..t + 15], ""))
  {
    DateAtShape(s, t);
    ClockAtShape(s, t);
    SuffixAtZ(s, t + 15);
    MatchSteps(s, DateMatch([s[0]], s[1..t], s[t + 1..t + 3], s[t + 4..t + 6], t + 6),
               TimeMatch(s[t + 7..t + 9], s[t + 10..t + 12], s[t + 13..t + 15], t + 15), "");
  }

  /** Zeros put in front leave the leading-zero trim unchanged. */
  lemma {:induction false} TrimAfterZeros(k: nat, y: string)
    ensures TrimLeadingZeros(Repeat('0', k) + y) == TrimLeadingZeros(y)
  {
    if k == 0 {
      assert Repeat('0', 0) + y == y;
    } else {
      var s := Repeat('0', k) + y;
      assert s[1..] == Repeat('0', k - 1) + y;
      TrimAfterZeros(k - 1, y);
    }
  }

  /** Padding to sixteen digits does not change the year TimeValue stores. */
  lemma PadNormalizes(year: string)
    requires IsDigits(year) && |year| <= 16
    ensures NormalizeYear(PadYear(year)) == NormalizeYear(year)
  {
    var p := PadYear(year);
    assert TrimLeadingZeros(p) == TrimLeadingZeros(year) by {
      assert p == Repeat('0', 16 - |year|) + year;
      TrimAfterZeros(16 - |year|, year);
    }
    SameTrim(p, year);
  }

  /** The normalised year depends only on the year with its leading zeros trimmed. */
  lemma SameTrim(y: string, z: string)
    requires IsDigits(y) && |y| <= 16 && IsDigits(z) && |z| <= 16
    requires TrimLeadingZeros(y) == TrimLeadingZeros(z)
    ensures NormalizeYear(y) == NormalizeYear(z)
  {
  }

  /**
   * A stamp TimeValue can hold parses to the same stamp, with the calendar
   * the option names (Gregorian unless it mentions a canonical URI) and the
   * precision its fields show, unless a precision option below year1G is taken.
   */
  lemma ParseFormatted(options: Options, parseCalendar: string -> Result<string, ParseError>, st: Stamp)
    requires WellFormed(st) && InRange(st)
    ensures var r, d := Parse(options, parseCalendar, Format(st)), PrecisionFromParts(Padded(PartsOf(st)));
      && (r.Ok? <==> PRECISION_YEAR1G <= ChoosePrecision(options.precision, d))
      && (r.Ok? ==> && ParseStamp(r.value.timestamp) == Some(st.(year := NormalizeYear(st.year)))
                    && r.value.precision == ChoosePrecision(options.precision, d)
                    && r.value.calendarModel == ChooseCalendar(options.calendar.GetOr(CALENDAR_GREGORIAN), "", parseCalendar).value)
  {
    var p := PartsOf(st);
    var r := Assemble(options, parseCalendar, p);
    ParseOfFormat(options, parseCalendar, st);
    PaddedStamp(st);
    NamelessCalendar(options.calendar.GetOr(CALENDAR_GREGORIAN), parseCalendar);
    assert CalendarOf(options, parseCalendar, p) == ChooseCalendar(options.calendar.GetOr(CALENDAR_GREGORIAN), "", parseCalendar);
  }

  /** Without a name in the input the calendar is never refused and never empty. */
  lemma NamelessCalendar(calendarOption: string, parseCalendar: string -> Result<string, ParseError>)
    ensures ChooseCalendar(calendarOption, "", parseCalendar).Ok?
    ensures ChooseCalendar(calendarOption, "", parseCalendar).value != ""
  {
    if MentionsCanonicalUri(calendarOption) {
      var i :| 0 <= i <= |calendarOption| && (MatchesAt(calendarOption, i, GREGORIAN_FOLDED) || MatchesAt(calendarOption, i, JULIAN_FOLDED));
    }
  }

  lemma ParseOfFormat(options: Options, parseCalendar: string -> Result<string, ParseError>, st: Stamp)
    requires WellFormed(st)
    ensures Parse(options, parseCalendar, Format(st)) == Assemble(options, parseCalendar, PartsOf(st))
  {
    MatchFormat(st);
  }

  /** The stamp written after padding is the formatted one with a longer year. */
  lemma PaddedStamp(st: Stamp)
    requires WellFormed(st) && InRange(st)
    ensures var q := Padded(PartsOf(st));
      && InRange(StampOf(q))
      && StampOf(q).(year := NormalizeYear(q.year)) == st.(year := NormalizeYear(st.year))
  {
    PadNormalizes(st.year);
  }

  /** Every timestamp a TimeValue holds is read back unchanged. */
  lemma ParseOwnTimestamp(options: Options, parseCalendar: string -> Result<string, ParseError>, v: TimeValue)
    requires Valid(v)
    ensures var r := Parse(options, parseCalendar, v.timestamp);
      r.Ok? ==> r.value.timestamp == v.timestamp
  {
    var st := ParseStamp(v.timestamp).value;
    ParseFormatted(options, parseCalendar, st);
  }

  // ---------------------------------------------------------------------------
  // The year's precision

  /** Zeros in front leave the trailing zeros of a year with a non-zero digit as they were. */
  lemma {:induction false} TrailingZerosPadded(k: nat, y: string, i: nat)
    requires i < |y| && y[i] != '0'
    ensures TrailingZeros(Repeat('0', k) + y) == TrailingZeros(y)
    decreases |y|
  {
    var s := Repeat('0', k) + y;
    assert s[|s| - 1] == y[|y| - 1];
    if y[|y| - 1] == '0' {
      assert s[..|s| - 1] == Repeat('0', k) + y[..|y| - 1];
      TrailingZerosPadded(k, y[..|y| - 1], i);
    }
  }

  /**
   * The precision the padded year gives: the unpadded year's when it has a
   * non-zero digit, year1G when it is all zeros (sixteen trailing zeros).
   */
  lemma PaddedYearPrecision(year: string)
    requires IsDigits(year) && 1 <= |year| <= 16
    ensures (exists i | 0 <= i < |year| :: year[i] != '0') ==> YearPrecision(PadYear(year)) == YearPrecision(year)
    ensures (forall i | 0 <= i < |year| :: year[i] == '0') ==> YearPrecision(PadYear(year)) == PRECISION_YEAR1G
  {
    var r := PadYear(year);
    if i :| 0 <= i < |year| && year[i] != '0' {
      TrailingZerosPadded(16 - |year|, year, i);
    } else {
      assert forall j | 0 <= j < |r| :: r[j] == '0' by {
        forall j | 0 <= j < |r| ensures r[j] == '0' {
          if j >= 16 - |year| { assert r[j] == year[j - (16 - |year|)]; }
        }
      }
    }
  }

  /**
   * Above the year 4000 the legacy parser and the ISO parser give the same year
   * precision; at or below it the ISO parser always says year.
   */
  lemma AgreesWithIsoAbove4000(year: string)
    requires IsDigits(year) && 1 <= |year| <= 16 && Value(year) > 4000
    ensures YearPrecision(PadYear(year)) == PrecisionFromYear(year)
  {
    if forall i | 0 <= i < |year| :: year[i] == '0' {
      ValueOfZeroString(year);
    }
    PaddedYearPrecision(year);
  }

  /** "2000" has three trailing zeros: millennium precision here, year precision in the ISO parser. */
  lemma ThousandExample(year: string)
    requires year == "0000000000002000"
    ensures YearPrecision(year) == PRECISION_YEAR1K
    ensures PrecisionFromYear(year) == PRECISION_YEAR
  {
    assert TrailingZeros(year[..13]) == 0;
    assert year[..13][..12] == "000000000000";
    ValueLeadingZeros(12, "2000");
    assert year == Repeat('0', 12) + "2000";
    ValueOfFour('2', '0', '0', '0');
  }

  /** Ten trailing zeros would be precision -1; it stops at year1G. */
  lemma ClampedExample(year: string)
    requires year == "0000020000000000"
    ensures YearPrecision(year) == PRECISION_YEAR1G
  {
    assert year[..6] == "000002";
    assert TrailingZeros(year[..6]) == 0;
  }

  // ---------------------------------------------------------------------------
  // The calendar

  /** The canonical URIs, folded to lower case, are the folded constants. */
  lemma FoldedGregorian()
    ensures MatchesAt(CALENDAR_GREGORIAN, 0, GREGORIAN_FOLDED)
  {
    assert ToLower(CALENDAR_GREGORIAN) == GREGORIAN_FOLDED;
  }

  lemma FoldedJulian()
    ensures MatchesAt(CALENDAR_JULIAN, 0, JULIAN_FOLDED)
  {
    assert ToLower(CALENDAR_JULIAN) == JULIAN_FOLDED;
  }

  /**
   * An option that contains a canonical URI anywhere, in any case, is taken
   * as written when the input names no calendar.
   */
  lemma OptionMentioningUri(before: string, uri: string, after: string,
                            parseCalendar: string -> Result<string, ParseError>)
    requires uri == CALENDAR_GREGORIAN || uri == CALENDAR_JULIAN
             || uri == GREGORIAN_FOLDED || uri == JULIAN_FOLDED
    ensures ChooseCalendar(before + uri + after, "", parseCalendar) == Ok(before + uri + after)
  {
    var s := before + uri + after;
    FoldedGregorian();
    FoldedJulian();
    assert s[|before|..|before| + |uri|] == uri;
    if uri == CALENDAR_GREGORIAN || uri == GREGORIAN_FOLDED {
      assert MatchesAt(s, |before|, GREGORIAN_FOLDED);
    } else {
      assert MatchesAt(s, |before|, JULIAN_FOLDED);
    }
  }

  /** An option too short to hold a URI is ignored: Gregorian. */
  lemma ShortOptionIgnored(calendarOption: string, parseCalendar: string -> Result<string, ParseError>)
    requires |calendarOption| < |GREGORIAN_FOLDED|
    ensures ChooseCalendar(calendarOption, "", parseCalendar) == Ok(CALENDAR_GREGORIAN)
  {
  }

  // ---------------------------------------------------------------------------
  // A calendar name after the timestamp

  /** The three parts of the pattern matched one after the other. */
  lemma MatchSteps(s: string, d: DateMatch, c: TimeMatch, w: string)
    requires LegacyDateAt(s) == Some(d) && LegacyClockAt(s, d.end) == Some(c)
    requires c.end <= |s| && SuffixAt(s, c.end) == Some(w)
    ensures MatchTime(s) == Some(IsoParts(d.sign, d.year, d.month, d.day, c.hour, c.minute, c.second, w))
  {
  }

  /** A sign, the year digits up to index t, then a stamp's fixed-width tail. */
  predicate StampShaped(s: string, t: nat) {
    2 <= t <= 17 && t + 16 <= |s| && IsLegacySign(s[0]) && IsDigits(s[1..t]) && TailShapeAt(s, t)
  }

  /** The date part of a stamp-shaped string. */
  lemma DateAtShape(s: string, t: nat)
    requires StampShaped(s, t)
    ensures LegacyDateAt(s) == Some(DateMatch([s[0]], s[1..t], s[t + 1..t + 3], s[t + 4..t + 6], t + 6))
  {
    DigitRunOf(s, 1, t - 1);
    NoUnicodeSpaceAt(s, 0);
    NoUnicodeSpaceAt(s, 1);
  }

  /** The time part of a stamp-shaped string. */
  lemma ClockAtShape(s: string, t: nat)
    requires StampShaped(s, t)
    ensures LegacyClockAt(s, t + 6) == Some(TimeMatch(s[t + 7..t + 9], s[t + 10..t + 12], s[t + 13..t + 15], t + 15))
  {
  }

  /** Text after a stamp-shaped string leaves its shape and its fields alone. */
  lemma ShapeThen(f: string, rest: string, t: nat)
    requires StampShaped(f, t)
    ensures var s := f + rest;
      && StampShaped(s, t) && s[0] == f[0] && s[1..t] == f[1..t]
      && s[t + 1..t + 3] == f[t + 1..t + 3] && s[t + 4..t + 6] == f[t + 4..t + 6]
      && s[t + 7..t + 9] == f[t + 7..t + 9] && s[t + 10..t + 12] == f[t + 10..t + 12]
      && s[t + 13..t + 15] == f[t + 13..t + 15] && s[t + 15] == f[t + 15]
  {
    var s := f + rest;
    assert s[..|f|] == f;
    assert s[1..t] == f[1..t];
  }

  /** A formatted stamp is stamp-shaped, its fields where FormatFields puts them. */
  lemma FormatShaped(st: Stamp)
    requires WellFormed(st)
    ensures var f, t := Format(st), |st.year| + 1;
      && StampShaped(f, t) && [f[0]] == [st.sign] && f[1..t] == st.year
      && f[t + 1..t + 3] == st.month && f[t + 4..t + 6] == st.day
      && f[t + 7..t + 9] == st.hour && f[t + 10..t + 12] == st.minute
      && f[t + 13..t + 15] == st.second && f[t + 15] == 'Z' && |f| == t + 16
  {
    FormatFields(st);
  }

  /** ` (Gregorian)` or ` (Julian)`, in any case, after the `Z`: the name is captured. */
  lemma SuffixNamed(s: string, i: nat, w: string)
    requires IsCalendarWord(w) && w != ""
    requires |s| == i + 4 + |w| && s[i] == 'Z' && s[i + 1] == ' ' && s[i + 2] == '('
    requires s[i + 3..i + 3 + |w|] == w && s[i + 3 + |w|] == ')'
    ensures SuffixAt(s, i) == Some(w)
  {
    NamedWordAt(s, i + 3, w);
    assert LowerChar(s[i]) == 'z';
    OneUnicodeSpaceAt(s, i + 1);
    NoUnicodeSpaceAt(s, i + 3);
    NoUnicodeSpaceAt(s, i + 3 + |w|);
    NoUnicodeSpaceAt(s, |s|);
    SuffixAtParenthesised(s, i, i + 2, i + 3, |w|, i + 3 + |w|);
  }

  /** A calendar name written at index c is read there, whatever its case. */
  lemma NamedWordAt(s: string, c: nat, w: string)
    requires IsCalendarWord(w) && w != ""
    requires c + |w| <= |s| && s[c..c + |w|] == w
    ensures CalendarWordAt(s, c) == |w| && !IsUnicodeSpace(s[c])
  {
    assert s[c] == w[0];
    if |w| == 9 {
      assert LowerChar(w[0]) == "gregorian"[0];
      MatchesAtSlice(s, c, w, "gregorian");
    } else {
      assert LowerChar(w[0]) == "julian"[0];
      MatchesAtSlice(s, c, w, "julian");
    }
  }

  /** A literal matched by a slice is matched at the slice's start. */
  lemma MatchesAtSlice(s: string, c: nat, w: string, lit: string)
    requires c + |w| <= |s| && s[c..c + |w|] == w && |w| == |lit| && MatchesAt(w, 0, lit)
    ensures MatchesAt(s, c, lit)
  {
    forall k | 0 <= k < |lit| ensures LowerChar(s[c + k]) == lit[k] {
      assert s[c + k] == w[k];
    }
  }

  /** The parenthesised name after a stamp, character by character. */
  lemma NamedLayout(f: string, w: string)
    requires |f| >= 1
    ensures var s, i := f + " (" + w + ")", |f| - 1;
      && |s| == i + 4 + |w| && s[i] == f[i] && s[i + 1] == ' ' && s[i + 2] == '('
      && s[i + 3..i + 3 + |w|] == w && s[i + 3 + |w|] == ')'
  {
    var s := f + " (" + w + ")";
    assert s == f + " (" + w + ")";
  }

  /** A stamp followed by a calendar name in parentheses: the name goes to the calendar model parser. */
  lemma MatchNamed(st: Stamp, w: string)
    requires WellFormed(st) && IsCalendarWord(w) && w != ""
    ensures MatchTime(Format(st) + " (" + w + ")") == Some(PartsOf(st).(calendar := w))
  {
    var f, t := Format(st), |st.year| + 1;
    var s := f + " (" + w + ")";
    FormatShaped(st);
    assert s == f + (" (" + w + ")");
    ShapeThen(f, " (" + w + ")", t);
    DateAtShape(s, t);
    ClockAtShape(s, t);
    NamedLayout(f, w);
    SuffixNamed(s, t + 15, w);
    MatchSteps(s, DateMatch([s[0]], s[1..t], s[t + 1..t + 3], s[t + 4..t + 6], t + 6),
               TimeMatch(s[t + 7..t + 9], s[t + 10..t + 12], s[t + 13..t + 15], t + 15), w);
  }

  /**
   * A stamp TimeValue can hold, followed by a calendar name: the calendar is
   * whatever the calendar model parser makes of the name, whatever the option
   * says, and its errors are passed on.
   */
  lemma ParseNamed(options: Options, parseCalendar: string -> Result<string, ParseError>, st: Stamp, w: string)
    requires WellFormed(st) && InRange(st) && IsCalendarWord(w) && w != ""
    ensures var r, d := Parse(options, parseCalendar, Format(st) + " (" + w + ")"), PrecisionFromParts(Padded(PartsOf(st)));
      && (parseCalendar(w).Err? ==> r == Err(parseCalendar(w).error))
      && (r.Ok? <==> && parseCalendar(w).Ok? && parseCalendar(w).value != ""
                     && PRECISION_YEAR1G <= ChoosePrecision(options.precision, d))
      && (r.Ok? ==> && ParseStamp(r.value.timestamp) == Some(st.(year := NormalizeYear(st.year)))
                    && r.value.precision == ChoosePrecision(options.precision, d)
                    && r.value.calendarModel == parseCalendar(w).value)
  {
    var p := PartsOf(st).(calendar := w);
    var r := Assemble(options, parseCalendar, p);
    ParseOfNamed(options, parseCalendar, st, w);
    NamedPadded(st, w);
    assert CalendarOf(options, parseCalendar, p) == parseCalendar(w);
  }

  lemma ParseOfNamed(options: Options, parseCalendar: string -> Result<string, ParseError>, st: Stamp, w: string)
    requires WellFormed(st) && IsCalendarWord(w) && w != ""
    ensures Parse(options, parseCalendar, Format(st) + " (" + w + ")")
         == Assemble(options, parseCalendar, PartsOf(st).(calendar := w))
  {
    MatchNamed(st, w);
  }

  /** The calendar name changes nothing but the calendar. */
  lemma NamedPadded(st: Stamp, w: string)
    requires WellFormed(st) && InRange(st) && IsCalendarWord(w)
    ensures var q, n := Padded(PartsOf(st)), Padded(PartsOf(st).(calendar := w));
      && InRange(StampOf(n))
      && StampOf(n).(year := NormalizeYear(n.year)) == st.(year := NormalizeYear(st.year))
      && PrecisionFromParts(n) == PrecisionFromParts(q)
  {
    PaddedStamp(st);
    assert Padded(PartsOf(st).(calendar := w)) == Padded(PartsOf(st)).(calendar := w);
    RenamedParts(Padded(PartsOf(st)), w);
  }

  lemma RenamedParts(q: IsoParts, w: string)
    requires LegacyCaptured(q) && IsCalendarWord(w)
    ensures PrecisionFromParts(q.(calendar := w)) == PrecisionFromParts(q)
    ensures q.sign != "" ==> StampOf(q.(calendar := w)) == StampOf(q)
  {
  }

  /** The calendar model parser the tests inject reads the captured names as the canonical URIs. */
  lemma CalenderNames(w: string)
    requires IsCalendarWord(w) && w != ""
    ensures |w| == 9 ==> ParseCalenderModel(w) == Ok(CALENDAR_GREGORIAN)
    ensures |w| == 6 ==> ParseCalenderModel(w) == Ok(CALENDAR_JULIAN)
  {
    if |w| == 9 {
      assert ToLower(w) == "gregorian";
    } else {
      assert ToLower(w) == "julian";
    }
  }

  /**
   * `+0000000000000001-01-14T00:00:00Z (Julian)` with the default options:
   * day precision, the Julian calendar, the year stored as 0001.
   */
  lemma JulianExample(st: Stamp, w: string, stored: Stamp)
    requires st == Stamp('+', "0000000000000001", "01", "14", "00", "00", "00") && w == "Julian"
    requires stored == Stamp('+', "0001", "01", "14", "00", "00", "00")
    ensures WellFormed(st) && WellFormed(stored)
    ensures var r := Parse(DEFAULT_OPTIONS, ParseCalenderModel, Format(st) + " (" + w + ")");
      && r.Ok? && r.value.timestamp == Format(stored)
      && r.value.precision == PRECISION_DAY && r.value.calendarModel == CALENDAR_JULIAN
  {
    ExampleStamp(st);
    JulianWord(w);
    ExampleYear(st.year);
    assert st.(year := NormalizeYear(st.year)) == stored;
    DayPrecision(Padded(PartsOf(st)));
    assert ChoosePrecision(DEFAULT_OPTIONS.precision, PRECISION_DAY) == PRECISION_DAY;
    ParseNamed(DEFAULT_OPTIONS, ParseCalenderModel, st, w);
    var r := Parse(DEFAULT_OPTIONS, ParseCalenderModel, Format(st) + " (" + w + ")");
    assert r.Ok?;
    assert ParseStamp(r.value.timestamp) == Some(stored);
  }

  /** A set day and no time of day: DAY precision. */
  lemma DayPrecision(q: IsoParts)
    requires q.second == "00" && q.minute == "00" && q.hour == "00" && q.day != "00"
    ensures PrecisionFromParts(q) == PRECISION_DAY
  {
  }

  lemma ExampleStamp(st: Stamp)
    requires st == Stamp('+', "0000000000000001", "01", "14", "00", "00", "00")
    ensures WellFormed(st) && InRange(st)
  {
    ValueOfTwo('0', '1');
    ValueOfTwo('1', '4');
    ValueOfTwo('0', '0');
  }

  lemma ExampleYear(y: string)
    requires y == "0000000000000001"
    ensures IsDigits(y) && NormalizeYear(y) == "0001"
  {
    assert y == Repeat('0', 15) + "1";
    TrimAfterZeros(15, "1");
    assert TrimLeadingZeros(y) == "1";
  }

  lemma JulianWord(w: string)
    requires w == "Julian"
    ensures IsCalendarWord(w) && w != "" && ParseCalenderModel(w) == Ok(CALENDAR_JULIAN)
  {
    assert MatchesAt(w, 0, "julian");
    CalenderNames(w);
  }
}
