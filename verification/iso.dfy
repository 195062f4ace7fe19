/**
 * IsoTimestampParser: a year-month-day timestamp with an optional time of day,
 * an optional `Z` and an optional calendar name, completed with an inferred
 * precision and calendar model. Source: src/ValueParsers/IsoTimestampParser.php.
 */
module IsoTimestamps {
  import opened Results
  import opened Text
  import opened TimeValues
  import opened Parsing
  import opened CalendarModels

  /** U+2212, the typographic minus sign the grammar accepts in place of '-'. */
  const MINUS_SIGN: char := '\U{2212}'

  predicate IsSignChar(c: char) {
    c == '+' || c == '-' || c == MINUS_SIGN
  }

  /** The eight captured groups of the timestamp pattern; a group that did not take part is "". */
  datatype IsoParts = IsoParts(sign: string, year: string, month: string, day: string,
                               hour: string, minute: string, second: string, calendar: string)

  predicate TwoDigitsAt(s: string, i: nat) {
    i + 2 <= |s| && IsDigit(s[i]) && IsDigit(s[i + 1])
  }

  predicate OptTwoDigits(s: string) {
    s == "" || IsTwoDigits(s)
  }

  /** `(Gregorian|Julian|)` under the case-insensitive flag. */
  predicate IsCalendarWord(c: string) {
    c == "" || (|c| == 9 && MatchesAt(c, 0, "gregorian")) || (|c| == 6 && MatchesAt(c, 0, "julian"))
  }

  /** What a successful match can capture. */
  predicate Captured(p: IsoParts) {
    && (p.sign == "" || (|p.sign| == 1 && IsSignChar(p.sign[0])))
    && 1 <= |p.year| <= 16 && IsDigits(p.year)
    && IsTwoDigits(p.month) && IsTwoDigits(p.day)
    && OptTwoDigits(p.hour) && OptTwoDigits(p.minute) && OptTwoDigits(p.second)
    && (p.hour == "" <==> p.minute == "")
    && (p.hour == "" ==> p.second == "")
  }

  /** The time-of-day group: hour, minute, optional second, and the index after it. */
  datatype TimeMatch = TimeMatch(hour: string, minute: string, second: string, end: nat)

  /**
   * `(?:T(\d{2}):?(\d{2})(?::?(\d{2}))?)?` at index i. Without a `T` the group is
   * skipped; a `T` that does not start a complete group leaves nothing the rest of
   * the pattern could match, so the whole match fails (None).
   */
  function TimeAt(s: string, i: nat): (r: Option<TimeMatch>)
    requires i <= |s|
    ensures r.Some? ==> i <= r.value.end <= |s|
    ensures r.Some? ==> OptTwoDigits(r.value.hour) && OptTwoDigits(r.value.minute) && OptTwoDigits(r.value.second)
    ensures r.Some? ==> (r.value.hour == "" <==> r.value.minute == "")
    ensures r.Some? && r.value.hour == "" ==> r.value == TimeMatch("", "", "", i)
    ensures (i == |s| || LowerChar(s[i]) != 't') ==> r == Some(TimeMatch("", "", "", i))
  {
    if i == |s| || LowerChar(s[i]) != 't' then Some(TimeMatch("", "", "", i))
    else if !TwoDigitsAt(s, i + 1) then None
    else
      var m := if i + 3 < |s| && s[i + 3] == ':' then i + 4 else i + 3;
      if !TwoDigitsAt(s, m) then None
      else
        var e := m + 2;
        TwoDigitsSlice(s, i + 1);
        TwoDigitsSlice(s, m);
        if e < |s| && s[e] == ':' && TwoDigitsAt(s, e + 1) then
          TwoDigitsSlice(s, e + 1);
          Some(TimeMatch(s[i + 1..i + 3], s[m..e], s[e + 1..e + 3], e + 3))
        else if TwoDigitsAt(s, e) then
          TwoDigitsSlice(s, e);
          Some(TimeMatch(s[i + 1..i + 3], s[m..e], s[e..e + 2], e + 2))
        else
          Some(TimeMatch(s[i + 1..i + 3], s[m..e], "", e))
  }

  /** Two digits at index i, cut out. */
  lemma TwoDigitsSlice(s: string, i: nat)
    requires TwoDigitsAt(s, i)
    ensures IsTwoDigits(s[i..i + 2]) && s[i..i + 2] != ""
  {
    assert s[i..i + 2][0] == s[i] && s[i..i + 2][1] == s[i + 1];
  }

  /** The length of the calendar name at index i, or 0 when none starts there. */
  function CalendarWordAt(s: string, i: nat): (w: nat)
    requires i <= |s|
    ensures i + w <= |s|
    ensures IsCalendarWord(s[i..i + w])
  {
    if MatchesAt(s, i, "gregorian") then
      MatchesSlice(s, i, "gregorian");
      9
    else if MatchesAt(s, i, "julian") then
      MatchesSlice(s, i, "julian");
      6
    else
      0
  }

  lemma MatchesSlice(s: string, i: nat, lit: string)
    requires MatchesAt(s, i, lit)
    ensures MatchesAt(s[i..i + |lit|], 0, lit)
  {
    forall k | 0 <= k < |lit| ensures LowerChar(s[i..i + |lit|][k]) == lit[k] {
      assert s[i..i + |lit|][k] == s[i + k];
    }
  }

  /** The sign, year, month and day of a match, and the index after the day. */
  datatype DateMatch = DateMatch(sign: string, year: string, month: string, day: string, end: nat)

  /** `^\s*([-+\x{2212}]?)\s*(\d{1,16})-(\d{2})-(\d{2})`. */
  function DateAt(s: string): (r: Option<DateMatch>)
    ensures r.Some? ==> r.value.end <= |s|
    ensures r.Some? ==> r.value.sign == "" || (|r.value.sign| == 1 && IsSignChar(r.value.sign[0]))
    ensures r.Some? ==> 1 <= |r.value.year| <= 16 && IsDigits(r.value.year)
    ensures r.Some? ==> IsTwoDigits(r.value.month) && IsTwoDigits(r.value.day)
  {
    var i0 := SkipUnicodeSpaces(s, 0);
    var signed := i0 < |s| && IsSignChar(s[i0]);
    var i1 := SkipUnicodeSpaces(s, if signed then i0 + 1 else i0);
    var n := DigitRun(s, i1);
    var y := i1 + n;
    if !(1 <= n <= 16 && y + 6 <= |s| && s[y] == '-' && TwoDigitsAt(s, y + 1)
         && s[y + 3] == '-' && TwoDigitsAt(s, y + 4)) then None
    else
      Some(DateMatch(if signed then [s[i0]] else "", s[i1..y], s[y + 1..y + 3], s[y + 4..y + 6], y + 6))
  }

  /**
   * `Z?\s*\(?\s*(Gregorian|Julian|)\s*\)?\s*$` from index i: the calendar name,
   * or None when characters are left over.
   */
  function SuffixAt(s: string, i: nat): (r: Option<string>)
    requires i <= |s|
    ensures r.Some? ==> IsCalendarWord(r.value)
    ensures i == |s| ==> r == Some("")
  {
    NameFrom(s, SkipUnicodeSpaces(s, Past(s, i, 'Z')))
  }

  /** The suffix after its `Z` and the blanks that follow it. */
  function NameFrom(s: string, o: nat): (r: Option<string>)
    requires o <= |s|
    ensures r.Some? ==> IsCalendarWord(r.value)
    ensures o == |s| ==> r == Some("")
  {
    var c := SkipUnicodeSpaces(s, Past(s, o, '('));
    var w := CalendarWordAt(s, c);
    var e := SkipUnicodeSpaces(s, c + w);
    if SkipUnicodeSpaces(s, Past(s, e, ')')) != |s| then None else Some(s[c..c + w])
  }

  /** Past an optional literal at k: one further when it is there, in any case for a letter. */
  function Past(s: string, k: nat, lit: char): (j: nat)
    requires k <= |s|
    ensures k <= j <= |s| && j <= k + 1
  {
    if k < |s| && LowerChar(s[k]) == LowerChar(lit) then k + 1 else k
  }

  /**
   * The pattern of splitTimeString as a recogniser. Every optional part is
   * decided by its first character, so the match is unique and no backtracking
   * is needed.
   */
  function SplitIso(s: string): (r: Option<IsoParts>)
    ensures r.Some? ==> Captured(r.value) && IsCalendarWord(r.value.calendar)
  {
    match DateAt(s)
    case None => None
    case Some(d) =>
      match TimeAt(s, d.end)
      case None => None
      case Some(t) =>
        match SuffixAt(s, t.end)
        case None => None
        case Some(c) => Some(IsoParts(d.sign, d.year, d.month, d.day, t.hour, t.minute, t.second, c))
  }

  /** The numeric value of each field, as PHP compares numeric strings; an absent field is 0. */
  datatype Numbers = Numbers(year: nat, month: nat, day: nat, hour: nat, minute: nat, second: nat)

  function NumbersOf(p: IsoParts): (n: Numbers)
    requires Captured(p)
  {
    Numbers(Value(p.year), Value(p.month), Value(p.day), Value(p.hour), Value(p.minute), Value(p.second))
  }

  /** The ambiguity guard: too little to tell a short year from a day. */
  predicate Ambiguous(p: IsoParts)
    requires Captured(p)
  {
    p.sign == "" && |p.year| < 3 && NumbersOf(p).year < 32 && p.hour == ""
  }

  /** The range checks of splitTimeString. */
  predicate InBounds(n: Numbers) {
    && n.month <= 12 && n.day <= 31 && n.hour <= 23 && n.minute <= 59 && n.second <= 61
    && !(n.month < 1 && n.day > 0)
    && !(n.day < 1 && (n.hour > 0 || n.minute > 0 || n.second > 0))
  }

  /** What splitTimeString returns: captured, in bounds, and with the sign replaced by '-' or '+'. */
  predicate Accepted(p: IsoParts) {
    Captured(p) && PlainSign(p) && InBounds(NumbersOf(p))
  }

  predicate PlainSign(p: IsoParts) {
    p.sign == "" || p.sign == "+" || p.sign == "-"
  }

  /** The message of the first check a match fails, in the order splitTimeString checks. */
  function CheckError(p: IsoParts): (e: Option<string>)
    requires Captured(p)
    ensures e.None? <==> !Ambiguous(p) && InBounds(NumbersOf(p))
  {
    var n := NumbersOf(p);
    if Ambiguous(p) then Some("Not enough information to decide if the format is YMD")
    else if n.month > 12 then Some("Month out of range")
    else if n.day > 31 then Some("Day out of range")
    else if n.hour > 23 then Some("Hour out of range")
    else if n.minute > 59 then Some("Minute out of range")
    else if n.second > 61 then Some("Second out of range")
    else if n.month < 1 && n.day > 0 then Some("Cannot have a day with no month")
    else if n.day < 1 && (n.hour > 0 || n.minute > 0 || n.second > 0) then
      Some("Cannot have hour, minute or second with no day")
    else None
  }

  /** The sign with a Unicode minus (U+2212) read as an ASCII minus. */
  function NormalSign(sign: string): (r: string)
    requires sign == "" || (|sign| == 1 && IsSignChar(sign[0]))
    ensures r == "" || r == "+" || r == "-"
    ensures |r| == |sign| && (sign == [MINUS_SIGN] <==> r == "-" && sign != "-")
  {
    if sign == [MINUS_SIGN] then "-" else sign
  }

  /** splitTimeString: the match, the guard, the range checks in source order, then U+2212 becomes '-'. */
  function SplitTimeString(value: string): (r: Result<IsoParts, ParseError>)
    ensures SplitIso(value).None? ==> r == Err(ParseError("Malformed time"))
    ensures r.Ok? ==> Accepted(r.value)
    ensures r.Ok? <==> var m := SplitIso(value);
      m.Some? && !Ambiguous(m.value) && InBounds(NumbersOf(m.value))
    ensures r.Ok? ==> var m := SplitIso(value).value;
      r.value == m.(sign := NormalSign(m.sign))
  {
    match SplitIso(value)
    case None => Err(ParseError("Malformed time"))
    case Some(p) =>
      match CheckError(p)
      case Some(message) => Err(ParseError(message))
      case None => Accept(p)
  }

  function Accept(p: IsoParts): (r: Result<IsoParts, ParseError>)
    requires Captured(p) && InBounds(NumbersOf(p))
    ensures r.Ok? && Accepted(r.value) && r.value == p.(sign := NormalSign(p.sign))
  {
    var q := p.(sign := NormalSign(p.sign));
    assert NumbersOf(q) == NumbersOf(p);
    Ok(q)
  }

  /** A field zero-padded on the left to two digits, as `%02s` writes an empty or two-digit field. */
  function Pad2(f: string): (r: string)
    requires OptTwoDigits(f)
    ensures IsTwoDigits(r) && Value(r) == Value(f)
    ensures f != "" ==> r == f
  {
    if f == "" then "00" else f
  }

  /** The year zero-padded on the left to at least four digits, as `%04s` writes it. */
  function Pad4(y: string): (r: string)
    requires IsDigits(y) && |y| <= 16
    ensures IsDigits(r) && |r| == (if |y| >= 4 then |y| else 4) && Value(r) == Value(y)
    ensures r[|r| - |y|..] == y && forall i | 0 <= i < |r| - |y| :: r[i] == '0'
  {
    if |y| >= 4 then y
    else
      var z := "0000"[..4 - |y|];
      ZerosPrefix(z, y);
      z + y
  }

  lemma ZerosPrefix(z: string, y: string)
    requires IsDigits(y) && forall i | 0 <= i < |z| :: z[i] == '0'
    ensures IsDigits(z + y) && Value(z + y) == Value(y)
  {
    ValueOfZeroString(z);
    ValueAppend(z, y);
  }

  lemma {:induction false} ValueOfZeroString(z: string)
    requires forall i | 0 <= i < |z| :: z[i] == '0'
    ensures IsDigits(z) && Value(z) == 0
  {
    if |z| > 0 {
      ValueOfZeroString(z[..|z| - 1]);
    }
  }

  /**
   * The stamp the format `%'+1s%04s-%s-%sT%02s:%02s:%02sZ` writes: an empty sign
   * becomes '+', the year gets at least four digits and the time fields two.
   */
  function IsoStamp(p: IsoParts): (st: Stamp)
    requires Captured(p) && PlainSign(p)
    ensures WellFormed(st)
  {
    Stamp(if p.sign == "" then '+' else p.sign[0], Pad4(p.year), p.month, p.day,
          Pad2(p.hour), Pad2(p.minute), Pad2(p.second))
  }

  /** The written timestamp spelled out as the format string lays it down. */
  lemma TimestampText(p: IsoParts)
    requires Accepted(p)
    ensures Format(IsoStamp(p)) ==
      (if p.sign == "" then "+" else p.sign) + Pad4(p.year)
      + ("-" + p.month + "-" + p.day + "T" + Pad2(p.hour) + ":" + Pad2(p.minute) + ":" + Pad2(p.second) + "Z")
  {
    var st := IsoStamp(p);
    assert [st.sign] == (if p.sign == "" then "+" else p.sign);
    TailText(st);
  }

  lemma TailText(st: Stamp)
    requires WellFormed(st)
    ensures Tail(st) == "-" + st.month + "-" + st.day + "T" + st.hour + ":" + st.minute + ":" + st.second + "Z"
  {
    assert st.month == [st.month[0], st.month[1]];
    assert st.day == [st.day[0], st.day[1]];
    assert st.hour == [st.hour[0], st.hour[1]];
    assert st.minute == [st.minute[0], st.minute[1]];
    assert st.second == [st.second[0], st.second[1]];
  }

  /** The bounds checked while splitting are exactly those TimeValue will check again. */
  lemma StampInRange(p: IsoParts)
    requires Accepted(p)
    ensures InRange(IsoStamp(p))
  {
    var st, n := IsoStamp(p), NumbersOf(p);
    assert Value(st.month) == n.month && Value(st.day) == n.day;
    TimeNumbers(p);
  }

  lemma TimeNumbers(p: IsoParts)
    requires Captured(p) && PlainSign(p)
    ensures var st, n := IsoStamp(p), NumbersOf(p);
      Value(st.hour) == n.hour && Value(st.minute) == n.minute && Value(st.second) == n.second
  {
    var st := IsoStamp(p);
    assert st.hour == Pad2(p.hour) && st.minute == Pad2(p.minute) && st.second == Pad2(p.second);
  }

  /** getPrecisionFromYear: YEAR up to 4000, otherwise one step coarser per trailing zero, down to 1G years. */
  function PrecisionFromYear(year: string): (d: int)
    requires IsDigits(year)
    ensures PRECISION_YEAR1G <= d <= PRECISION_YEAR
    ensures Value(year) <= 4000 ==> d == PRECISION_YEAR
  {
    if Value(year) <= 4000 then PRECISION_YEAR
    else if TrailingZeros(year) >= PRECISION_YEAR then PRECISION_YEAR1G
    else PRECISION_YEAR - TrailingZeros(year)
  }

  /** Every field finer than precision d is zero; a day only counts together with a month. */
  predicate ZeroBelow(n: Numbers, d: int) {
    && (d < PRECISION_SECOND ==> n.second == 0)
    && (d < PRECISION_MINUTE ==> n.minute == 0)
    && (d < PRECISION_HOUR ==> n.hour == 0)
    && (d < PRECISION_DAY ==> n.day == 0 || n.month == 0)
    && (d < PRECISION_MONTH ==> n.month == 0)
  }

  /**
   * The precision getPrecision detects before looking at the option: the finest
   * field that is not zero, or else what the year alone tells.
   */
  function DetectedPrecision(p: IsoParts): (d: int)
    requires Captured(p)
    ensures PRECISION_YEAR1G <= d <= PRECISION_SECOND
    ensures ZeroBelow(NumbersOf(p), d)
    ensures d > PRECISION_YEAR ==> !ZeroBelow(NumbersOf(p), d - 1)
    ensures d <= PRECISION_YEAR ==> d == PrecisionFromYear(p.year)
  {
    var n := NumbersOf(p);
    if n.second > 0 then PRECISION_SECOND
    else if n.minute > 0 then PRECISION_MINUTE
    else if n.hour > 0 then PRECISION_HOUR
    else if n.day > 0 && n.month > 0 then PRECISION_DAY
    else if n.month > 0 then PRECISION_MONTH
    else PrecisionFromYear(p.year)
  }

  /**
   * getPrecision: the detected precision, or the option when it is not finer
   * than what was detected; once a day is known any option is taken.
   */
  function GetPrecision(option: PrecisionOption, p: IsoParts): (r: Result<int, ParseError>)
    requires Captured(p)
    ensures option.NoPrecisionOption? ==> r == Ok(DetectedPrecision(p))
    ensures option.PrecisionText? && !IsCtypeDigit(option.t) ==> r == Err(ParseError("Precision must be an integer"))
    ensures r.Err? ==> option.PrecisionText? && !IsCtypeDigit(option.t)
    ensures r.Ok? && DetectedPrecision(p) < PRECISION_DAY ==> r.value <= DetectedPrecision(p)
    ensures r.Ok? && r.value != DetectedPrecision(p) ==>
      (option.PrecisionNumber? && r.value == option.n) || (option.PrecisionText? && r.value == Value(option.t))
  {
    var detected := DetectedPrecision(p);
    match option
    case NoPrecisionOption => Ok(detected)
    case PrecisionNumber(n) => Ok(ApplyPrecision(n, detected))
    case PrecisionText(t) =>
      if !IsCtypeDigit(t) then Err(ParseError("Precision must be an integer"))
      else Ok(ApplyPrecision(Value(t), detected))
  }

  /** The option n replaces the detected precision unless it would claim more than the input gives. */
  function ApplyPrecision(n: int, detected: int): (d: int)
    ensures d == n || d == detected
    ensures detected < PRECISION_DAY ==> d <= detected
    ensures n <= detected ==> d == n
  {
    if n <= detected || detected >= PRECISION_DAY then n else detected
  }

  /**
   * getCalendarModel: a calendar name in the input, else the `calendar` option,
   * both through CalendarModelParser; else Julian for negative years and years up
   * to 1582, Gregorian after.
   */
  function GetCalendarModel(options: Options, p: IsoParts): (r: Result<string, ParseError>)
    requires Accepted(p)
    ensures p.calendar != "" ==> r == ParseCalendarModel(options.calendarModelUris, p.calendar)
    ensures p.calendar == "" && options.calendar.Some? ==>
      r == ParseCalendarModel(options.calendarModelUris, options.calendar.value)
    ensures p.calendar == "" && options.calendar.None? ==>
      && r.Ok? && IsCanonicalUri(r.value)
      && (r.value == CALENDAR_JULIAN <==> p.sign == "-" || NumbersOf(p).year <= 1582)
  {
    if p.calendar != "" then ParseCalendarModel(options.calendarModelUris, p.calendar)
    else if options.calendar.Some? then ParseCalendarModel(options.calendarModelUris, options.calendar.value)
    else if p.sign == "-" || NumbersOf(p).year <= 1582 then Ok(CALENDAR_JULIAN)
    else Ok(CALENDAR_GREGORIAN)
  }

  /**
   * stringParse: split, assemble the timestamp, detect precision and calendar
   * model, then construct the TimeValue with timezone, before and after 0.
   */
  function ParseIso(options: Options, value: string): (r: Result<TimeValue, ParseError>)
    ensures SplitTimeString(value).Err? ==> r == Err(SplitTimeString(value).error)
    ensures r.Ok? ==> Valid(r.value) && r.value.timezone == 0 && r.value.before == 0 && r.value.after == 0
    ensures r.Ok? ==> var p := SplitTimeString(value).value;
      && GetPrecision(options.precision, p) == Ok(r.value.precision)
      && GetCalendarModel(options, p) == Ok(r.value.calendarModel)
      && var st := IsoStamp(p); ParseStamp(r.value.timestamp) == Some(st.(year := NormalizeYear(st.year)))
    ensures SplitTimeString(value).Ok? ==> var p := SplitTimeString(value).value;
      var d, c := GetPrecision(options.precision, p), GetCalendarModel(options, p);
      d.Ok? && c.Ok? ==>
        (r.Ok? <==> PRECISION_YEAR1G <= d.value <= PRECISION_SECOND && c.value != "")
  {
    var p :- SplitTimeString(value);
    var precision :- GetPrecision(options.precision, p);
    var calendar :- GetCalendarModel(options, p);
    Build(p, precision, calendar)
  }

  /** The TimeValue constructor on the assembled timestamp; it can only object to precision or calendar. */
  function Build(p: IsoParts, precision: int, calendar: string): (r: Result<TimeValue, ParseError>)
    requires Accepted(p)
    ensures r.Ok? <==> PRECISION_YEAR1G <= precision <= PRECISION_SECOND && calendar != ""
    ensures r.Ok? ==> && Valid(r.value)
                      && r.value.timezone == 0 && r.value.before == 0 && r.value.after == 0
                      && r.value.precision == precision && r.value.calendarModel == calendar
    ensures r.Ok? ==> var st := IsoStamp(p);
      ParseStamp(r.value.timestamp) == Some(st.(year := NormalizeYear(st.year)))
  {
    var st := IsoStamp(p);
    StampInRange(p);
    ParseFormat(st);
    match New(Format(st), 0, 0, 0, precision, calendar)
    case Ok(v) => Ok(v)
    case Err(e) => Err(InvalidValue(e))
  }

  /** A stamp as TimeValue writes it is matched with every time group captured and no calendar name. */
  lemma SplitFormat(st: Stamp)
    requires WellFormed(st)
    ensures SplitIso(Format(st)) ==
      Some(IsoParts([st.sign], st.year, st.month, st.day, st.hour, st.minute, st.second, ""))
  {
    FormatSigned(st);
    SplitShape(Format(st), |st.year| + 1);
  }

  /** A sign, a digit run up to index t, then a stamp's fixed-width tail and nothing more. */
  predicate SignedShape(s: string, t: nat) {
    2 <= t <= 17 && |s| == t + 16 && IsSignChar(s[0]) && DigitRun(s, 1) == t - 1 && TailShapeAt(s, t)
  }

  /** A formatted stamp is signed-shaped, its fields where FormatFields puts them. */
  lemma FormatSigned(st: Stamp)
    requires WellFormed(st)
    ensures var s, t := Format(st), |st.year| + 1;
      && SignedShape(s, t) && [s[0]] == [st.sign] && s[1..t] == st.year
      && s[t + 1..t + 3] == st.month && s[t + 4..t + 6] == st.day
      && s[t + 7..t + 9] == st.hour && s[t + 10..t + 12] == st.minute
      && s[t + 13..t + 15] == st.second
  {
    FormatFields(st);
  }

  /** A signed stamp-shaped string with nothing after the `Z` is split field by field. */
  lemma SplitShape(s: string, t: nat)
    requires SignedShape(s, t)
    ensures SplitIso(s) == Some(IsoParts([s[0]], s[1..t], s[t + 1..t + 3], s[t + 4..t + 6],
                                         s[t + 7..t + 9], s[t + 10..t + 12], s[t + 13..t + 15], ""))
  {
    var d := DateMatch([s[0]], s[1..t], s[t + 1..t + 3], s[t + 4..t + 6], t + 6);
    var tm := TimeMatch(s[t + 7..t + 9], s[t + 10..t + 12], s[t + 13..t + 15], t + 15);
    DateAtShape(s, t);
    TimeAtTail(s, t);
    SuffixAtZ(s, t + 15);
    SplitSteps(s, d, tm, "");
  }

  /** The date group of a signed stamp-shaped string. */
  lemma DateAtShape(s: string, t: nat)
    requires SignedShape(s, t)
    ensures DateAt(s) == Some(DateMatch([s[0]], s[1..t], s[t + 1..t + 3], s[t + 4..t + 6], t + 6))
  {
    NoUnicodeSpaceAt(s, 0);
    NoUnicodeSpaceAt(s, 1);
  }

  /** The three groups found one after the other make up the split. */
  lemma SplitSteps(s: string, d: DateMatch, tm: TimeMatch, c: string)
    requires DateAt(s) == Some(d) && TimeAt(s, d.end) == Some(tm) && SuffixAt(s, tm.end) == Some(c)
    ensures SplitIso(s) == Some(IsoParts(d.sign, d.year, d.month, d.day, tm.hour, tm.minute, tm.second, c))
  {
  }

  /** Where each field sits in a formatted stamp. */
  lemma FormatFields(st: Stamp)
    requires WellFormed(st)
    ensures var s, t := Format(st), |st.year| + 1;
      && s[0] == st.sign && DigitRun(s, 1) == t - 1 && s[1..t] == st.year
      && TailShapeAt(s, t)
      && s[t + 1..t + 3] == st.month && s[t + 4..t + 6] == st.day
      && s[t + 7..t + 9] == st.hour && s[t + 10..t + 12] == st.minute
      && s[t + 13..t + 15] == st.second
  {
    var s := Format(st);
    YearDigitsAt(st, "");
    assert s + "" == s;
    FormatLayout(st);
    TailFields(st, s, |st.year| + 1);
  }

  /** The time group of a stamp's fixed-width tail starting at index t. */
  lemma TimeAtTail(s: string, t: nat)
    requires t + 16 <= |s| && TailShapeAt(s, t)
    ensures TimeAt(s, t + 6) == Some(TimeMatch(s[t + 7..t + 9], s[t + 10..t + 12], s[t + 13..t + 15], t + 15))
  {
    assert LowerChar(s[t + 6]) == 't';
  }

  /** A final `Z` with nothing after it leaves no calendar name. */
  lemma SuffixAtZ(s: string, i: nat)
    requires i + 1 == |s| && s[i] == 'Z'
    ensures SuffixAt(s, i) == Some("")
  {
    assert SkipUnicodeSpaces(s, |s|) == |s|;
    assert CalendarWordAt(s, |s|) == 0;
  }

  /** A `Z`, blanks, a parenthesised calendar name and blanks to the end: the name is the suffix. */
  lemma SuffixAtParenthesised(s: string, i: nat, o: nat, c: nat, n: nat, e: nat)
    requires i < |s| && LowerChar(s[i]) == 'z'
    requires o <= |s| && SkipUnicodeSpaces(s, i + 1) == o && o < |s| && s[o] == '('
    requires c <= |s| && SkipUnicodeSpaces(s, o + 1) == c && CalendarWordAt(s, c) == n
    requires c + n <= |s| && SkipUnicodeSpaces(s, c + n) == e && e < |s| && s[e] == ')'
    requires SkipUnicodeSpaces(s, e + 1) == |s|
    ensures SuffixAt(s, i) == Some(s[c..c + n])
  {
    assert Past(s, i, 'Z') == i + 1;
    NameParenthesised(s, o, c, n, e);
  }

  lemma NameParenthesised(s: string, o: nat, c: nat, n: nat, e: nat)
    requires o < |s| && s[o] == '('
    requires c <= |s| && SkipUnicodeSpaces(s, o + 1) == c && CalendarWordAt(s, c) == n
    requires c + n <= |s| && SkipUnicodeSpaces(s, c + n) == e && e < |s| && s[e] == ')'
    requires SkipUnicodeSpaces(s, e + 1) == |s|
    ensures NameFrom(s, o) == Some(s[c..c + n])
  {
    assert Past(s, o, '(') == o + 1 && Past(s, e, ')') == e + 1;
  }

  /** A trailing NEL (U+0085) is matched by the final `\s*` of the pattern. */
  lemma NelAfterZ()
    ensures SuffixAt("Z\U{85}", 0) == Some("")
  {
    assert SkipUnicodeSpaces("Z\U{85}", 1) == 2;
  }

  /** The groups a formatted stamp is split into. */
  function PartsOf(st: Stamp): (p: IsoParts)
    requires WellFormed(st)
    ensures Captured(p) && PlainSign(p)
  {
    IsoParts([st.sign], st.year, st.month, st.day, st.hour, st.minute, st.second, "")
  }

  /** No time of day without a day: the one rule the parser adds to TimeValue's. */
  predicate DayForTime(st: Stamp)
    requires WellFormed(st)
  {
    Value(st.day) > 0 || (Value(st.hour) == 0 && Value(st.minute) == 0 && Value(st.second) == 0)
  }

  /**
   * The parser reads back every timestamp a TimeValue holds, unless it has a time
   * of day without a day, which the parser refuses and TimeValue allows.
   */
  lemma ParseOwnTimestamp(v: TimeValue)
    requires Valid(v)
    requires DayForTime(ParseStamp(v.timestamp).value)
    ensures ParseIso(DEFAULT_OPTIONS, v.timestamp).Ok?
    ensures ParseIso(DEFAULT_OPTIONS, v.timestamp).value.timestamp == v.timestamp
  {
    ParseFormatted(ParseStamp(v.timestamp).value);
  }

  lemma ParseFormatted(st: Stamp)
    requires WellFormed(st) && CanonicalYear(st.year) && InRange(st) && DayForTime(st)
    ensures ParseIso(DEFAULT_OPTIONS, Format(st)).Ok?
    ensures ParseIso(DEFAULT_OPTIONS, Format(st)).value.timestamp == Format(st)
  {
    var p := PartsOf(st);
    SplitOfFormat(st);
    var d := GetPrecision(NoPrecisionOption, p).value;
    var c := GetCalendarModel(DEFAULT_OPTIONS, p).value;
    assert ParseIso(DEFAULT_OPTIONS, Format(st)) == Build(p, d, c);
    BuildFormatted(st, d, c);
  }

  lemma SplitOfFormat(st: Stamp)
    requires WellFormed(st) && InRange(st) && DayForTime(st)
    ensures SplitTimeString(Format(st)) == Ok(PartsOf(st))
  {
    var p := PartsOf(st);
    SplitFormat(st);
    assert CheckError(p) == None;
  }

  lemma BuildFormatted(st: Stamp, d: int, c: string)
    requires WellFormed(st) && CanonicalYear(st.year) && InRange(st) && DayForTime(st)
    requires PRECISION_YEAR1G <= d <= PRECISION_SECOND && c != ""
    ensures Build(PartsOf(st), d, c).Ok? && Build(PartsOf(st), d, c).value.timestamp == Format(st)
  {
    var p := PartsOf(st);
    SameStamp(st, p);
    assert Accepted(p);
    var v := Build(p, d, c).value;
    assert ParseStamp(v.timestamp) == Some(st);
  }

  /** With a canonical year and two-digit fields, padding writes the stamp the fields came from. */
  lemma SameStamp(st: Stamp, p: IsoParts)
    requires WellFormed(st) && CanonicalYear(st.year)
    requires p == PartsOf(st)
    ensures IsoStamp(p) == st
  {
  }

  /** A timestamp with a time of day but day 00 is valid for TimeValue yet refused by the parser. */
  lemma TimeWithoutDayRefused(st: Stamp)
    requires WellFormed(st) && InRange(st) && !DayForTime(st)
    ensures ParseIso(DEFAULT_OPTIONS, Format(st)) == Err(ParseError("Cannot have hour, minute or second with no day"))
  {
    SplitFormat(st);
    NoDayError(st);
    assert SplitTimeString(Format(st)) == Err(ParseError("Cannot have hour, minute or second with no day"));
  }

  lemma NoDayError(st: Stamp)
    requires WellFormed(st) && InRange(st) && !DayForTime(st)
    ensures CheckError(PartsOf(st)) == Some("Cannot have hour, minute or second with no day")
  {
  }

  /**
   * Outside 4000 years, the precision counts the powers of ten in the year: a
   * year m·10^k, with m not a multiple of ten, has precision 9 − k, and never
   * coarser than a billion years.
   */
  lemma YearPrecisionUnit(year: string)
    requires IsDigits(year) && Value(year) > 4000
    ensures var k := TrailingZeros(year);
      && k < |year| && IsDigits(year[..|year| - k])
      && var m := Value(year[..|year| - k]);
      && Value(year) == m * Pow10(k) && m % 10 != 0
      && PrecisionFromYear(year) == (if k >= PRECISION_YEAR then PRECISION_YEAR1G else PRECISION_YEAR - k)
  {
    TrailingZerosValue(year);
  }

  /** A digit string is its part before the trailing zeros times a power of ten, and that part does not end in 0. */
  lemma TrailingZerosValue(s: string)
    requires IsDigits(s) && Value(s) > 0
    ensures var k := TrailingZeros(s);
      && k < |s| && IsDigits(s[..|s| - k])
      && Value(s) == Value(s[..|s| - k]) * Pow10(k)
      && Value(s[..|s| - k]) % 10 != 0
  {
    var k := TrailingZeros(s);
    var pre, zeros := s[..|s| - k], s[|s| - k..];
    SplitZeros(s, k);
    LastDigitMod(pre);
  }

  lemma SplitZeros(s: string, k: nat)
    requires IsDigits(s) && k <= |s|
    requires forall i | |s| - k <= i < |s| :: s[i] == '0'
    ensures IsDigits(s[..|s| - k])
    ensures Value(s) == Value(s[..|s| - k]) * Pow10(k)
    ensures Value(s[|s| - k..]) == 0
  {
    var pre, zeros := s[..|s| - k], s[|s| - k..];
    assert s == pre + zeros;
    ValueOfZeroString(zeros);
    ValueAppend(pre, zeros);
  }

  lemma LastDigitMod(s: string)
    requires IsDigits(s) && |s| > 0 && s[|s| - 1] != '0'
    ensures Value(s) % 10 != 0
  {
    var d := DigitValue(s[|s| - 1]);
    assert Value(s) == Value(s[..|s| - 1]) * 10 + d;
    assert 1 <= d <= 9;
  }

  /** Examples from the year ranges: 4000 is still year precision, 8000 is millennium precision. */
  lemma YearPrecisionExamples()
    ensures PrecisionFromYear("4000") == PRECISION_YEAR
    ensures PrecisionFromYear("8000") == PRECISION_YEAR1K
  {
    ValueOfFour('4', '0', '0', '0');
    ValueOfFour('8', '0', '0', '0');
    assert TrailingZeros("8000") == 3 by {
      assert "8000"[0] == '8' && "8000"[1] == '0' && "8000"[2] == '0' && "8000"[3] == '0';
    }
  }

  /**
   * A calendar name in the input decides the calendar whatever the `calendar`
   * option says, unless the custom URI table redefines that name.
   */
  lemma SuffixNamesCalendar(options: Options, p: IsoParts, uri: string)
    requires Accepted(p) && IsCalendarWord(p.calendar) && p.calendar != ""
    requires p.calendar !in options.calendarModelUris
    requires uri == (if |p.calendar| == 9 then CALENDAR_GREGORIAN else CALENDAR_JULIAN)
    ensures GetCalendarModel(options, p) == Ok(uri)
  {
    var c := p.calendar;
    if |c| == 9 {
      LowerWord(c, "gregorian");
    } else {
      LowerWord(c, "julian");
    }
    NameParsesToUri(uri, c, "", "");
    assert "" + c + "" == c;
  }

  lemma LowerWord(c: string, lit: string)
    requires |c| == |lit| && MatchesAt(c, 0, lit)
    ensures ToLower(c) == lit
  {
  }

  /**
   * A precision option finer than what the input shows is ignored below day
   * precision: a month with day 00 stays at month precision under a day option.
   */
  lemma MonthStaysMonth(p: IsoParts)
    requires Captured(p)
    requires NumbersOf(p).month > 0 && NumbersOf(p).day == 0 && p.hour == ""
    ensures GetPrecision(PrecisionNumber(PRECISION_DAY), p) == Ok(PRECISION_MONTH)
  {
  }

  /** `YY-MM-DD`: two digits, a dash, two digits, a dash, two digits. */
  predicate ShortDate(s: string) {
    && |s| == 8 && IsDigit(s[0]) && IsDigit(s[1]) && s[2] == '-' && IsDigit(s[3]) && IsDigit(s[4])
    && s[5] == '-' && IsDigit(s[6]) && IsDigit(s[7])
  }

  function ShortParts(s: string): (p: IsoParts)
    requires ShortDate(s)
    ensures Captured(p) && PlainSign(p)
  {
    IsoParts("", s[..2], s[3..5], s[6..8], "", "", "", "")
  }

  /**
   * The ambiguity guard on an unsigned two-digit year with no time: from 32 on
   * the date is read as year-month-day, below 32 it is refused.
   */
  lemma ShortYearGuard(s: string)
    requires ShortDate(s)
    ensures var n := NumbersOf(ShortParts(s));
      n.year < 32 ==> SplitTimeString(s) == Err(ParseError("Not enough information to decide if the format is YMD"))
    ensures var n := NumbersOf(ShortParts(s));
      n.year >= 32 && 1 <= n.month <= 12 && n.day <= 31 ==> SplitTimeString(s) == Ok(ShortParts(s))
  {
    var p := ShortParts(s);
    var n := NumbersOf(p);
    ShortYearMatch(s);
    if n.year < 32 {
      assert Ambiguous(p);
      AmbiguousRefused(s, p);
    } else if 1 <= n.month <= 12 && n.day <= 31 {
      assert !Ambiguous(p) && InBounds(n);
      UnsignedAccepted(s, p);
    }
  }

  /** A match the ambiguity guard stops is refused with the guard's message. */
  lemma AmbiguousRefused(v: string, p: IsoParts)
    requires SplitIso(v) == Some(p) && Ambiguous(p)
    ensures SplitTimeString(v) == Err(ParseError("Not enough information to decide if the format is YMD"))
  {
  }

  /** An unsigned match that passes the guard and the range checks is returned as matched. */
  lemma UnsignedAccepted(v: string, p: IsoParts)
    requires SplitIso(v) == Some(p) && p.sign == "" && !Ambiguous(p) && InBounds(NumbersOf(p))
    ensures SplitTimeString(v) == Ok(p)
  {
    assert p.(sign := NormalSign(p.sign)) == p;
  }

  lemma ShortYearMatch(s: string)
    requires ShortDate(s)
    ensures SplitIso(s) == Some(ShortParts(s))
  {
    assert SkipUnicodeSpaces(s, 0) == 0;
    assert DigitRun(s, 0) == 2;
    assert DateAt(s) == Some(DateMatch("", s[..2], s[3..5], s[6..8], 8));
    assert SkipUnicodeSpaces(s, 8) == 8;
    assert CalendarWordAt(s, 8) == 0;
  }

  // ---------------------------------------------------------------------------
  // The dates the year and year-month parsers hand over

  /** A date with no day and midnight: a month of a year, or with month 00 a whole year. */
  function DateStamp(sign: char, year: string, month: string): (st: Stamp)
    requires (sign == '+' || sign == '-') && CanonicalYear(year) && IsTwoDigits(month)
    ensures WellFormed(st) && CanonicalYear(st.year)
  {
    Stamp(sign, year, month, "00", "00", "00", "00")
  }

  /**
   * The parser reads such a date back unchanged: at month precision when there is
   * a month, else at the precision the year tells; Julian for negative years and
   * years up to 1582.
   */
  lemma IsoDate(sign: char, year: string, month: string)
    requires (sign == '+' || sign == '-') && CanonicalYear(year) && IsTwoDigits(month) && Value(month) <= 12
    ensures var r := ParseIso(DEFAULT_OPTIONS, [sign] + year + "-" + month + "-00T00:00:00Z");
      && r.Ok? && r.value.timestamp == Format(DateStamp(sign, year, month))
      && r.value.precision == (if Value(month) > 0 then PRECISION_MONTH else PrecisionFromYear(year))
      && r.value.calendarModel
         == (if sign == '-' || Value(year) <= 1582 then CALENDAR_JULIAN else CALENDAR_GREGORIAN)
  {
    var st := DateStamp(sign, year, month);
    DateText(sign, year, month);
    DateStampParts(sign, year, month);
    ParseFormatted(st);
    SplitOfFormat(st);
  }

  lemma DateText(sign: char, year: string, month: string)
    requires (sign == '+' || sign == '-') && CanonicalYear(year) && IsTwoDigits(month)
    ensures Format(DateStamp(sign, year, month)) == [sign] + year + "-" + month + "-00T00:00:00Z"
  {
    TailText(DateStamp(sign, year, month));
  }

  lemma DateStampParts(sign: char, year: string, month: string)
    requires (sign == '+' || sign == '-') && CanonicalYear(year) && IsTwoDigits(month) && Value(month) <= 12
    ensures var st := DateStamp(sign, year, month); InRange(st) && DayForTime(st)
    ensures DetectedPrecision(PartsOf(DateStamp(sign, year, month)))
      == if Value(month) > 0 then PRECISION_MONTH else PrecisionFromYear(year)
    ensures GetCalendarModel(DEFAULT_OPTIONS, PartsOf(DateStamp(sign, year, month)))
      == Ok(if sign == '-' || Value(year) <= 1582 then CALENDAR_JULIAN else CALENDAR_GREGORIAN)
  {
    var p := PartsOf(DateStamp(sign, year, month));
    assert Value("00") == 0;
    assert NumbersOf(p) == Numbers(Value(year), Value(month), 0, 0, 0, 0);
    assert p.sign == "-" <==> sign == '-';
  }
}
