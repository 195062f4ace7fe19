/**
 * YearMonthDayTimeParser: a date written as three numbers, read as
 * year-month-day, day-month-year or month-day-year when only one reading has a
 * year that cannot be a day. Source: src/ValueParsers/YearMonthDayTimeParser.php.
 */
module YearMonthDay {
  import opened Results
  import opened Text
  import opened TimeValues
  import opened Parsing
  import opened Eras
  import IsoTimestamps

  // ---------------------------------------------------------------------------
  // Numbers

  function Abs(i: int): nat {
    if i < 0 then -i else i
  }

  // ---------------------------------------------------------------------------
  // The three numbers of `^\D*?(-?\d+)\D+(\d+)\D+?(-?\d+)\D*$`

  /** The start of the first digit run at or after `i`; |s| when there is none. */
  function NextRun(s: string, i: nat): (j: nat)
    requires i <= |s|
    ensures i <= j <= |s|
    ensures j < |s| ==> IsDigit(s[j])
    decreases |s| - i
  {
    if i == |s| || IsDigit(s[i]) then i else NextRun(s, i + 1)
  }

  /** The number of maximal digit runs from index `i` on. */
  function RunCount(s: string, i: nat): nat
    requires i <= |s|
    decreases |s| - i
  {
    var j := NextRun(s, i);
    if j == |s| then 0 else 1 + RunCount(s, j + DigitRun(s, j))
  }

  /** A run found by NextRun is not empty. */
  lemma RunNotEmpty(s: string, j: nat)
    requires j < |s| && IsDigit(s[j])
    ensures DigitRun(s, j) > 0
  {
  }

  /** NextRun skips exactly the non-digits in front of the next digit. */
  lemma {:induction false} NextRunOf(s: string, i: nat, j: nat)
    requires i <= j <= |s|
    requires forall k | i <= k < j :: !IsDigit(s[k])
    requires j == |s| || IsDigit(s[j])
    ensures NextRun(s, i) == j
    decreases j - i
  {
    if i < j {
      NextRunOf(s, i + 1, j);
    }
  }

  /** Group one or three: the run at [i, i + n), with the '-' in front of it when `minus`. */
  function Group(s: string, i: nat, n: nat, minus: bool): (g: string)
    requires 0 < n && i + n <= |s| && IsDigits(s[i..i + n])
    requires minus ==> 0 < i && s[i - 1] == '-'
    ensures IsNumeral(g) && g[0] != '+'
    ensures NumeralValue(g) == if minus then -(Value(s[i..i + n]) as int) else Value(s[i..i + n])
  {
    if minus then
      assert s[i - 1..i + n][1..] == s[i..i + n];
      s[i - 1..i + n]
    else
      UnsignedValue(s[i..i + n]);
      s[i..i + n]
  }

  /**
   * Where the three digit runs are: the first at [i, i + m), the second at
   * [j, j + n), the third at [k, k + l).
   */
  datatype Runs = Runs(i: nat, m: nat, j: nat, n: nat, k: nat, l: nat)

  predicate RunsIn(s: string, r: Runs) {
    && 0 < r.m && r.i + r.m <= |s| && IsDigits(s[r.i..r.i + r.m])
    && 0 < r.n && r.j + r.n <= |s| && IsDigits(s[r.j..r.j + r.n])
    && 0 < r.l && r.k + r.l <= |s| && IsDigits(s[r.k..r.k + r.l])
  }

  /** The index just past the first digit run at or after `i`. */
  function RunEnd(s: string, i: nat): (e: nat)
    requires i <= |s|
    ensures NextRun(s, i) <= e <= |s|
    ensures e == NextRun(s, i) + DigitRun(s, NextRun(s, i))
  {
    NextRun(s, i) + DigitRun(s, NextRun(s, i))
  }

  /** The three maximal digit runs, when there are exactly three. */
  function FindRuns(s: string): Option<Runs> {
    var e1 := RunEnd(s, 0);
    var e2 := RunEnd(s, e1);
    var e3 := RunEnd(s, e2);
    var i, j, k := NextRun(s, 0), NextRun(s, e1), NextRun(s, e2);
    if i == |s| || j == |s| || k == |s| || NextRun(s, e3) < |s| then None
    else Some(Runs(i, e1 - i, j, e2 - j, k, e3 - k))
  }

  /** The runs found are non-empty stretches of digits. */
  lemma FoundRunsIn(s: string)
    ensures FindRuns(s).Some? ==> RunsIn(s, FindRuns(s).value)
  {
    if FindRuns(s).Some? {
      var r := FindRuns(s).value;
      RunNotEmpty(s, r.i);
      RunNotEmpty(s, r.j);
      RunNotEmpty(s, r.k);
    }
  }

  /** The regular expression matches exactly when there are three digit runs, no more, no fewer. */
  lemma ThreeRuns(s: string)
    ensures ThreeNumbers(s).Some? <==> RunCount(s, 0) == 3
  {
    var e1 := RunEnd(s, 0);
    var e2 := RunEnd(s, e1);
    var e3 := RunEnd(s, e2);
    CountStep(s, 0);
    CountStep(s, e1);
    CountStep(s, e2);
    CountStep(s, e3);
  }

  lemma CountStep(s: string, i: nat)
    requires i <= |s|
    ensures NextRun(s, i) == |s| ==> RunCount(s, i) == 0
    ensures NextRun(s, i) < |s| ==> RunCount(s, i) == 1 + RunCount(s, RunEnd(s, i))
  {
  }

  /**
   * The three groups. The lazy `\D*?` leaves a '-' right before the first run
   * to the first group; the lazy `\D+?` leaves a '-' right before the third run
   * to the third group only when another non-digit precedes that '-'; the
   * second group is never signed.
   */
  function ThreeNumbers(s: string): (r: Option<(string, string, string)>)
    ensures r.None? <==> FindRuns(s).None?
    ensures r.Some? ==> IsNumeral(r.value.0) && r.value.0[0] != '+'
    ensures r.Some? ==> |r.value.1| > 0 && IsDigits(r.value.1)
    ensures r.Some? ==> IsNumeral(r.value.2) && r.value.2[0] != '+'
  {
    FoundRunsIn(s);
    match FindRuns(s)
    case None => None
    case Some(r) => Some(GroupsOf(s, r))
  }

  /** The text of the three groups, given where the runs are. */
  function GroupsOf(s: string, r: Runs): (g: (string, string, string))
    requires RunsIn(s, r)
    ensures IsNumeral(g.0) && g.0[0] != '+'
    ensures |g.1| > 0 && IsDigits(g.1)
    ensures IsNumeral(g.2) && g.2[0] != '+'
  {
    var first := Group(s, r.i, r.m, 0 < r.i && s[r.i - 1] == '-');
    var third := Group(s, r.k, r.l, r.k >= r.j + r.n + 2 && s[r.k - 1] == '-');
    (first, s[r.j..r.j + r.n], third)
  }

  /** NextRun and DigitRun on a stretch of non-digits followed by a run of length n at j. */
  lemma RunAt(s: string, i: nat, j: nat, n: nat)
    requires i <= j && j + n <= |s|
    requires forall p | i <= p < j :: !IsDigit(s[p])
    requires forall p | j <= p < j + n :: IsDigit(s[p])
    requires j + n == |s| || !IsDigit(s[j + n])
    requires j == |s| || IsDigit(s[j])
    ensures NextRun(s, i) == j && DigitRun(s, j) == n
  {
    NextRunOf(s, i, j);
    DigitRunOf(s, j, n);
  }

  /** The separators the round trips use: neither a digit nor a letter. */
  predicate IsSeparator(c: char) {
    !IsDigit(c) && !IsAsciiLetter(c)
  }

  /** Three unsigned numbers with one separator between each: the numbers come back unsigned. */
  lemma JoinedNumbers(a: string, s1: char, b: string, s2: char, c: string)
    requires |a| > 0 && |b| > 0 && |c| > 0 && IsDigits(a) && IsDigits(b) && IsDigits(c)
    requires !IsDigit(s1) && !IsDigit(s2)
    ensures ThreeNumbers(a + [s1] + b + [s2] + c) == Some((a, b, c))
  {
    var v := a + [s1] + b + [s2] + c;
    JoinedRuns(a, s1, b, s2, c);
    JoinedLayout(a, s1, b, s2, c);
    var j, k := |a| + 1, |a| + |b| + 2;
    assert v[0..|a|] == a && v[k..k + |c|] == c;
    assert ThreeNumbers(v) == Some((Group(v, 0, |a|, false), v[j..j + |b|], Group(v, k, |c|, false)));
  }

  lemma JoinedRuns(a: string, s1: char, b: string, s2: char, c: string)
    requires |a| > 0 && |b| > 0 && |c| > 0 && IsDigits(a) && IsDigits(b) && IsDigits(c)
    requires !IsDigit(s1) && !IsDigit(s2)
    ensures FindRuns(a + [s1] + b + [s2] + c) == Some(Runs(0, |a|, |a| + 1, |b|, |a| + |b| + 2, |c|))
  {
    var v := a + [s1] + b + [s2] + c;
    var j, k := |a| + 1, |a| + |b| + 2;
    JoinedLayout(a, s1, b, s2, c);
    RunAt(v, 0, 0, |a|);
    RunAt(v, |a|, j, |b|);
    RunAt(v, j + |b|, k, |c|);
    RunAt(v, |v|, |v|, 0);
    FindRunsOf(v, 0, |a|, j, j + |b|, k, |v|);
  }

  /** FindRuns reports the runs it finds one after the other. */
  lemma FindRunsOf(s: string, i: nat, e1: nat, j: nat, e2: nat, k: nat, e3: nat)
    requires i < |s| && j < |s| && k < |s| && i <= e1 && j <= e2 && k <= e3 && e3 <= |s|
    requires NextRun(s, 0) == i && RunEnd(s, 0) == e1
    requires NextRun(s, e1) == j && RunEnd(s, e1) == e2
    requires NextRun(s, e2) == k && RunEnd(s, e2) == e3
    requires NextRun(s, e3) == |s|
    ensures FindRuns(s) == Some(Runs(i, e1 - i, j, e2 - j, k, e3 - k))
  {
  }

  /** Where the three digit runs and their two separators sit in the joined text. */
  lemma JoinedLayout(a: string, s1: char, b: string, s2: char, c: string)
    requires IsDigits(a) && IsDigits(b) && IsDigits(c)
    ensures var v, j, k := a + [s1] + b + [s2] + c, |a| + 1, |a| + |b| + 2;
      && |v| == k + |c| && v[|a|] == s1 && v[j + |b|] == s2
      && v[..|a|] == a && v[j..j + |b|] == b && v[k..] == c
      && (forall p | 0 <= p < |a| :: IsDigit(v[p]))
      && (forall p | j <= p < j + |b| :: IsDigit(v[p]))
      && (forall p | k <= p < |v| :: IsDigit(v[p]))
  {
    var v, j, k := a + [s1] + b + [s2] + c, |a| + 1, |a| + |b| + 2;
    assert v[..|a|] == a;
    assert v[j..j + |b|] == b;
    assert v[k..] == c;
    forall p | 0 <= p < |a| ensures IsDigit(v[p]) { assert v[p] == a[p]; }
    forall p | j <= p < j + |b| ensures IsDigit(v[p]) { assert v[p] == b[p - j]; }
    forall p | k <= p < |v| ensures IsDigit(v[p]) { assert v[p] == c[p - k]; }
  }

  /** Two numbers are not enough. */
  lemma TwoNumbersFail(a: string, s1: char, b: string)
    requires |a| > 0 && |b| > 0 && IsDigits(a) && IsDigits(b) && !IsDigit(s1)
    ensures ThreeNumbers(a + [s1] + b) == None
  {
    var v := a + [s1] + b;
    forall p | 0 <= p < |a| ensures IsDigit(v[p]) { assert v[p] == a[p]; }
    forall p | |a| + 1 <= p < |v| ensures IsDigit(v[p]) { assert v[p] == b[p - |a| - 1]; }
    RunAt(v, 0, 0, |a|);
    RunAt(v, |a|, |a| + 1, |b|);
    RunAt(v, |v|, |v|, 0);
  }

  // ---------------------------------------------------------------------------
  // Which number is the year

  /** The orders the parser knows; year-day-month and month-year-day do not exist. */
  datatype Order = YMD | DMY | MDY

  /**
   * parseYearMonthDay's decision on the three values: a first number too large
   * for a day is the year, else a third one; a first number too large for a
   * month is then the day, else a second one.
   */
  function Classify(a: int, b: int, c: int): (r: Result<Order, ParseError>)
    ensures r.Ok? && r.value == YMD ==> Abs(a) > 31 && b <= 12
    ensures r.Ok? && r.value != YMD ==> Abs(a) <= 31 && Abs(c) > 31
    ensures r.Ok? && r.value == DMY ==> a > 12
    ensures r.Ok? && r.value == MDY ==> a <= 12 && b > 12
    ensures Abs(a) <= 31 && Abs(c) <= 31 ==> r == Err(ParseError("Can not identify year"))
    ensures Abs(a) > 31 && b > 12 ==> r == Err(ParseError("Can not accept YDM"))
    ensures Abs(a) <= 31 && Abs(c) > 31 && a <= 12 && b <= 12 ==> r == Err(ParseError("Can not distinguish DMY and MDY"))
  {
    if Abs(a) > 31 then
      if b > 12 then Err(ParseError("Can not accept YDM")) else Ok(YMD)
    else if Abs(c) > 31 then
      if a > 12 then Ok(DMY)
      else if b > 12 then Ok(MDY)
      else Err(ParseError("Can not distinguish DMY and MDY"))
    else
      Err(ParseError("Can not identify year"))
  }

  /** (year, month, day) of the three numbers read in order `o`. */
  function Arrange<T>(o: Order, a: T, b: T, c: T): (T, T, T) {
    match o
    case YMD => (a, b, c)
    case DMY => (c, b, a)
    case MDY => (c, a, b)
  }

  /** Reading the numbers in order `o` gives a year that cannot be a day, a month and a day. */
  predicate Plausible(o: Order, a: int, b: int, c: int) {
    var ymd := Arrange(o, a, b, c);
    Abs(ymd.0) > 31 && 1 <= ymd.1 <= 12 && 1 <= ymd.2 <= 31
  }

  /** Whatever order the parser picks, no other order reads the numbers as a date. */
  lemma ClassifiedIsOnlyReading(a: int, b: int, c: int, o: Order, o': Order)
    requires Classify(a, b, c) == Ok(o)
    requires Plausible(o', a, b, c)
    ensures o' == o
  {
  }

  /** When exactly one order reads the numbers as a date, the parser picks it. */
  lemma OnlyReadingIsClassified(a: int, b: int, c: int, o: Order)
    requires Plausible(o, a, b, c)
    requires forall o' | Plausible(o', a, b, c) :: o' == o
    ensures Classify(a, b, c) == Ok(o)
  {
    if o == DMY {
      assert !Plausible(MDY, a, b, c);
    } else if o == MDY {
      assert !Plausible(DMY, a, b, c);
    }
  }

  /** When two orders both read the numbers as a date, the parser refuses. */
  lemma TwoReadingsRefused(a: int, b: int, c: int)
    requires Plausible(DMY, a, b, c) && Plausible(MDY, a, b, c)
    ensures Classify(a, b, c) == Err(ParseError("Can not distinguish DMY and MDY"))
  {
  }

  /** The numbers as found, in the order the parser settled on. */
  datatype Reading = Reading(order: Order, year: string, month: string, day: string)

  /** parseYearMonthDay. */
  function ParseYearMonthDay(value: string): (r: Result<Reading, ParseError>)
    ensures ThreeNumbers(value).None? ==> r == Err(ParseError("Can not find three numbers"))
    ensures r.Ok? ==> (ThreeNumbers(value).Some? &&
      var t := ThreeNumbers(value).value;
      && Classify(NumeralValue(t.0), NumeralValue(t.1), NumeralValue(t.2)) == Ok(r.value.order)
      && (r.value.year, r.value.month, r.value.day) == Arrange(r.value.order, t.0, t.1, t.2))
    ensures r.Ok? ==> IsNumeral(r.value.year) && IsNumeral(r.value.month) && IsNumeral(r.value.day)
    ensures r.Ok? ==> r.value.year[0] != '+' && Abs(NumeralValue(r.value.year)) > 31
    ensures ThreeNumbers(value).Some? && r.Err? ==> (var t := ThreeNumbers(value).value;
      Classify(NumeralValue(t.0), NumeralValue(t.1), NumeralValue(t.2)) == Err(r.error))
  {
    match ThreeNumbers(value)
    case None => Err(ParseError("Can not find three numbers"))
    case Some(t) =>
      UnsignedValue(t.1);
      match Classify(NumeralValue(t.0), NumeralValue(t.1), NumeralValue(t.2))
      case Err(e) => Err(e)
      case Ok(order) =>
        var ymd := Arrange(order, t.0, t.1, t.2);
        Ok(Reading(order, ymd.0, ymd.1, ymd.2))
  }

  // ---------------------------------------------------------------------------
  // Building the value

  /**
   * stringParse's sign step: an unsigned year takes the era's sign; a year with
   * its own '-' keeps it, unless the era is before the common era too.
   */
  function SignYear(sign: char, year: string): (r: Result<string, ParseError>)
    requires IsSign(sign) && IsNumeral(year) && year[0] != '+'
    ensures r.Err? <==> sign == BEFORE_COMMON_ERA && year[0] == '-'
    ensures r.Err? ==> r.error == ParseError("Two eras found")
    ensures r.Ok? ==> IsNumeral(r.value) && IsSign(r.value[0])
    ensures r.Ok? ==> NumeralValue(r.value) == if sign == BEFORE_COMMON_ERA then -NumeralValue(year) else NumeralValue(year)
  {
    if year[0] != '-' then
      var r := [sign] + year;
      assert r[1..] == year;
      Ok(r)
    else if sign == BEFORE_COMMON_ERA then
      Err(ParseError("Two eras found"))
    else
      Ok(year)
  }

  /** getCalendarModel: Julian up to the year 1582, when the Gregorian calendar was introduced. */
  function CalendarFor(year: string): (uri: string)
    requires IsNumeral(year)
    ensures uri == CALENDAR_JULIAN <==> NumeralValue(year) <= 1582
    ensures uri == CALENDAR_JULIAN || uri == CALENDAR_GREGORIAN
  {
    if NumeralValue(year) <= 1582 then CALENDAR_JULIAN else CALENDAR_GREGORIAN
  }

  /** The three fields written as a stamp takes them: a signed year of 1 to 16 digits, two-digit month and day. */
  predicate StampShaped(year: string, month: string, day: string) {
    && 2 <= |year| <= 17 && IsSign(year[0]) && IsDigits(year[1..])
    && IsTwoDigits(month) && IsTwoDigits(day)
  }

  /** The value a date at midnight of the given fields is stored as, at day precision. */
  function DayValue(sign: char, digits: string, month: string, day: string): (v: TimeValue)
    requires IsSign(sign) && 1 <= |digits| <= 16 && IsDigits(digits)
    requires IsTwoDigits(month) && IsTwoDigits(day)
  {
    var st := Stamp(sign, NormalizeYear(digits), month, day, "00", "00", "00");
    var julian := sign == BEFORE_COMMON_ERA || Value(digits) <= 1582;
    TimeValue(Format(st), 0, 0, 0, PRECISION_DAY, if julian then CALENDAR_JULIAN else CALENDAR_GREGORIAN)
  }

  /**
   * newTimeValue: month and day range checks, then the TimeValue constructor
   * on `year-month-dayT00:00:00Z` at day precision.
   */
  function NewValue(year: string, month: string, day: string): (r: Result<TimeValue, ParseError>)
    requires IsNumeral(year) && IsNumeral(month) && IsNumeral(day)
    ensures !(1 <= NumeralValue(month) <= 12) ==> r == Err(ParseError("Month out of range"))
    ensures 1 <= NumeralValue(month) <= 12 && !(1 <= NumeralValue(day) <= 31) ==>
      r == Err(ParseError("Day out of range"))
    ensures r.Ok? ==> Valid(r.value) && r.value.precision == PRECISION_DAY
    ensures r.Ok? ==> r.value.timezone == 0 && r.value.before == 0 && r.value.after == 0
    ensures r.Ok? ==> (r.value.calendarModel == CALENDAR_JULIAN <==> NumeralValue(year) <= 1582)
    ensures r.Err? && r.error.InvalidValue? ==> 1 <= NumeralValue(month) <= 12 && 1 <= NumeralValue(day) <= 31
    ensures StampShaped(year, month, day) && 1 <= NumeralValue(month) <= 12 && 1 <= NumeralValue(day) <= 31 ==>
      r == Ok(DayValue(year[0], year[1..], month, day))
  {
    if NumeralValue(month) < 1 || NumeralValue(month) > 12 then Err(ParseError("Month out of range"))
    else if NumeralValue(day) < 1 || NumeralValue(day) > 31 then Err(ParseError("Day out of range"))
    else
      var ts := year + "-" + month + "-" + day + "T00:00:00Z";
      var v := New(ts, 0, 0, 0, PRECISION_DAY, CalendarFor(year));
      ShapedDay(year, month, day);
      match v
      case Ok(tv) => Ok(tv)
      case Err(e) => Err(InvalidValue(e))
  }

  /**
   * Month and day are not padded: when they have fewer than four digits between them
   * the joined timestamp is too short for the TimeValue grammar, which rejects it.
   */
  lemma UnpaddedRefused(year: string, month: string, day: string)
    requires IsNumeral(year) && IsNumeral(month) && IsNumeral(day) && |month| + |day| < 4
    ensures NewValue(year, month, day).Err?
    ensures 1 <= NumeralValue(month) <= 12 && 1 <= NumeralValue(day) <= 31 ==>
      NewValue(year, month, day).error.InvalidValue?
  {
    var ts := year + "-" + month + "-" + day + "T00:00:00Z";
    assert ts[..|year|] == year && ts[|year|] == '-' && |ts| == |year| + 12 + |month| + |day|;
    UnpaddedStamp(year, ts, |month| + |day|);
  }

  /** A timestamp whose year is followed by fewer than sixteen characters does not parse. */
  lemma UnpaddedStamp(year: string, ts: string, short: nat)
    requires IsNumeral(year) && short < 4 && |ts| == |year| + 12 + short
    requires ts[..|year|] == year && ts[|year|] == '-'
    ensures ParseStamp(ts).None?
  {
    if ts[0] == '+' || ts[0] == '-' {
      assert ts[0] == year[0] && |year| > 1;
      assert forall k | 1 <= k < |year| :: IsDigit(ts[k]) by {
        forall k | 1 <= k < |year| ensures IsDigit(ts[k]) {
          assert ts[k] == year[k] == year[1..][k - 1];
        }
      }
      DigitRunOf(ts, 1, |year| - 1);
    }
  }

  /** A well-shaped date in range builds exactly DayValue. */
  lemma ShapedDay(year: string, month: string, day: string)
    requires IsNumeral(year) && IsNumeral(month) && IsNumeral(day)
    requires 1 <= NumeralValue(month) <= 12 && 1 <= NumeralValue(day) <= 31
    ensures StampShaped(year, month, day) ==>
      (New(year + "-" + month + "-" + day + "T00:00:00Z", 0, 0, 0, PRECISION_DAY, CalendarFor(year))
       == Ok(DayValue(year[0], year[1..], month, day)))
  {
    if StampShaped(year, month, day) {
      ShapedDayOf(year, month, day);
    }
  }

  lemma ShapedDayOf(year: string, month: string, day: string)
    requires IsNumeral(year) && IsNumeral(month) && IsNumeral(day)
    requires StampShaped(year, month, day)
    requires 1 <= NumeralValue(month) <= 12 && 1 <= NumeralValue(day) <= 31
    ensures New(year + "-" + month + "-" + day + "T00:00:00Z", 0, 0, 0, PRECISION_DAY, CalendarFor(year))
      == Ok(DayValue(year[0], year[1..], month, day))
  {
    var ts := year + "-" + month + "-" + day + "T00:00:00Z";
    var st := Stamp(year[0], year[1..], month, day, "00", "00", "00");
    DayStampText(year, month, day);
    DayStampInRange(st, NumeralValue(month), NumeralValue(day));
    var r := New(ts, 0, 0, 0, PRECISION_DAY, CalendarFor(year));
    var norm := st.(year := NormalizeYear(st.year));
    assert ParseStamp(r.value.timestamp) == Some(norm);
    assert r.value.timestamp == Format(norm);
  }

  /** The text newTimeValue assembles is the stamp of the three fields at midnight. */
  lemma DayStampText(year: string, month: string, day: string)
    requires StampShaped(year, month, day)
    ensures var st := Stamp(year[0], year[1..], month, day, "00", "00", "00");
      WellFormed(st) && ParseStamp(year + "-" + month + "-" + day + "T00:00:00Z") == Some(st)
  {
    var st := Stamp(year[0], year[1..], month, day, "00", "00", "00");
    assert WellFormed(st);
    IsoTimestamps.TailText(st);
    assert year == [year[0]] + year[1..];
    assert year + "-" + month + "-" + day + "T00:00:00Z" == Format(st);
    ParseFormat(st);
  }

  lemma DayStampInRange(st: Stamp, month: int, day: int)
    requires WellFormed(st) && st.hour == "00" && st.minute == "00" && st.second == "00"
    requires IsNumeral(st.month) && NumeralValue(st.month) == month && 1 <= month <= 12
    requires IsNumeral(st.day) && NumeralValue(st.day) == day && 1 <= day <= 31
    ensures InRange(st)
  {
    TwoDigitNumeral(st.month);
    TwoDigitNumeral(st.day);
    assert Value("00") == 0;
  }

  lemma TwoDigitsAreDigits(s: string)
    requires IsTwoDigits(s)
    ensures |s| > 0 && IsDigits(s)
  {
  }

  lemma TwoDigitNumeral(s: string)
    requires IsTwoDigits(s)
    ensures IsNumeral(s) && NumeralValue(s) == Value(s)
  {
    UnsignedValue(s);
  }

  /**
   * stringParse: the era first, then the three numbers, then the sign, then the
   * value. Every failure is a ParseError with the message it was raised with.
   */
  function ParseYmd(value: string): (r: Result<TimeValue, ParseError>)
    ensures r.Ok? ==> Valid(r.value) && r.value.precision == PRECISION_DAY
    ensures r.Ok? ==> r.value.timezone == 0 && r.value.before == 0 && r.value.after == 0
    ensures ParseEra(value).Err? ==> r == Err(ParseEra(value).error)
    ensures ParseEra(value).Ok? && ParseYearMonthDay(ParseEra(value).value.1).Err? ==>
      r == Err(ParseYearMonthDay(ParseEra(value).value.1).error)
  {
    var era :- ParseEra(value);
    var reading :- ParseYearMonthDay(era.1);
    var year :- SignYear(era.0, reading.year);
    NewValue(year, reading.month, reading.day)
  }

  // ---------------------------------------------------------------------------
  // What the parser makes of dates written out

  /** An optional sign written in front of a date, and the era it stands for. */
  predicate IsEraPrefix(prefix: string) {
    prefix == "" || prefix == "+" || prefix == "-"
  }

  function SignOf(prefix: string): char {
    if prefix == "-" then BEFORE_COMMON_ERA else COMMON_ERA
  }

  /** The era of a signed or unsigned date of three numbers. */
  lemma EraOfJoined(prefix: string, a: string, s1: char, b: string, s2: char, c: string)
    requires IsEraPrefix(prefix)
    requires |a| > 0 && |b| > 0 && |c| > 0 && IsDigits(a) && IsDigits(b) && IsDigits(c)
    requires IsSeparator(s1) && IsSeparator(s2)
    ensures ParseEra(prefix + (a + [s1] + b + [s2] + c)) == Ok((SignOf(prefix), a + [s1] + b + [s2] + c))
  {
    var v := a + [s1] + b + [s2] + c;
    JoinedLayout(a, s1, b, s2, c);
    assert IsPlain(v) by {
      forall k | 0 <= k < |v| ensures !IsAsciiLetter(v[k]) {
        if k != |a| && k != |a| + |b| + 1 {
          assert IsDigit(v[k]);
        }
      }
    }
    if prefix == "" {
      assert prefix + v == v;
      PlainIsCommonEra(v);
    } else {
      assert prefix == [SignOf(prefix)];
      SignedPlainEra(SignOf(prefix), v);
    }
  }

  /** The numbers of a date once found, in the order the parser reads them. */
  lemma ReadingOfJoined(a: string, s1: char, b: string, s2: char, c: string)
    requires |a| > 0 && |b| > 0 && |c| > 0 && IsDigits(a) && IsDigits(b) && IsDigits(c)
    requires !IsDigit(s1) && !IsDigit(s2)
    ensures var r, k := ParseYearMonthDay(a + [s1] + b + [s2] + c), Classify(Value(a), Value(b), Value(c));
      && (k.Ok? ==> r == Ok(Reading(k.value, Arrange(k.value, a, b, c).0, Arrange(k.value, a, b, c).1,
                                    Arrange(k.value, a, b, c).2)))
      && (k.Err? ==> r == Err(k.error))
  {
    JoinedNumbers(a, s1, b, s2, c);
    UnsignedValue(a);
    UnsignedValue(b);
    UnsignedValue(c);
  }

  /** A signed reading year in front of the month and the day. */
  lemma SignedYear(prefix: string, y: string)
    requires IsEraPrefix(prefix) && |y| > 0 && IsDigits(y)
    ensures IsNumeral(y) && SignYear(SignOf(prefix), y) == Ok([SignOf(prefix)] + y)
  {
    UnsignedValue(y);
    assert y[0] != '-' by { assert IsDigit(y[0]); }
  }

  /** `[-]YYYY.MM.DD`: the year first, with any separators that are neither digits nor letters. */
  lemma YearMonthDayRoundTrip(prefix: string, y: string, s1: char, mm: string, s2: char, dd: string)
    requires IsEraPrefix(prefix)
    requires 1 <= |y| <= 16 && IsDigits(y) && Value(y) > 31
    requires IsTwoDigits(mm) && 1 <= Value(mm) <= 12
    requires IsTwoDigits(dd) && 1 <= Value(dd) <= 31
    requires IsSeparator(s1) && IsSeparator(s2)
    ensures ParseYmd(prefix + (y + [s1] + mm + [s2] + dd)) == Ok(DayValue(SignOf(prefix), y, mm, dd))
  {
    TwoDigitsAreDigits(mm);
    TwoDigitsAreDigits(dd);
    assert Classify(Value(y), Value(mm), Value(dd)) == Ok(YMD);
    Joined(prefix, y, s1, mm, s2, dd, YMD, y, mm, dd);
  }

  /** `[-]DD.MM.YYYY` with a day above 12, which cannot be a month. */
  lemma DayMonthYearRoundTrip(prefix: string, dd: string, s1: char, mm: string, s2: char, y: string)
    requires IsEraPrefix(prefix)
    requires 1 <= |y| <= 16 && IsDigits(y) && Value(y) > 31
    requires IsTwoDigits(mm) && 1 <= Value(mm) <= 12
    requires IsTwoDigits(dd) && 12 < Value(dd) <= 31
    requires IsSeparator(s1) && IsSeparator(s2)
    ensures ParseYmd(prefix + (dd + [s1] + mm + [s2] + y)) == Ok(DayValue(SignOf(prefix), y, mm, dd))
  {
    TwoDigitsAreDigits(mm);
    TwoDigitsAreDigits(dd);
    assert Classify(Value(dd), Value(mm), Value(y)) == Ok(DMY);
    Joined(prefix, dd, s1, mm, s2, y, DMY, y, mm, dd);
  }

  /** `[-]MM.DD.YYYY` with a day above 12, which cannot be a month. */
  lemma MonthDayYearRoundTrip(prefix: string, mm: string, s1: char, dd: string, s2: char, y: string)
    requires IsEraPrefix(prefix)
    requires 1 <= |y| <= 16 && IsDigits(y) && Value(y) > 31
    requires IsTwoDigits(mm) && 1 <= Value(mm) <= 12
    requires IsTwoDigits(dd) && 12 < Value(dd) <= 31
    requires IsSeparator(s1) && IsSeparator(s2)
    ensures ParseYmd(prefix + (mm + [s1] + dd + [s2] + y)) == Ok(DayValue(SignOf(prefix), y, mm, dd))
  {
    TwoDigitsAreDigits(mm);
    TwoDigitsAreDigits(dd);
    assert Classify(Value(mm), Value(dd), Value(y)) == Ok(MDY);
    Joined(prefix, mm, s1, dd, s2, y, MDY, y, mm, dd);
  }

  /** The common part of the round trips: three numbers the parser reads in order `o`. */
  lemma Joined(prefix: string, a: string, s1: char, b: string, s2: char, c: string,
               o: Order, y: string, mm: string, dd: string)
    requires IsEraPrefix(prefix)
    requires |a| > 0 && |b| > 0 && |c| > 0 && IsDigits(a) && IsDigits(b) && IsDigits(c)
    requires IsSeparator(s1) && IsSeparator(s2)
    requires Arrange(o, a, b, c) == (y, mm, dd)
    requires Classify(Value(a), Value(b), Value(c)) == Ok(o)
    requires 1 <= |y| <= 16 && IsTwoDigits(mm) && 1 <= Value(mm) <= 12 && IsTwoDigits(dd) && 1 <= Value(dd) <= 31
    ensures ParseYmd(prefix + (a + [s1] + b + [s2] + c)) == Ok(DayValue(SignOf(prefix), y, mm, dd))
  {
    var v := a + [s1] + b + [s2] + c;
    EraOfJoined(prefix, a, s1, b, s2, c);
    ReadingOfJoined(a, s1, b, s2, c);
    var reading := Reading(o, y, mm, dd);
    assert ParseYearMonthDay(v) == Ok(reading);
    SignedYear(prefix, y);
    var year := [SignOf(prefix)] + y;
    ParseYmdSteps(prefix + v, SignOf(prefix), v, reading, year);
    SignedDay(SignOf(prefix), y, mm, dd);
  }

  /** ParseYmd once each step has succeeded. */
  lemma ParseYmdSteps(value: string, sign: char, rest: string, reading: Reading, year: string)
    requires ParseEra(value) == Ok((sign, rest))
    requires ParseYearMonthDay(rest) == Ok(reading)
    requires IsSign(sign) && SignYear(sign, reading.year) == Ok(year)
    ensures ParseYmd(value) == NewValue(year, reading.month, reading.day)
  {
  }

  /** A signed year of digits with a two-digit month and day in range. */
  lemma SignedDay(sign: char, y: string, mm: string, dd: string)
    requires IsSign(sign) && 1 <= |y| <= 16 && IsDigits(y)
    requires IsTwoDigits(mm) && 1 <= Value(mm) <= 12 && IsTwoDigits(dd) && 1 <= Value(dd) <= 31
    ensures IsNumeral([sign] + y) && IsNumeral(mm) && IsNumeral(dd)
    ensures NewValue([sign] + y, mm, dd) == Ok(DayValue(sign, y, mm, dd))
  {
    var year := [sign] + y;
    assert year[1..] == y;
    TwoDigitNumeral(mm);
    TwoDigitNumeral(dd);
  }

  /** A date of three numbers the parser cannot read fails with Classify's error. */
  lemma Refused(prefix: string, a: string, s1: char, b: string, s2: char, c: string)
    requires IsEraPrefix(prefix)
    requires |a| > 0 && |b| > 0 && |c| > 0 && IsDigits(a) && IsDigits(b) && IsDigits(c)
    requires IsSeparator(s1) && IsSeparator(s2)
    ensures var k := Classify(Value(a), Value(b), Value(c));
      k.Err? ==> ParseYmd(prefix + (a + [s1] + b + [s2] + c)) == Err(k.error)
  {
    EraOfJoined(prefix, a, s1, b, s2, c);
    ReadingOfJoined(a, s1, b, s2, c);
  }

  /** Three small numbers: none of them can be the year. */
  lemma NoYearRefused(prefix: string, a: string, s1: char, b: string, s2: char, c: string)
    requires IsEraPrefix(prefix)
    requires |a| > 0 && |b| > 0 && |c| > 0 && IsDigits(a) && IsDigits(b) && IsDigits(c)
    requires IsSeparator(s1) && IsSeparator(s2)
    requires Value(a) <= 31 && Value(c) <= 31
    ensures ParseYmd(prefix + (a + [s1] + b + [s2] + c)) == Err(ParseError("Can not identify year"))
  {
    assert Classify(Value(a), Value(b), Value(c)) == Err(ParseError("Can not identify year"));
    Refused(prefix, a, s1, b, s2, c);
  }

  /** Day and month both 12 or less in front of the year: the two readings cannot be told apart. */
  lemma DayOrMonthRefused(prefix: string, a: string, s1: char, b: string, s2: char, y: string)
    requires IsEraPrefix(prefix)
    requires |a| > 0 && |b| > 0 && |y| > 0 && IsDigits(a) && IsDigits(b) && IsDigits(y)
    requires IsSeparator(s1) && IsSeparator(s2)
    requires Value(a) <= 12 && Value(b) <= 12 && Value(y) > 31
    ensures ParseYmd(prefix + (a + [s1] + b + [s2] + y)) == Err(ParseError("Can not distinguish DMY and MDY"))
  {
    Refused(prefix, a, s1, b, s2, y);
  }

  /** A year in front of a number above 12: year-day-month is not a format. */
  lemma YearDayMonthRefused(prefix: string, y: string, s1: char, b: string, s2: char, c: string)
    requires IsEraPrefix(prefix)
    requires |y| > 0 && |b| > 0 && |c| > 0 && IsDigits(y) && IsDigits(b) && IsDigits(c)
    requires IsSeparator(s1) && IsSeparator(s2)
    requires Value(y) > 31 && Value(b) > 12
    ensures ParseYmd(prefix + (y + [s1] + b + [s2] + c)) == Err(ParseError("Can not accept YDM"))
  {
    Refused(prefix, y, s1, b, s2, c);
  }
}
