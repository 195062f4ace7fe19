/**
 * YearTimeParser: a year and nothing else, with an era as a sign or a BC/CE
 * suffix. Before the common era, group separators between digits are dropped
 * ("-10,000", "1 000 BC", "-1_000"); the digits left go through the ISO timestamp
 * parser as a whole year. Source: src/ValueParsers/YearTimeParser.php.
 */
module YearOnly {
  import opened Results
  import opened Text
  import opened TimeValues
  import opened Parsing
  import opened Eras
  import opened IsoTimestamps

  const FAILED: string := "Failed to parse year"

  /** The separator default, as in the year -10,000. */
  const CANONICAL_DIGIT_GROUP_SEPARATOR: string := ","

  // ---------------------------------------------------------------------------
  // Removing digit-group separators: a separator character, a blank or an underscore between two digits

  /**
   * The class of the pattern: the separator's characters, `\s` and '_'. Without
   * the `u` modifier the class holds bytes and the pattern removes one byte, so
   * a character of the separator that takes several bytes in UTF-8 is never
   * removed whole: only its single-byte (ASCII) characters count.
   */
  predicate IsGroupSeparator(separator: string, c: char) {
    (c in separator && c < '\U{80}') || IsSpace(c) || c == '_'
  }

  /** Character k is a group separator with a digit on either side, so the pattern removes it. */
  predicate Dropped(separator: string, y: string, k: nat)
    requires k < |y|
  {
    0 < k && k + 1 < |y| && IsDigit(y[k - 1]) && IsDigit(y[k + 1]) && IsGroupSeparator(separator, y[k])
  }

  /** What the replacement leaves of the first n characters of y. */
  function StripPrefix(separator: string, y: string, n: nat): (r: string)
    requires n <= |y|
    ensures |r| <= n
  {
    if n == 0 then ""
    else StripPrefix(separator, y, n - 1) + (if Dropped(separator, y, n - 1) then "" else [y[n - 1]])
  }

  /** The year with its digit group separators removed. */
  function StripGroups(separator: string, y: string): (r: string)
    ensures |r| <= |y|
  {
    StripPrefix(separator, y, |y|)
  }

  /** Nothing but a removed character is lost: every other character of y is still there. */
  lemma {:induction false} StripKeeps(separator: string, y: string, n: nat, k: nat)
    requires k < n <= |y| && !Dropped(separator, y, k)
    ensures y[k] in StripPrefix(separator, y, n)
  {
    var r := StripPrefix(separator, y, n - 1);
    var t := if Dropped(separator, y, n - 1) then "" else [y[n - 1]];
    assert StripPrefix(separator, y, n) == r + t;
    if k < n - 1 {
      StripKeeps(separator, y, n - 1, k);
    } else {
      assert t == [y[k]];
    }
  }

  /** Nothing is added: every character left was in y. */
  lemma {:induction false} StripFromInput(separator: string, y: string, n: nat)
    requires n <= |y|
    ensures forall c | c in StripPrefix(separator, y, n) :: c in y
  {
    if n > 0 {
      StripFromInput(separator, y, n - 1);
    }
  }

  /** A separator with digits in it would eat digits: the lemmas below exclude it. */
  predicate DigitFree(separator: string) {
    forall k | 0 <= k < |separator| :: !IsDigit(separator[k])
  }

  lemma DigitNotDropped(separator: string, y: string, k: nat)
    requires DigitFree(separator) && k < |y| && IsDigit(y[k])
    ensures !Dropped(separator, y, k)
  {
    assert y[k] !in separator by {
      forall i | 0 <= i < |separator| ensures separator[i] != y[k] {
        assert !IsDigit(separator[i]);
      }
    }
  }

  /** A string of digits is left as it is. */
  lemma {:induction false} DigitsUntouched(separator: string, d: string, n: nat)
    requires DigitFree(separator) && IsDigits(d) && n <= |d|
    ensures StripPrefix(separator, d, n) == d[..n]
  {
    if n > 0 {
      DigitsUntouched(separator, d, n - 1);
      DigitNotDropped(separator, d, n - 1);
      assert d[..n] == d[..n - 1] + [d[n - 1]];
    }
  }

  /** The first characters of two strings that agree on them and on what is removed strip alike. */
  lemma {:induction false} StripPrefixAgree(separator: string, x: string, y: string, n: nat)
    requires n <= |x| && n <= |y| && x[..n] == y[..n]
    requires forall k | 0 <= k < n :: Dropped(separator, x, k) == Dropped(separator, y, k)
    ensures StripPrefix(separator, x, n) == StripPrefix(separator, y, n)
  {
    if n > 0 {
      assert x[..n - 1] == y[..n - 1] by {
        assert x[..n - 1] == x[..n][..n - 1] && y[..n - 1] == y[..n][..n - 1];
      }
      StripPrefixAgree(separator, x, y, n - 1);
      assert x[n - 1] == x[..n][n - 1] && y[n - 1] == y[..n][n - 1];
    }
  }

  /**
   * Appending a separator and a group of digits to digit groups appends the
   * digits alone: "1,000" strips to "1000", and so on group by group.
   */
  lemma StripAppendGroup(separator: string, x: string, c: char, d: string)
    requires DigitFree(separator) && IsGroupSeparator(separator, c)
    requires |x| > 0 && IsDigit(x[|x| - 1]) && |d| > 0 && IsDigits(d)
    ensures StripGroups(separator, x + [c] + d) == StripGroups(separator, x) + d
  {
    var y := x + [c] + d;
    forall k | 0 <= k < |x| ensures Dropped(separator, x, k) == Dropped(separator, y, k) {
      if k == |x| - 1 {
        DigitNotDropped(separator, x, k);
        DigitNotDropped(separator, y, k);
      } else {
        assert y[k] == x[k] && y[k + 1] == x[k + 1];
        if k > 0 { assert y[k - 1] == x[k - 1]; }
      }
    }
    assert y[..|x|] == x[..|x|];
    StripPrefixAgree(separator, x, y, |x|);
    assert Dropped(separator, y, |x|) by {
      assert y[|x| - 1] == x[|x| - 1] && y[|x|] == c && y[|x| + 1] == d[0];
    }
    assert StripPrefix(separator, y, |x| + 1) == StripGroups(separator, x);
    DigitsTail(separator, y, |x| + 1, StripGroups(separator, x), |d|);
    assert y[|x| + 1..] == d;
  }

  /** Past the last separator only digits follow, and each is kept. */
  lemma {:induction false} DigitsTail(separator: string, y: string, start: nat, head: string, m: nat)
    requires DigitFree(separator) && start + m <= |y|
    requires forall k | start <= k < |y| :: IsDigit(y[k])
    requires StripPrefix(separator, y, start) == head
    ensures StripPrefix(separator, y, start + m) == head + y[start..start + m]
  {
    if m > 0 {
      DigitsTail(separator, y, start, head, m - 1);
      DigitNotDropped(separator, y, start + m - 1);
      assert y[start..start + m] == y[start..start + m - 1] + [y[start + m - 1]];
    }
  }

  // ---------------------------------------------------------------------------
  // The parser

  /** The year text after the era: stripped of group separators before the common era only. */
  function YearDigits(options: Options, sign: char, year: string): (y: string)
    ensures sign != BEFORE_COMMON_ERA ==> y == year
    ensures |y| <= |year|
  {
    if sign == BEFORE_COMMON_ERA then StripGroups(options.digitGroupSeparator, year) else year
  }

  /**
   * stringParse: split the era, trim, drop group separators before the common
   * era, demand digits only, and let the ISO parser build `sign digits-00-00T00:00:00Z`.
   */
  function ParseYear(options: Options, value: string): (r: Result<TimeValue, ParseError>)
    ensures ParseEra(value).Err? ==> r == Err(ParseEra(value).error)
    ensures ParseEra(value).Ok? ==> var e := ParseEra(value).value;
      var y := YearDigits(options, e.0, Trim(e.1));
      && (!IsCtypeDigit(y) ==> r == Err(ParseError(FAILED)))
      && (IsCtypeDigit(y) ==> r == ParseIso(options, [e.0] + y + "-00-00T00:00:00Z"))
    ensures r.Ok? ==> Valid(r.value) && r.value.timezone == 0 && r.value.before == 0 && r.value.after == 0
  {
    var e :- ParseEra(value);
    var y := YearDigits(options, e.0, Trim(e.1));
    if !IsCtypeDigit(y) then Err(ParseError(FAILED))
    else ParseIso(options, [e.0] + y + "-00-00T00:00:00Z")
  }

  // ---------------------------------------------------------------------------
  // Inputs and what they give

  /** ParseYear once the era is split and the year text is known. */
  lemma ParseYearSteps(options: Options, value: string, sign: char, year: string, y: string)
    requires ParseEra(value) == Ok((sign, year)) && YearDigits(options, sign, Trim(year)) == y
    ensures ParseYear(options, value)
      == if IsCtypeDigit(y) then ParseIso(options, [sign] + y + "-00-00T00:00:00Z") else Err(ParseError(FAILED))
  {
  }

  /** What the ISO parser makes of a whole year. */
  lemma IsoYear(sign: char, year: string)
    requires (sign == '+' || sign == '-') && CanonicalYear(year)
    ensures var r := ParseIso(DEFAULT_OPTIONS, [sign] + year + "-00-00T00:00:00Z");
      && r.Ok? && r.value.timestamp == Format(DateStamp(sign, year, "00"))
      && r.value.precision == PrecisionFromYear(year)
      && r.value.calendarModel
         == (if sign == '-' || Value(year) <= 1582 then CALENDAR_JULIAN else CALENDAR_GREGORIAN)
  {
    assert [sign] + year + "-00-00T00:00:00Z" == [sign] + year + "-" + "00" + "-00T00:00:00Z";
    assert Value("00") == 0;
    IsoDate(sign, year, "00");
  }

  /** A plain year of the common era, read back as a whole year at the precision its digits tell. */
  lemma CommonEraYear(year: string)
    requires CanonicalYear(year)
    ensures var r := ParseYear(DEFAULT_OPTIONS, year);
      && r.Ok? && r.value.timestamp == Format(DateStamp('+', year, "00"))
      && r.value.precision == PrecisionFromYear(year)
      && r.value.calendarModel == (if Value(year) <= 1582 then CALENDAR_JULIAN else CALENDAR_GREGORIAN)
  {
    PlainEraOf(year);
    ParseYearSteps(DEFAULT_OPTIONS, year, '+', year, year);
    IsoYear('+', year);
  }

  lemma PlainEraOf(year: string)
    requires |year| > 0 && IsDigits(year)
    ensures ParseEra(year) == Ok((COMMON_ERA, year)) && Trim(year) == year
    ensures ParseEra("-" + year) == Ok((BEFORE_COMMON_ERA, year))
  {
    DigitsArePlain(year);
    PlainIsCommonEra(year);
    SignedPlainEra('-', year);
    assert ['-'] + year == "-" + year;
    TrimDigits(year);
  }

  /** "-Y": a year before the common era, always Julian. */
  lemma BeforeCommonEraYear(year: string)
    requires CanonicalYear(year)
    ensures var r := ParseYear(DEFAULT_OPTIONS, "-" + year);
      && r.Ok? && r.value.timestamp == Format(DateStamp('-', year, "00"))
      && r.value.precision == PrecisionFromYear(year)
      && r.value.calendarModel == CALENDAR_JULIAN
  {
    PlainEraOf(year);
    NegativeYearDigits(year);
    ParseYearSteps(DEFAULT_OPTIONS, "-" + year, '-', year, year);
    IsoYear('-', year);
  }

  /** Plain digits before the common era lose nothing to the group separator. */
  lemma NegativeYearDigits(year: string)
    requires |year| > 0 && IsDigits(year)
    ensures YearDigits(DEFAULT_OPTIONS, '-', Trim(year)) == year
  {
    TrimDigits(year);
    DigitsUntouched(DEFAULT_OPTIONS.digitGroupSeparator, year, |year|);
    assert year[..|year|] == year;
  }

  lemma DigitsArePlain(d: string)
    requires |d| > 0 && IsDigits(d)
    ensures IsPlain(d)
  {
    assert IsDigit(d[0]) && IsDigit(d[|d| - 1]);
  }

  /** Digits, one separator character, digits: no letter, so no era marker. */
  lemma GroupedArePlain(d1: string, c: char, d2: string)
    requires |d1| > 0 && IsDigits(d1) && |d2| > 0 && IsDigits(d2) && !IsAsciiLetter(c)
    ensures IsPlain(d1 + [c] + d2)
    ensures |d1 + [c] + d2| > 0 && !IsTrimSpace(d1[0]) && !IsTrimSpace(d2[|d2| - 1])
  {
    var v := d1 + [c] + d2;
    assert v[0] == d1[0] && v[|v| - 1] == d2[|d2| - 1];
    forall k | 0 <= k < |v| ensures !IsAsciiLetter(v[k]) {
      if k < |d1| { assert v[k] == d1[k]; } else if k > |d1| { assert v[k] == d2[k - |d1| - 1]; }
    }
  }

  /** The era and trimmed year text of `-d1 c d2`. */
  lemma GroupedEra(d1: string, c: char, d2: string)
    requires |d1| > 0 && IsDigits(d1) && |d2| > 0 && IsDigits(d2) && !IsAsciiLetter(c)
    ensures ParseEra("-" + d1 + [c] + d2) == Ok((BEFORE_COMMON_ERA, d1 + [c] + d2))
    ensures ParseEra(d1 + [c] + d2) == Ok((COMMON_ERA, d1 + [c] + d2))
    ensures Trim(d1 + [c] + d2) == d1 + [c] + d2
  {
    GroupedArePlain(d1, c, d2);
    PlainEras(d1 + [c] + d2);
    Regroup("-", d1, [c], d2);
  }

  lemma Regroup(a: string, b: string, c: string, d: string)
    ensures a + b + c + d == a + (b + c + d)
  {
  }

  lemma PlainEras(v: string)
    requires IsPlain(v) && |v| > 0 && !IsTrimSpace(v[0]) && !IsTrimSpace(v[|v| - 1])
    ensures ParseEra("-" + v) == Ok((BEFORE_COMMON_ERA, v))
    ensures ParseEra(v) == Ok((COMMON_ERA, v)) && Trim(v) == v
  {
    SignedPlainEra('-', v);
    PlainIsCommonEra(v);
    assert "-" + v == ['-'] + v;
    TrimAround("", v, "");
    assert "" + v + "" == v;
  }

  /** The era, trimmed text and stripped text of `-d1 d2`. */
  lemma JoinedEra(separator: string, d1: string, d2: string)
    requires DigitFree(separator) && |d1| > 0 && IsDigits(d1) && |d2| > 0 && IsDigits(d2)
    ensures ParseEra("-" + d1 + d2) == Ok((BEFORE_COMMON_ERA, d1 + d2))
    ensures Trim(d1 + d2) == d1 + d2 && StripGroups(separator, d1 + d2) == d1 + d2
  {
    var plain := d1 + d2;
    assert IsDigits(plain) by {
      forall k | 0 <= k < |plain| ensures IsDigit(plain[k]) {
        if k < |d1| { assert plain[k] == d1[k]; } else { assert plain[k] == d2[k - |d1|]; }
      }
    }
    PlainEraOf(plain);
    assert "-" + d1 + d2 == "-" + plain;
    DigitsUntouched(separator, plain, |plain|);
    assert plain[..|plain|] == plain;
  }

  /** A separator between digit groups is stripped: `d1 c d2` leaves `d1 d2`. */
  lemma GroupStripped(separator: string, d1: string, c: char, d2: string)
    requires DigitFree(separator) && IsGroupSeparator(separator, c)
    requires |d1| > 0 && IsDigits(d1) && |d2| > 0 && IsDigits(d2)
    ensures StripGroups(separator, d1 + [c] + d2) == d1 + d2
  {
    DigitsUntouched(separator, d1, |d1|);
    assert d1[..|d1|] == d1;
    StripAppendGroup(separator, d1, c, d2);
  }

  /** A character kept that is no digit makes the text fail the digit test. */
  lemma KeptNonDigit(separator: string, d1: string, c: char, d2: string)
    requires !IsGroupSeparator(separator, c) && !IsDigit(c)
    ensures !IsCtypeDigit(StripGroups(separator, d1 + [c] + d2))
    ensures !IsCtypeDigit(d1 + [c] + d2)
  {
    var v := d1 + [c] + d2;
    assert v[|d1|] == c;
    assert !Dropped(separator, v, |d1|);
    StripKeeps(separator, v, |v|, |d1|);
    var y := StripGroups(separator, v);
    assert c in y;
    var i :| 0 <= i < |y| && y[i] == c;
    assert !IsCtypeDigit(y);
  }

  /**
   * Before the common era a group separator between digits makes no difference:
   * "-10,000" is "-10000".
   */
  lemma GroupSeparatorIgnored(options: Options, d1: string, c: char, d2: string)
    requires DigitFree(options.digitGroupSeparator) && IsGroupSeparator(options.digitGroupSeparator, c)
    requires |d1| > 0 && IsDigits(d1) && |d2| > 0 && IsDigits(d2) && !IsAsciiLetter(c)
    ensures ParseYear(options, "-" + d1 + [c] + d2) == ParseYear(options, "-" + d1 + d2)
  {
    var sep := options.digitGroupSeparator;
    GroupedEra(d1, c, d2);
    GroupStripped(sep, d1, c, d2);
    JoinedEra(sep, d1, d2);
    ParseYearSteps(options, "-" + d1 + [c] + d2, BEFORE_COMMON_ERA, d1 + [c] + d2, d1 + d2);
    ParseYearSteps(options, "-" + d1 + d2, BEFORE_COMMON_ERA, d1 + d2, d1 + d2);
  }

  /** In the common era nothing is stripped, so digits with a separator are refused. */
  lemma CommonEraGroupsRefused(options: Options, d1: string, c: char, d2: string)
    requires |d1| > 0 && IsDigits(d1) && |d2| > 0 && IsDigits(d2) && !IsAsciiLetter(c) && !IsDigit(c)
    ensures ParseYear(options, d1 + [c] + d2) == Err(ParseError(FAILED))
  {
    GroupedEra(d1, c, d2);
    assert !IsCtypeDigit(d1 + [c] + d2) by {
      assert (d1 + [c] + d2)[|d1|] == c;
    }
    ParseYearSteps(options, d1 + [c] + d2, COMMON_ERA, d1 + [c] + d2, d1 + [c] + d2);
  }

  /** A character the separator option does not name stays, so the year is refused. */
  lemma OtherSeparatorRefused(options: Options, d1: string, c: char, d2: string)
    requires !IsGroupSeparator(options.digitGroupSeparator, c)
    requires |d1| > 0 && IsDigits(d1) && |d2| > 0 && IsDigits(d2) && !IsAsciiLetter(c) && !IsDigit(c)
    ensures ParseYear(options, "-" + d1 + [c] + d2) == Err(ParseError(FAILED))
  {
    var sep := options.digitGroupSeparator;
    var v := d1 + [c] + d2;
    GroupedEra(d1, c, d2);
    KeptNonDigit(sep, d1, c, d2);
    ParseYearSteps(options, "-" + d1 + [c] + d2, BEFORE_COMMON_ERA, v, StripGroups(sep, v));
  }

  /** A separator option outside ASCII removes nothing, so digits grouped with it are refused. */
  lemma MultibyteSeparatorRefused(options: Options, d1: string, c: char, d2: string)
    requires c in options.digitGroupSeparator && c >= '\U{80}'
    requires |d1| > 0 && IsDigits(d1) && |d2| > 0 && IsDigits(d2)
    ensures ParseYear(options, "-" + d1 + [c] + d2) == Err(ParseError(FAILED))
  {
    OtherSeparatorRefused(options, d1, c, d2);
  }

  /** "-19.000" as `-d1 c d2`. */
  lemma ExampleParts(grouped: string, joined: string)
    requires grouped == "-19.000" && joined == "-19000"
    ensures grouped == "-" + grouped[1..3] + [grouped[3]] + grouped[4..]
    ensures joined == "-" + grouped[1..3] + grouped[4..]
    ensures IsDigits(grouped[1..3]) && IsDigits(grouped[4..]) && grouped[3] == '.'
  {
  }

  /** With the default separator, "-19.000" is refused. */
  lemma DefaultSeparatorExample(grouped: string)
    requires grouped == "-19.000"
    ensures ParseYear(DEFAULT_OPTIONS, grouped) == Err(ParseError(FAILED))
  {
    ExampleParts(grouped, "-19000");
    OtherSeparatorRefused(DEFAULT_OPTIONS, grouped[1..3], '.', grouped[4..]);
  }

  /** With '.' configured as the separator, "-19.000" is the year -19000. */
  lemma PeriodSeparatorExample(grouped: string, joined: string)
    requires grouped == "-19.000" && joined == "-19000"
    ensures ParseYear(DEFAULT_OPTIONS.(digitGroupSeparator := "."), grouped)
      == ParseYear(DEFAULT_OPTIONS.(digitGroupSeparator := "."), joined)
  {
    ExampleParts(grouped, joined);
    var options := DEFAULT_OPTIONS.(digitGroupSeparator := ".");
    assert DigitFree(options.digitGroupSeparator);
    GroupSeparatorIgnored(options, grouped[1..3], '.', grouped[4..]);
  }
}
