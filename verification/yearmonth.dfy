/**
 * YearMonthTimeParser: a year and a month in either order, the month written as
 * a number or as a localised month name; month/year wins when both numbers could
 * be a month. The assembled timestamp goes through the ISO timestamp parser.
 * Source: src/ValueParsers/YearMonthTimeParser.php.
 */
module YearMonth {
  import opened Results
  import opened Text
  import opened TimeValues
  import opened Parsing
  import opened IsoTimestamps

  const FAILED: string := "Failed to parse year and month"

  // ---------------------------------------------------------------------------
  // The two words of `^(-?[\d\p{L}]+)\s*?[\/\-\s.,]\s*(-?[\d\p{L}]+)$`

  predicate IsWordChar(c: char) {
    IsDigit(c) || IsLetter(c)
  }

  /** `-?[\d\p{L}]+`: word characters with an optional minus sign in front. */
  predicate IsWord(w: string) {
    var s := if |w| > 0 && w[0] == '-' then 1 else 0;
    s < |w| && forall k | s <= k < |w| :: IsWordChar(w[k])
  }

  /** The class `[\/\-\s.,]`. */
  predicate IsSeparator(c: char) {
    c == '/' || c == '-' || c == '.' || c == ',' || IsUnicodeSpace(c)
  }

  predicate AllSpaces(s: string) {
    forall k | 0 <= k < |s| :: IsUnicodeSpace(s[k])
  }

  /** `\s*?[\/\-\s.,]\s*` matches all of g, scanned as the pattern does. */
  predicate IsGap(g: string) {
    var q := SkipUnicodeSpaces(g, 0);
    |g| > 0 && (q == |g| || (IsSeparator(g[q]) && SkipUnicodeSpaces(g, q + 1) == |g|))
  }

  /** g is blanks, one separator at q, blanks. */
  predicate GapAt(g: string, q: nat) {
    q < |g| && IsSeparator(g[q]) && AllSpaces(g[..q]) && AllSpaces(g[q + 1..])
  }

  /** The scan agrees with the declarative reading of the gap. */
  lemma GapIff(g: string)
    ensures IsGap(g) <==> exists q: nat :: GapAt(g, q)
  {
    var q0 := SkipUnicodeSpaces(g, 0);
    if IsGap(g) {
      if q0 == |g| {
        assert GapAt(g, 0);
      } else {
        assert GapAt(g, q0);
      }
    }
    if q: nat :| GapAt(g, q) {
      forall k | 0 <= k < q ensures IsUnicodeSpace(g[k]) {
        assert g[k] == g[..q][k];
      }
      forall k | q < k < |g| ensures IsUnicodeSpace(g[k]) {
        assert g[k] == g[q + 1..][k - q - 1];
      }
    }
  }

  lemma SeparatorIsNoWordChar(c: char)
    requires IsSeparator(c)
    ensures !IsWordChar(c)
  {
  }

  /** Every character of a gap is blank or a separator, so none belongs to a word. */
  lemma GapHasNoWordChar(g: string)
    requires IsGap(g)
    ensures forall k | 0 <= k < |g| :: !IsWordChar(g[k])
  {
    GapIff(g);
    var q: nat :| GapAt(g, q);
    forall k | 0 <= k < |g| ensures !IsWordChar(g[k]) {
      if k < q {
        assert g[k] == g[..q][k];
      } else if k > q {
        assert g[k] == g[q + 1..][k - q - 1];
      }
      SeparatorIsNoWordChar(g[k]);
    }
  }

  /** The index after the word characters starting at i. */
  function WordEnd(s: string, i: nat): (j: nat)
    requires i <= |s|
    ensures i <= j <= |s|
    ensures forall k | i <= k < j :: IsWordChar(s[k])
    ensures j == |s| || !IsWordChar(s[j])
    decreases |s| - i
  {
    if i < |s| && IsWordChar(s[i]) then WordEnd(s, i + 1) else i
  }

  /** The start of the word characters that end at j. */
  function WordStart(s: string, j: nat): (i: nat)
    requires j <= |s|
    ensures i <= j
    ensures forall k | i <= k < j :: IsWordChar(s[k])
    ensures i == 0 || !IsWordChar(s[i - 1])
  {
    if j > 0 && IsWordChar(s[j - 1]) then WordStart(s, j - 1) else j
  }

  lemma {:induction false} WordEndOf(s: string, i: nat, j: nat)
    requires i <= j <= |s|
    requires forall k | i <= k < j :: IsWordChar(s[k])
    requires j == |s| || !IsWordChar(s[j])
    ensures WordEnd(s, i) == j
    decreases j - i
  {
    if i < j {
      WordEndOf(s, i + 1, j);
    }
  }

  lemma {:induction false} WordStartOf(s: string, i: nat, j: nat)
    requires i <= j <= |s|
    requires forall k | i <= k < j :: IsWordChar(s[k])
    requires i == 0 || !IsWordChar(s[i - 1])
    ensures WordStart(s, j) == i
    decreases j - i
  {
    if i < j {
      WordStartOf(s, i, j - 1);
    }
  }

  /**
   * The two words the pattern captures from trimmed input v. The first word is as
   * long as it can be; the second takes a minus sign in front of its word
   * characters whenever what is left still matches the gap, since the lazy `\s*?`
   * tries the shortest blank run first.
   */
  function Split(v: string): (r: Option<(string, string)>)
    ensures r.Some? ==> 0 < |r.value.0| && 0 < |r.value.1| && |r.value.0| + |r.value.1| < |v|
  {
    var s := if |v| > 0 && v[0] == '-' then 1 else 0;
    var e := WordEnd(v, s);
    var t := WordStart(v, |v|);
    if e == s || e == |v| || t == |v| then None else SplitAt(v, e, t)
  }

  /** The words once the first ends at e and the word characters of the second start at t. */
  function SplitAt(v: string, e: nat, t: nat): (r: Option<(string, string)>)
    requires 0 < e < t < |v|
    ensures r.Some? ==> |r.value.0| + |r.value.1| < |v|
  {
    var g := v[e..t];
    if g[|g| - 1] == '-' && IsGap(g[..|g| - 1]) then Some((v[..e], v[t - 1..]))
    else if IsGap(g) then Some((v[..e], v[t..]))
    else None
  }

  /**
   * The second word takes a minus sign that follows the gap: the gap alone cannot
   * end in '-' with blanks and a separator before it.
   */
  predicate Preferred(g: string, b: string) {
    |g| > 0 && |b| > 0 && (b[0] == '-' || !(g[|g| - 1] == '-' && IsGap(g[..|g| - 1])))
  }

  /** v is the words a and b around a gap, split as the pattern splits it. */
  predicate Matches(v: string, a: string, b: string) {
    && IsWord(a) && IsWord(b) && |a| + |b| < |v|
    && v[..|a|] == a && v[|v| - |b|..] == b
    && IsGap(v[|a|..|v| - |b|]) && Preferred(v[|a|..|v| - |b|], b)
  }

  /** Split finds exactly the match of the pattern: a and b are captured iff they match. */
  lemma SplitIff(v: string, a: string, b: string)
    ensures Split(v) == Some((a, b)) <==> Matches(v, a, b)
  {
    if Matches(v, a, b) {
      SplitFinds(v, a, b);
    }
    if Split(v) == Some((a, b)) {
      SplitSound(v);
    }
  }

  lemma SplitSound(v: string)
    requires Split(v).Some?
    ensures Matches(v, Split(v).value.0, Split(v).value.1)
  {
    var s := if |v| > 0 && v[0] == '-' then 1 else 0;
    var e := WordEnd(v, s);
    var t := WordStart(v, |v|);
    assert 0 < e < t < |v| && Split(v) == SplitAt(v, e, t);
    FirstWord(v, s, e);
    SplitAtSound(v, e, t);
  }

  lemma SplitAtSound(v: string, e: nat, t: nat)
    requires 0 < e < t < |v| && SplitAt(v, e, t).Some?
    requires IsWord(v[..e]) && forall k | t <= k < |v| :: IsWordChar(v[k])
    ensures Matches(v, SplitAt(v, e, t).value.0, SplitAt(v, e, t).value.1)
  {
    var g := v[e..t];
    assert g[|g| - 1] == v[t - 1] && g[..|g| - 1] == v[e..t - 1];
    if g[|g| - 1] == '-' && IsGap(g[..|g| - 1]) {
      LastWord(v, t - 1, t);
      MinusTaken(v, e, t);
    } else {
      LastWord(v, t, t);
      MinusLeft(v, e, t);
    }
  }

  /** The gap ends in '-' after a gap of its own: the second word takes the minus sign. */
  lemma MinusTaken(v: string, e: nat, t: nat)
    requires 0 < e < t < |v| && v[t - 1] == '-' && IsGap(v[e..t - 1])
    requires IsWord(v[..e]) && IsWord(v[t - 1..])
    ensures SplitAt(v, e, t) == Some((v[..e], v[t - 1..]))
    ensures Matches(v, v[..e], v[t - 1..])
  {
    MinusTakenSplit(v, e, t);
    MatchesAround(v, e, t - 1, v[e..t - 1]);
  }

  lemma MinusTakenSplit(v: string, e: nat, t: nat)
    requires 0 < e < t < |v| && v[t - 1] == '-' && IsGap(v[e..t - 1])
    ensures SplitAt(v, e, t) == Some((v[..e], v[t - 1..]))
  {
    var g := v[e..t];
    assert g[|g| - 1] == v[t - 1] && g[..|g| - 1] == v[e..t - 1];
  }

  /** Otherwise the gap is all of v[e..t] and the second word starts at t. */
  lemma MinusLeft(v: string, e: nat, t: nat)
    requires 0 < e < t < |v| && SplitAt(v, e, t).Some?
    requires !(v[t - 1] == '-' && IsGap(v[e..t - 1]))
    requires IsWord(v[..e]) && IsWord(v[t..])
    ensures SplitAt(v, e, t) == Some((v[..e], v[t..]))
    ensures Matches(v, v[..e], v[t..])
  {
    assert SplitAt(v, e, t) == Some((v[..e], v[t..])) by {
      var g := v[e..t];
      assert g[|g| - 1] == v[t - 1] && g[..|g| - 1] == v[e..t - 1];
    }
    MatchesAround(v, e, t, v[e..t]);
  }

  /** Words in front of and behind a gap the second word cannot take a minus sign from. */
  lemma MatchesAround(v: string, e: nat, t: nat, g: string)
    requires 0 < e < t < |v| && g == v[e..t]
    requires IsWord(v[..e]) && IsWord(v[t..]) && IsGap(g)
    requires v[t] == '-' || !(g[|g| - 1] == '-' && IsGap(g[..|g| - 1]))
    ensures Matches(v, v[..e], v[t..])
  {
    var b := v[t..];
    assert b[0] == v[t];
    assert v[|v| - |b|..] == b;
  }

  /** What the scan takes from the front is a word. */
  lemma FirstWord(v: string, s: nat, e: nat)
    requires |v| > 0 && s == (if v[0] == '-' then 1 else 0)
    requires s < e <= |v| && forall k | s <= k < e :: IsWordChar(v[k])
    ensures IsWord(v[..e])
  {
    var a := v[..e];
    assert a[0] == v[0];
    forall k | s <= k < |a| ensures IsWordChar(a[k]) {
      assert a[k] == v[k];
    }
  }

  /** What the scan takes from the back, with or without the minus sign before it, is a word. */
  lemma LastWord(v: string, i: nat, t: nat)
    requires i <= t < |v| && (i == t || (i + 1 == t && v[i] == '-'))
    requires forall k | t <= k < |v| :: IsWordChar(v[k])
    ensures IsWord(v[i..])
  {
    var b := v[i..];
    assert b[0] == v[i];
    assert b[0] == '-' <==> i < t by {
      if i == t { assert IsWordChar(v[t]); }
    }
    forall k | t - i <= k < |b| ensures IsWordChar(b[k]) {
      assert b[k] == v[i + k];
    }
  }

  lemma SplitFinds(v: string, a: string, b: string)
    requires Matches(v, a, b)
    ensures Split(v) == Some((a, b))
  {
    var g := v[|a|..|v| - |b|];
    assert v == a + g + b;
    SplitOfParts(a, g, b);
  }

  lemma SplitOfParts(a: string, g: string, b: string)
    requires IsWord(a) && IsWord(b) && IsGap(g) && Preferred(g, b)
    ensures Split(a + g + b) == Some((a, b))
  {
    var v, t := a + g + b, |a| + |g| + (if b[0] == '-' then 1 else 0);
    Scanned(a, g, b, v, t);
    Gapped(a, g, b, v, t);
    SplitVia(v, |a|, t, Some((a, b)));
  }

  /** Where both scans stop, the split is the one taken at those indices. */
  lemma SplitVia(v: string, e: nat, t: nat, r: Option<(string, string)>)
    requires ScansTo(v, e, t) && SplitAt(v, e, t) == r
    ensures Split(v) == r
  {
    SplitScanned(v, e, t);
  }

  /** Both scans over two words and a gap stop at the gap's ends. */
  lemma Scanned(a: string, g: string, b: string, v: string, t: nat)
    requires IsWord(a) && IsWord(b) && IsGap(g) && |g| > 0
    requires v == a + g + b && t == |a| + |g| + (if b[0] == '-' then 1 else 0)
    ensures ScansTo(v, |a|, t)
  {
    GapHasNoWordChar(g);
    ScanFront(v, a, g, b);
    ScanBack(v, a, g, b);
    assert v[0] == a[0];
  }

  /** The gap between two words, a minus sign before the second word going with it. */
  lemma Gapped(a: string, g: string, b: string, v: string, t: nat)
    requires IsWord(a) && IsWord(b) && IsGap(g) && Preferred(g, b)
    requires v == a + g + b && t == |a| + |g| + (if b[0] == '-' then 1 else 0)
    ensures 0 < |a| < t < |v| && SplitAt(v, |a|, t) == Some((a, b))
  {
    if b[0] == '-' {
      SplitAtMinus(v, a, g, b);
    } else {
      SplitAtPlain(v, a, g, b);
    }
  }

  /** The scan from the front stops at e and the scan from the back at t, both inside the value. */
  predicate ScansTo(v: string, e: nat, t: nat) {
    && 0 < e < t < |v| && (v[0] == '-' ==> e > 1)
    && WordEnd(v, if v[0] == '-' then 1 else 0) == e && WordStart(v, |v|) == t
  }

  /** Once both scans stop inside the value, the split is decided by the gap between them. */
  lemma SplitScanned(v: string, e: nat, t: nat)
    requires ScansTo(v, e, t)
    ensures Split(v) == SplitAt(v, e, t)
  {
  }

  lemma SplitAtMinus(v: string, a: string, g: string, b: string)
    requires |a| > 0 && |b| > 1 && b[0] == '-' && IsGap(g) && v == a + g + b
    ensures SplitAt(v, |a|, |a| + |g| + 1) == Some((a, b))
  {
    var x := v[|a|..|a| + |g| + 1];
    assert x == g + "-";
    assert x[..|x| - 1] == g;
    assert v[..|a|] == a;
    assert v[|a| + |g|..] == b;
  }

  lemma SplitAtPlain(v: string, a: string, g: string, b: string)
    requires |a| > 0 && |b| > 0 && IsGap(g) && v == a + g + b
    requires !(g[|g| - 1] == '-' && IsGap(g[..|g| - 1]))
    ensures SplitAt(v, |a|, |a| + |g|) == Some((a, b))
  {
    assert v[|a|..|a| + |g|] == g;
    assert v[..|a|] == a;
    assert v[|a| + |g|..] == b;
  }

  /** The scan from the front stops where the gap begins. */
  lemma ScanFront(v: string, a: string, g: string, b: string)
    requires IsWord(a) && |g| > 0 && !IsWordChar(g[0]) && v == a + g + b
    ensures WordEnd(v, if v[0] == '-' then 1 else 0) == |a|
  {
    var s := if a[0] == '-' then 1 else 0;
    assert v[0] == a[0];
    forall k | s <= k < |a| ensures IsWordChar(v[k]) {
      assert v[k] == a[k];
    }
    assert v[|a|] == g[0];
    WordEndOf(v, s, |a|);
  }

  /** The scan from the back stops after the gap, or after a minus sign that starts the second word. */
  lemma ScanBack(v: string, a: string, g: string, b: string)
    requires IsWord(b) && |g| > 0 && !IsWordChar(g[|g| - 1]) && v == a + g + b
    ensures WordStart(v, |v|) == |v| - |b| + (if b[0] == '-' then 1 else 0)
  {
    var t := |v| - |b| + (if b[0] == '-' then 1 else 0);
    forall k | t <= k < |v| ensures IsWordChar(v[k]) {
      assert v[k] == b[k - (|v| - |b|)];
    }
    if b[0] == '-' {
      assert v[t - 1] == b[0];
    } else {
      assert v[t - 1] == g[|g| - 1];
    }
    WordStartOf(v, t, |v|);
  }

  // ---------------------------------------------------------------------------
  // Reading the words

  /** `^-?\d+$`. */
  predicate IsInteger(w: string) {
    IsNumeral(w) && w[0] != '+'
  }

  /** canBeMonth: PHP compares the numeric string with 0 and 12 as numbers. */
  predicate CanBeMonth(w: string)
    requires IsInteger(w)
  {
    0 <= NumeralValue(w) <= 12
  }

  /** The loop of parseMonth: the first entry whose name equals w ignoring case; |table| when none does. */
  function FirstName(monthNumbers: seq<(string, int)>, w: string): (k: nat)
    ensures k <= |monthNumbers|
    ensures forall j | 0 <= j < k :: !EqualsIgnoreCase(monthNumbers[j].0, w)
    ensures k < |monthNumbers| ==> EqualsIgnoreCase(monthNumbers[k].0, w)
  {
    if |monthNumbers| == 0 then 0
    else if EqualsIgnoreCase(monthNumbers[0].0, w) then 0
    else 1 + FirstName(monthNumbers[1..], w)
  }

  /** parseMonth: the number of the first month name equal to w ignoring case. */
  function ParseMonth(monthNumbers: seq<(string, int)>, w: string): (r: Option<int>)
    ensures r.None? <==> forall k | 0 <= k < |monthNumbers| :: !EqualsIgnoreCase(monthNumbers[k].0, w)
    ensures r.Some? ==> exists k | 0 <= k < |monthNumbers| ::
      && EqualsIgnoreCase(monthNumbers[k].0, w) && r.value == monthNumbers[k].1
      && forall j | 0 <= j < k :: !EqualsIgnoreCase(monthNumbers[j].0, w)
  {
    var k := FirstName(monthNumbers, w);
    if k < |monthNumbers| then Some(monthNumbers[k].1) else None
  }

  /**
   * Which word is the year and which the month, the month as the text sprintf
   * pads: two numbers read month first when the first can be a month; a number
   * and a name read the name as the month; a month numbered 0 counts as none.
   */
  function Reading(monthNumbers: seq<(string, int)>, a: string, b: string): (r: Option<(string, string)>)
    ensures r.Some? ==> IsInteger(r.value.0) && (r.value.0 == a || r.value.0 == b)
    ensures IsInteger(a) && IsInteger(b) ==>
      && (CanBeMonth(a) ==> r == Some((b, a)))
      && (!CanBeMonth(a) && CanBeMonth(b) ==> r == Some((a, b)))
      && (!CanBeMonth(a) && !CanBeMonth(b) ==> r.None?)
    ensures !IsInteger(a) && !IsInteger(b) ==> r.None?
  {
    if IsInteger(a) && IsInteger(b) then
      if CanBeMonth(a) then Some((b, a))
      else if CanBeMonth(b) then Some((a, b))
      else None
    else if IsInteger(a) then
      var m := ParseMonth(monthNumbers, b);
      if m.Some? && m.value != 0 then Some((a, IntToString(m.value))) else None
    else if IsInteger(b) then
      var m := ParseMonth(monthNumbers, a);
      if m.Some? && m.value != 0 then Some((b, IntToString(m.value))) else None
    else
      None
  }

  /** getTimeFromYearMonth's input to the ISO parser: a '+' unless the year is negative, the month padded to two. */
  function IsoText(year: string, month: string): (s: string)
    requires |year| > 0
  {
    (if year[0] != '-' then "+" + year else year) + "-" + PadLeft(month, 2, '0') + "-00T00:00:00Z"
  }

  /**
   * stringParse: trim, split into two words, read year and month, and let the ISO
   * parser build the value from `year-month-00T00:00:00Z`.
   */
  function ParseYearMonth(options: Options, monthNumbers: seq<(string, int)>, value: string)
    : (r: Result<TimeValue, ParseError>)
    ensures Split(Trim(value)).None? ==> r == Err(ParseError(FAILED))
    ensures r.Ok? ==> Valid(r.value) && r.value.timezone == 0 && r.value.before == 0 && r.value.after == 0
    ensures r.Ok? ==> var w := Split(Trim(value)).value; var ym := Reading(monthNumbers, w.0, w.1);
      ym.Some? && ParseIso(options, IsoText(ym.value.0, ym.value.1)) == r
  {
    match Split(Trim(value))
    case None => Err(ParseError(FAILED))
    case Some(w) =>
      match Reading(monthNumbers, w.0, w.1)
      case None => Err(ParseError(FAILED))
      case Some(ym) => ParseIso(options, IsoText(ym.0, ym.1))
  }

  // ---------------------------------------------------------------------------
  // What the parser gives back

  /** A month number from the name table written with at least two characters, zero-padded on the left. */
  lemma PaddedMonthNumber(m: int)
    requires 1 <= m <= 12
    ensures IsTwoDigits(PadLeft(IntToString(m), 2, '0'))
    ensures Value(PadLeft(IntToString(m), 2, '0')) == m
  {
    var s := NatToString(m);
    assert |s| <= 2 by {
      if m >= 10 {
        assert m / 10 == 1;
        assert |NatToString(m / 10)| == 1;
      }
    }
    ValueLeadingZeros(2 - |s|, s);
  }

  // ---------------------------------------------------------------------------
  // Inputs and what they give

  /** Two words around a gap, once trimmed, are split back into those words. */
  lemma WordsAround(a: string, g: string, b: string)
    requires IsWord(a) && IsWord(b) && IsGap(g) && Preferred(g, b)
    ensures Trim(a + g + b) == a + g + b
    ensures Split(a + g + b) == Some((a, b))
  {
    var v := a + g + b;
    assert v[..|a|] == a && v[|v| - |b|..] == b && v[|a|..|v| - |b|] == g;
    SplitFinds(v, a, b);
    WordsTrimmed(a, g, b);
  }

  lemma WordsTrimmed(a: string, g: string, b: string)
    requires IsWord(a) && IsWord(b)
    ensures Trim(a + g + b) == a + g + b
  {
    var v := a + g + b;
    assert v[0] == a[0] && v[|v| - 1] == b[|b| - 1];
    assert !IsTrimSpace(v[0]) by {
      if a[0] != '-' { assert IsWordChar(a[0]); }
    }
    assert IsWordChar(v[|v| - 1]);
    TrimAround("", v, "");
    assert "" + v + "" == v;
  }

  /** On any input of two words around a gap, the parser hands the reading of the words to the ISO parser. */
  lemma ParseWords(options: Options, monthNumbers: seq<(string, int)>, a: string, g: string, b: string)
    requires IsWord(a) && IsWord(b) && IsGap(g) && Preferred(g, b)
    ensures var ym := Reading(monthNumbers, a, b);
      ParseYearMonth(options, monthNumbers, a + g + b)
        == if ym.None? then Err(ParseError(FAILED)) else ParseIso(options, IsoText(ym.value.0, ym.value.1))
  {
    WordsAround(a, g, b);
  }

  /** The value of a month of a year: the stamp as written, month precision, the calendar by the year. */
  predicate IsMonthOf(r: Result<TimeValue, ParseError>, year: string, month: string)
    requires CanonicalYear(year) && IsTwoDigits(month)
  {
    && r.Ok? && r.value.timestamp == Format(DateStamp('+', year, month))
    && r.value.precision == PRECISION_MONTH
    && r.value.calendarModel == (if Value(year) <= 1582 then CALENDAR_JULIAN else CALENDAR_GREGORIAN)
  }

  lemma IsoMonthText(year: string, month: string)
    requires CanonicalYear(year) && IsTwoDigits(month) && 1 <= Value(month) <= 12
    ensures IsMonthOf(ParseIso(DEFAULT_OPTIONS, IsoText(year, month)), year, month)
  {
    assert IsDigit(year[0]);
    assert PadLeft(month, 2, '0') == month;
    assert IsoText(year, month) == ['+'] + year + "-" + month + "-00T00:00:00Z";
    IsoDate('+', year, month);
  }

  lemma CanonicalIsInteger(year: string)
    requires CanonicalYear(year)
    ensures IsInteger(year) && NumeralValue(year) == Value(year)
  {
    UnsignedValue(year);
  }

  lemma TwoDigitsInteger(month: string)
    requires IsTwoDigits(month)
    ensures IsInteger(month) && NumeralValue(month) == Value(month)
  {
    assert IsDigits(month);
    UnsignedValue(month);
  }

  /** "MM/YYYY": a month number first is read as the month. */
  lemma MonthThenYear(monthNumbers: seq<(string, int)>, month: string, g: string, year: string)
    requires IsTwoDigits(month) && 1 <= Value(month) <= 12 && CanonicalYear(year)
    requires IsGap(g) && Preferred(g, year)
    ensures IsMonthOf(ParseYearMonth(DEFAULT_OPTIONS, monthNumbers, month + g + year), year, month)
  {
    TwoDigitsInteger(month);
    CanonicalIsInteger(year);
    assert Reading(monthNumbers, month, year) == Some((year, month));
    ParseWords(DEFAULT_OPTIONS, monthNumbers, month, g, year);
    IsoMonthText(year, month);
  }

  /** The pattern has the `u` modifier, so a no-break space (U+00A0) separates like a space, as in "05\U{A0}2010". */
  lemma NoBreakSpaceSeparates(monthNumbers: seq<(string, int)>, month: string, year: string)
    requires IsTwoDigits(month) && 1 <= Value(month) <= 12 && CanonicalYear(year)
    ensures IsMonthOf(ParseYearMonth(DEFAULT_OPTIONS, monthNumbers, month + "\U{A0}" + year), year, month)
  {
    NoBreakSpaceGap("\U{A0}", year);
    MonthThenYear(monthNumbers, month, "\U{A0}", year);
  }

  lemma NoBreakSpaceGap(g: string, year: string)
    requires g == "\U{A0}" && |year| > 0
    ensures IsGap(g) && Preferred(g, year)
  {
    assert SkipUnicodeSpaces(g, 0) == 1;
  }

  /** NEL (U+0085) is in `\s` under the `u` modifier too, so "05\U{85}2010" is a month of a year. */
  lemma NelSeparates(monthNumbers: seq<(string, int)>, month: string, year: string)
    requires IsTwoDigits(month) && 1 <= Value(month) <= 12 && CanonicalYear(year)
    ensures IsMonthOf(ParseYearMonth(DEFAULT_OPTIONS, monthNumbers, month + "\U{85}" + year), year, month)
  {
    NelGap("\U{85}", year);
    MonthThenYear(monthNumbers, month, "\U{85}", year);
  }

  lemma NelGap(g: string, year: string)
    requires g == "\U{85}" && |year| > 0
    ensures IsGap(g) && Preferred(g, year)
  {
    assert SkipUnicodeSpaces(g, 0) == 1;
  }

  /** "YYYY/MM": a year that cannot be a month, then a month number. */
  lemma YearThenMonth(monthNumbers: seq<(string, int)>, year: string, g: string, month: string)
    requires CanonicalYear(year) && Value(year) > 12
    requires IsTwoDigits(month) && 1 <= Value(month) <= 12
    requires IsGap(g) && Preferred(g, month)
    ensures IsMonthOf(ParseYearMonth(DEFAULT_OPTIONS, monthNumbers, year + g + month), year, month)
  {
    TwoDigitsInteger(month);
    CanonicalIsInteger(year);
    assert Reading(monthNumbers, year, month) == Some((year, month));
    ParseWords(DEFAULT_OPTIONS, monthNumbers, year, g, month);
    IsoMonthText(year, month);
  }

  /** Two numbers of which neither is between 0 and 12 leave no month. */
  lemma NoMonthRefused(options: Options, monthNumbers: seq<(string, int)>, a: string, g: string, b: string)
    requires IsInteger(a) && IsInteger(b) && !CanBeMonth(a) && !CanBeMonth(b)
    requires IsWord(a) && IsWord(b) && IsGap(g) && Preferred(g, b)
    ensures ParseYearMonth(options, monthNumbers, a + g + b) == Err(ParseError(FAILED))
  {
    ParseWords(options, monthNumbers, a, g, b);
  }

  /** A year and a month name the table knows, in either order. */
  lemma YearAndMonthName(monthNumbers: seq<(string, int)>, year: string, g: string, name: string, m: int)
    requires CanonicalYear(year) && IsWord(name) && !IsInteger(name) && IsGap(g)
    requires ParseMonth(monthNumbers, name) == Some(m) && 1 <= m <= 12
    ensures var month := PadLeft(IntToString(m), 2, '0');
      && IsTwoDigits(month) && Value(month) == m
      && (Preferred(g, name) ==> IsMonthOf(ParseYearMonth(DEFAULT_OPTIONS, monthNumbers, year + g + name), year, month))
      && (Preferred(g, year) ==> IsMonthOf(ParseYearMonth(DEFAULT_OPTIONS, monthNumbers, name + g + year), year, month))
  {
    var month := PadLeft(IntToString(m), 2, '0');
    PaddedMonthNumber(m);
    CanonicalIsInteger(year);
    assert IsWord(year) by { assert IsDigit(year[0]); }
    IsoMonthText(year, month);
    assert IsoText(year, PadLeft(IntToString(m), 2, '0')) == IsoText(year, month) by {
      assert PadLeft(month, 2, '0') == month;
    }
    if Preferred(g, name) {
      assert Reading(monthNumbers, year, name) == Some((year, IntToString(m)));
      ParseWords(DEFAULT_OPTIONS, monthNumbers, year, g, name);
    }
    if Preferred(g, year) {
      assert Reading(monthNumbers, name, year) == Some((year, IntToString(m)));
      ParseWords(DEFAULT_OPTIONS, monthNumbers, name, g, year);
    }
  }

  /** A month name in Cyrillic is a word too: "\U{43C}\U{430}\U{439} 2010" is May 2010 for a table that knows the name. */
  lemma CyrillicNameExample(monthNumbers: seq<(string, int)>, name: string, year: string)
    requires name == "\U{43C}\U{430}\U{439}" && ParseMonth(monthNumbers, name) == Some(5)
    requires CanonicalYear(year)
    ensures IsMonthOf(ParseYearMonth(DEFAULT_OPTIONS, monthNumbers, name + " " + year), year, "05")
  {
    assert IsWord(name) && !IsInteger(name) by {
      assert IsWordChar(name[0]) && !IsDigit(name[0]);
    }
    assert IsGap(" ") by { assert SkipUnicodeSpaces(" ", 0) == 1; }
    assert PadLeft(IntToString(5), 2, '0') == "05";
    YearAndMonthName(monthNumbers, year, " ", name, 5);
  }

  /** A name the table does not know, or knows as month 0, is no month. */
  lemma UnknownNameRefused(options: Options, monthNumbers: seq<(string, int)>, a: string, g: string, b: string)
    requires IsWord(a) && IsWord(b) && IsGap(g) && Preferred(g, b)
    requires IsInteger(a) != IsInteger(b)
    requires var name := if IsInteger(a) then b else a;
      ParseMonth(monthNumbers, name).None? || ParseMonth(monthNumbers, name) == Some(0)
    ensures ParseYearMonth(options, monthNumbers, a + g + b) == Err(ParseError(FAILED))
  {
    assert Reading(monthNumbers, a, b).None?;
    ParseWords(options, monthNumbers, a, g, b);
  }

  /** Month 0 leaves only the year: the value has the precision the year alone tells. */
  lemma MonthZeroIsYear(monthNumbers: seq<(string, int)>, zero: string, g: string, year: string)
    requires zero == "0" || zero == "00"
    requires CanonicalYear(year) && IsGap(g) && Preferred(g, year)
    ensures var r := ParseYearMonth(DEFAULT_OPTIONS, monthNumbers, zero + g + year);
      && r.Ok? && r.value.timestamp == Format(DateStamp('+', year, "00"))
      && r.value.precision == PrecisionFromYear(year)
  {
    ZeroToken(zero);
    CanonicalIsInteger(year);
    assert IsWord(year) by { assert IsDigit(year[0]); }
    assert Reading(monthNumbers, zero, year) == Some((year, zero));
    ParseWords(DEFAULT_OPTIONS, monthNumbers, zero, g, year);
    ZeroMonthText(year, zero);
    IsoDate('+', year, "00");
  }

  lemma ZeroToken(zero: string)
    requires zero == "0" || zero == "00"
    ensures IsInteger(zero) && NumeralValue(zero) == 0 && IsWord(zero)
  {
    assert IsDigits(zero) && Value(zero) == 0 by {
      assert zero[..|zero| - 1] == "" || zero[..|zero| - 1] == "0";
    }
    UnsignedValue(zero);
  }

  lemma ZeroMonthText(year: string, zero: string)
    requires zero == "0" || zero == "00"
    requires CanonicalYear(year)
    ensures IsoText(year, zero) == ['+'] + year + "-" + "00" + "-00T00:00:00Z"
    ensures Value("00") == 0
  {
    assert PadLeft(zero, 2, '0') == "00";
    assert IsDigit(year[0]);
  }

  /** A month of three or more digits is not cut down: the ISO parser finds the timestamp malformed. */
  lemma LongMonthRefused(options: Options, monthNumbers: seq<(string, int)>, month: string, g: string, year: string)
    requires |month| >= 3 && IsDigits(month) && Value(month) <= 12
    requires CanonicalYear(year) && IsGap(g) && Preferred(g, year)
    ensures ParseYearMonth(options, monthNumbers, month + g + year) == Err(ParseError("Malformed time"))
  {
    LongMonthRead(monthNumbers, month, year);
    ParseRead(options, monthNumbers, month, g, year, month + g + year, (year, month));
    LongMonthMalformed(year, month);
  }

  /** A long month and a year are read month first, and the month goes into the timestamp unpadded. */
  lemma LongMonthRead(monthNumbers: seq<(string, int)>, month: string, year: string)
    requires |month| >= 3 && IsDigits(month) && Value(month) <= 12 && CanonicalYear(year)
    ensures IsWord(month) && IsWord(year) && Reading(monthNumbers, month, year) == Some((year, month))
    ensures IsoText(year, month) == "+" + year + "-" + month + "-00T00:00:00Z"
  {
    UnsignedValue(month);
    CanonicalIsInteger(year);
    assert IsWord(month) && IsWord(year) by { assert IsDigit(month[0]) && IsDigit(year[0]); }
    assert IsoText(year, month) == "+" + year + "-" + month + "-00T00:00:00Z" by {
      assert PadLeft(month, 2, '0') == month;
      assert IsDigit(year[0]);
    }
  }

  /** ParseWords for a value already joined and a reading already known. */
  lemma ParseRead(options: Options, monthNumbers: seq<(string, int)>, a: string, g: string, b: string,
                  v: string, ym: (string, string))
    requires IsWord(a) && IsWord(b) && IsGap(g) && Preferred(g, b)
    requires v == a + g + b && Reading(monthNumbers, a, b) == Some(ym)
    ensures |ym.0| > 0 && ParseYearMonth(options, monthNumbers, v) == ParseIso(options, IsoText(ym.0, ym.1))
  {
    ParseWords(options, monthNumbers, a, g, b);
  }

  lemma LongMonthMalformed(year: string, month: string)
    requires |month| >= 3 && IsDigits(month) && CanonicalYear(year)
    ensures SplitIso("+" + year + "-" + month + "-00T00:00:00Z").None?
  {
    var s := "+" + year + "-" + month + "-00T00:00:00Z";
    var y := 1 + |year|;
    assert s[0] == '+' && s[y] == '-' && s[y + 3] == month[2];
    assert SkipUnicodeSpaces(s, 0) == 0;
    assert s[1] == year[0];
    assert SkipUnicodeSpaces(s, 1) == 1;
    DigitRunOf(s, 1, |year|);
    assert DateAt(s).None?;
  }
}
