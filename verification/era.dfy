/**
 * EraParser: splits a year string into an era ('+' for the common era, '-'
 * before it) and the rest, from a leading sign or from a BC/CE-style suffix.
 * Source: src/ValueParsers/EraParser.php.
 */
module Eras {
  import opened Results
  import opened Text
  import opened Parsing

  const BEFORE_COMMON_ERA: char := '-'
  const COMMON_ERA: char := '+'

  /** Character i is the letter `lower`, in either case. */
  predicate LetterAt(x: string, i: nat, lower: char) {
    i < |x| && LowerChar(x[i]) == lower
  }

  /** The index after the `\.?` at i. */
  function OptDot(x: string, i: nat): (j: nat)
    requires i <= |x|
    ensures j <= |x|
    ensures j == i || (j == i + 1 && x[i] == '.')
  {
    if i < |x| && x[i] == '.' then i + 1 else i
  }

  /** `a\.?\s*b\.?` from index i: the index after it, when it is there. */
  function LetterPair(x: string, i: nat, a: char, b: char): (r: Option<nat>)
    requires i <= |x|
    ensures r.Some? ==> i + 2 <= r.value <= |x|
  {
    if !LetterAt(x, i, a) then None
    else
      var j := SkipSpaces(x, OptDot(x, i + 1));
      if !LetterAt(x, j, b) then None else Some(OptDot(x, j + 1))
  }

  /** From index i, the words (given in lower case) separated by `\s+`, the last one ending `x`. */
  predicate WordsFrom(x: string, i: nat, words: seq<string>)
    requires i <= |x|
    decreases |words|
  {
    if |words| == 0 then i == |x|
    else
      && MatchesAt(x, i, words[0])
      && var j := i + |words[0]|;
         if |words| == 1 then j == |x|
         else var k := SkipSpaces(x, j); k > j && WordsFrom(x, k, words[1..])
  }

  /** `B\.?\s*C\.?(?:\s*E\.?)?`, the whole of `x`. */
  predicate IsBcAbbreviation(x: string) {
    var r := LetterPair(x, 0, 'b', 'c');
    && r.Some?
    && (r.value == |x| ||
        var k := SkipSpaces(x, r.value); LetterAt(x, k, 'e') && OptDot(x, k + 1) == |x|)
  }

  /** The spelled-out BC forms: Before Christ, Before Common/Current/Christian Era. */
  const BC_PHRASES: seq<seq<string>> :=
    [["before", "christ"], ["before", "common", "era"], ["before", "current", "era"],
     ["before", "christian", "era"]]

  /** The spelled-out CE forms: Common/Current/Christian Era, After Christ, Anno Domini. */
  const CE_PHRASES: seq<seq<string>> :=
    [["common", "era"], ["current", "era"], ["christian", "era"], ["after", "christ"],
     ["anno", "domini"]]

  /** `x` is one of the phrases, from its start to its end. */
  predicate IsPhrase(x: string, phrases: seq<seq<string>>) {
    exists n | 0 <= n < |phrases| :: WordsFrom(x, 0, phrases[n])
  }

  /** `x` is a BC marker: B.C., B.C.E. and their variants, or a BC phrase. */
  predicate IsBcMarker(x: string) {
    IsBcAbbreviation(x) || IsPhrase(x, BC_PHRASES)
  }

  /** `x` is a CE marker: C.E., A.D. and their variants, or a CE phrase. */
  predicate IsCeMarker(x: string) {
    || LetterPair(x, 0, 'c', 'e') == Some(|x|)
    || LetterPair(x, 0, 'a', 'd') == Some(|x|)
    || IsPhrase(x, CE_PHRASES)
  }

  /** The pattern anchored with `$` matches the value from offset k on. */
  predicate MarkerAt(v: string, k: nat, bc: bool)
    requires k <= |v|
  {
    if bc then IsBcMarker(v[k..]) else IsCeMarker(v[k..])
  }

  /** For each offset of `v` (the end included), whether the pattern matches from there. */
  function Hits(v: string, bc: bool): (h: seq<bool>)
    ensures |h| == |v| + 1
    ensures forall k | 0 <= k <= |v| :: h[k] == MarkerAt(v, k, bc)
  {
    seq(|v| + 1, k requires 0 <= k <= |v| => MarkerAt(v, k, bc))
  }

  /** The first index at or after i holding true: the leftmost match preg_match reports. */
  function FirstTrue(h: seq<bool>, i: nat): (r: Option<nat>)
    requires i <= |h|
    ensures r.Some? ==> i <= r.value < |h| && h[r.value]
    ensures r.Some? ==> forall k | i <= k < r.value :: !h[k]
    ensures r.None? ==> forall k | i <= k < |h| :: !h[k]
    decreases |h| - i
  {
    if i == |h| then None
    else if h[i] then Some(i)
    else FirstTrue(h, i + 1)
  }

  /** The leftmost offset where the pattern matches. */
  function FirstMarker(v: string, bc: bool): (r: Option<nat>)
    ensures r.Some? ==> r.value <= |v| && MarkerAt(v, r.value, bc)
    ensures r.Some? ==> forall k | 0 <= k < r.value :: !MarkerAt(v, k, bc)
    ensures r.None? ==> forall k | 0 <= k <= |v| :: !MarkerAt(v, k, bc)
  {
    var h := Hits(v, bc);
    var r := FirstTrue(h, 0);
    assert r.Some? ==> forall k | 0 <= k < r.value :: h[k] == MarkerAt(v, k, bc);
    r
  }

  /**
   * parseEraFromSuffix: the BC pattern is tried first; the value before the
   * leftmost match, right-trimmed, is returned with the era.
   */
  function EraFromSuffix(v: string): (r: Option<(char, string)>)
    ensures r.Some? ==> r.value.0 == BEFORE_COMMON_ERA || r.value.0 == COMMON_ERA
    ensures (exists k | 0 <= k <= |v| :: MarkerAt(v, k, true)) <==> r.Some? && r.value.0 == BEFORE_COMMON_ERA
    ensures r.None? <==> forall k | 0 <= k <= |v| :: !MarkerAt(v, k, true) && !MarkerAt(v, k, false)
    ensures r.Some? ==> var m := FirstMarker(v, r.value.0 == BEFORE_COMMON_ERA);
      m.Some? && r.value.1 == RTrim(v[..m.value])
  {
    match FirstMarker(v, true)
    case Some(k) => Some((BEFORE_COMMON_ERA, RTrim(v[..k])))
    case None =>
      match FirstMarker(v, false)
      case Some(k) => Some((COMMON_ERA, RTrim(v[..k])))
      case None => None
  }

  /** parseEraFromSign: a leading '+' or '-' and the rest of the string. */
  function EraFromSign(v: string): (r: Option<(char, string)>)
    ensures r.Some? <==> |v| > 0 && (v[0] == BEFORE_COMMON_ERA || v[0] == COMMON_ERA)
    ensures r.Some? ==> [r.value.0] + r.value.1 == v
  {
    if |v| > 0 && (v[0] == BEFORE_COMMON_ERA || v[0] == COMMON_ERA) then
      assert [v[0]] + v[1..] == v;
      Some((v[0], v[1..]))
    else
      None
  }

  /**
   * stringParse: trims, then takes the era from the sign or the suffix; both at
   * once is an error, neither means the common era.
   */
  function ParseEra(value: string): (r: Result<(char, string), ParseError>)
    ensures r.Ok? ==> r.value.0 == BEFORE_COMMON_ERA || r.value.0 == COMMON_ERA
    ensures r.Err? <==> EraFromSign(Trim(value)).Some? && EraFromSuffix(Trim(value)).Some?
    ensures EraFromSign(Trim(value)).None? && EraFromSuffix(Trim(value)).None? ==>
      r == Ok((COMMON_ERA, Trim(value)))
  {
    var v := Trim(value);
    var fromSign := EraFromSign(v);
    var fromSuffix := EraFromSuffix(v);
    if fromSign.Some? && fromSuffix.Some? then Err(ParseError("Parsed two eras from the same string"))
    else if fromSign.Some? then Ok(fromSign.value)
    else if fromSuffix.Some? then Ok(fromSuffix.value)
    else Ok((COMMON_ERA, v))
  }

  // ---------------------------------------------------------------------------
  // Where a marker can start and end

  predicate IsAsciiLetter(c: char) {
    'a' <= LowerChar(c) <= 'z'
  }

  /** Every word the patterns spell is a non-empty run of lower-case letters. */
  predicate IsWord(w: string) {
    |w| > 0 && forall i | 0 <= i < |w| :: 'a' <= w[i] <= 'z'
  }

  lemma {:induction false} WordsFromEnds(x: string, i: nat, words: seq<string>)
    requires i <= |x|
    requires forall n | 0 <= n < |words| :: IsWord(words[n])
    requires |words| > 0 && WordsFrom(x, i, words)
    ensures i < |x| && IsAsciiLetter(x[i]) && LowerChar(x[i]) == words[0][0]
    ensures IsAsciiLetter(x[|x| - 1])
    decreases |words|
  {
    assert LowerChar(x[i]) == words[0][0];
    if |words| == 1 {
      var w := words[0];
      assert LowerChar(x[i + |w| - 1]) == w[|w| - 1];
    } else {
      var k := SkipSpaces(x, i + |words[0]|);
      assert words[1..][0] == words[1];
      WordsFromEnds(x, k, words[1..]);
    }
  }

  lemma LetterPairEnds(x: string, a: char, b: char)
    requires 'a' <= a <= 'z' && 'a' <= b <= 'z'
    requires LetterPair(x, 0, a, b).Some?
    ensures LowerChar(x[0]) == a
    ensures var e := LetterPair(x, 0, a, b).value;
      IsAsciiLetter(x[e - 1]) || x[e - 1] == '.'
  {
  }

  /** A marker starts with a letter and ends with a letter or a dot, never with a blank. */
  lemma MarkerEnds(x: string, bc: bool)
    requires if bc then IsBcMarker(x) else IsCeMarker(x)
    ensures |x| > 0 && IsAsciiLetter(x[0])
    ensures bc ==> LowerChar(x[0]) == 'b'
    ensures !bc ==> LowerChar(x[0]) == 'c' || LowerChar(x[0]) == 'a'
    ensures IsAsciiLetter(x[|x| - 1]) || x[|x| - 1] == '.'
  {
    if bc {
      if IsBcAbbreviation(x) {
        var r := LetterPair(x, 0, 'b', 'c');
        LetterPairEnds(x, 'b', 'c');
        if r.value < |x| {
          var k := SkipSpaces(x, r.value);
          assert LetterAt(x, k, 'e');
        }
      } else {
        BcWords(x);
      }
    } else {
      if LetterPair(x, 0, 'c', 'e') == Some(|x|) {
        LetterPairEnds(x, 'c', 'e');
      } else if LetterPair(x, 0, 'a', 'd') == Some(|x|) {
        LetterPairEnds(x, 'a', 'd');
      } else {
        CeWords(x);
      }
    }
  }

  lemma BcWords(x: string)
    requires IsPhrase(x, BC_PHRASES)
    ensures |x| > 0 && LowerChar(x[0]) == 'b' && IsAsciiLetter(x[|x| - 1])
  {
    var n :| 0 <= n < |BC_PHRASES| && WordsFrom(x, 0, BC_PHRASES[n]);
    PhraseWords(BC_PHRASES[n]);
    WordsFromEnds(x, 0, BC_PHRASES[n]);
  }

  lemma CeWords(x: string)
    requires IsPhrase(x, CE_PHRASES)
    ensures |x| > 0 && (LowerChar(x[0]) == 'c' || LowerChar(x[0]) == 'a') && IsAsciiLetter(x[|x| - 1])
  {
    var n :| 0 <= n < |CE_PHRASES| && WordsFrom(x, 0, CE_PHRASES[n]);
    PhraseWords(CE_PHRASES[n]);
    WordsFromEnds(x, 0, CE_PHRASES[n]);
  }

  /** Each phrase of the two tables is a list of words, and where each list starts. */
  lemma PhraseWords(ws: seq<string>)
    requires ws in BC_PHRASES || ws in CE_PHRASES
    ensures |ws| > 0 && forall n | 0 <= n < |ws| :: IsWord(ws[n])
    ensures ws in BC_PHRASES ==> ws[0][0] == 'b'
    ensures ws in CE_PHRASES ==> ws[0][0] == 'c' || ws[0][0] == 'a'
  {
  }

  /** No marker starts at a character that is not a letter. */
  lemma NoMarkerAtNonLetter(v: string, k: nat, bc: bool)
    requires k <= |v|
    requires k == |v| || !IsAsciiLetter(v[k])
    ensures !MarkerAt(v, k, bc)
  {
    if MarkerAt(v, k, bc) {
      MarkerEnds(v[k..], bc);
    }
  }

  /** No BC marker starts at a character other than 'b' or 'B'. */
  lemma NoBcAtOtherLetter(v: string, k: nat)
    requires k <= |v|
    requires k == |v| || LowerChar(v[k]) != 'b'
    ensures !MarkerAt(v, k, true)
  {
    if MarkerAt(v, k, true) {
      MarkerEnds(v[k..], true);
    }
  }

  // ---------------------------------------------------------------------------
  // What the parser makes of typical inputs

  predicate IsSign(c: char) {
    c == BEFORE_COMMON_ERA || c == COMMON_ERA
  }

  /** A string without letters holds no marker. */
  lemma NoLettersNoSuffix(v: string)
    requires forall k | 0 <= k < |v| :: !IsAsciiLetter(v[k])
    ensures EraFromSuffix(v).None?
  {
    forall k | 0 <= k <= |v| ensures !MarkerAt(v, k, true) && !MarkerAt(v, k, false) {
      NoMarkerAtNonLetter(v, k, true);
      NoMarkerAtNonLetter(v, k, false);
    }
  }

  /** A bare number is in the common era and comes back unchanged. */
  lemma DigitsAreCommonEra(d: string)
    requires IsDigits(d)
    ensures ParseEra(d) == Ok((COMMON_ERA, d))
  {
    TrimDigits(d);
    NoLettersNoSuffix(d);
  }

  /** Text that starts and ends with a digit and holds no letter: no sign, no marker. */
  predicate IsPlain(v: string) {
    && |v| > 0 && IsDigit(v[0]) && IsDigit(v[|v| - 1])
    && forall k | 0 <= k < |v| :: !IsAsciiLetter(v[k])
  }

  /** Such text is in the common era and comes back unchanged. */
  lemma PlainIsCommonEra(v: string)
    requires IsPlain(v)
    ensures ParseEra(v) == Ok((COMMON_ERA, v))
  {
    TrimAround("", v, "");
    assert "" + v + "" == v;
    NoLettersNoSuffix(v);
  }

  /** A sign in front of such text is the era; the text is the rest. */
  lemma SignedPlainEra(sign: char, v: string)
    requires IsSign(sign) && IsPlain(v)
    ensures ParseEra([sign] + v) == Ok((sign, v))
  {
    var w := [sign] + v;
    SignedPlainTrimmed(sign, v);
    SignedPlainUnmarked(sign, v);
    assert w[1..] == v;
    SignOnlyEra(w);
  }

  lemma SignedPlainTrimmed(sign: char, v: string)
    requires IsSign(sign) && IsPlain(v)
    ensures Trim([sign] + v) == [sign] + v
  {
    var w := [sign] + v;
    assert w[|w| - 1] == v[|v| - 1];
    TrimKept(w);
  }

  lemma SignedPlainUnmarked(sign: char, v: string)
    requires IsSign(sign) && IsPlain(v)
    ensures EraFromSuffix([sign] + v).None?
  {
    var w := [sign] + v;
    forall k | 0 <= k < |w| ensures !IsAsciiLetter(w[k]) {
      if k > 0 { assert w[k] == v[k - 1]; }
    }
    NoLettersNoSuffix(w);
  }

  /** Trimmed text with a leading sign and no marker: the sign is the era. */
  lemma SignOnlyEra(w: string)
    requires Trim(w) == w && |w| > 0 && IsSign(w[0]) && EraFromSuffix(w).None?
    ensures ParseEra(w) == Ok((w[0], w[1..]))
  {
  }

  /** A signed number: the sign is the era and the digits are the rest. */
  lemma SignIsEra(sign: char, d: string)
    requires IsSign(sign) && IsDigits(d)
    ensures ParseEra([sign] + d) == Ok((sign, d))
  {
    var v := [sign] + d;
    SignedTrim(sign, d);
    assert forall k | 0 <= k < |v| :: !IsAsciiLetter(v[k]) by {
      forall k | 0 <= k < |v| ensures !IsAsciiLetter(v[k]) {
        if k > 0 { assert v[k] == d[k - 1]; }
      }
    }
    NoLettersNoSuffix(v);
    assert v[1..] == d;
  }

  lemma SignedTrim(sign: char, d: string)
    requires IsSign(sign) && IsDigits(d)
    ensures Trim([sign] + d) == [sign] + d
  {
    var v := [sign] + d;
    if |d| > 0 {
      assert v[|v| - 1] == d[|d| - 1];
    }
    TrimAround("", v, "");
    assert "" + v + "" == v;
  }

  /** The layout `digits blank marker`: the marker's first character is at |d| + 1. */
  lemma LayoutMarker(d: string, x: string, bc: bool)
    requires if bc then IsBcMarker(x) else IsCeMarker(x)
    ensures MarkerAt(d + " " + x, |d| + 1, bc)
  {
    assert (d + " " + x)[|d| + 1..] == x;
  }

  lemma LayoutRest(d: string, x: string)
    requires IsDigits(d) && |d| > 0
    ensures RTrim((d + " " + x)[..|d| + 1]) == d
  {
    assert (d + " " + x)[..|d| + 1] == d + " ";
    RTrimDrops(d, " ");
  }

  lemma LayoutTrim(d: string, x: string, bc: bool)
    requires IsDigits(d) && |d| > 0
    requires if bc then IsBcMarker(x) else IsCeMarker(x)
    ensures Trim(d + " " + x) == d + " " + x
  {
    var v := d + " " + x;
    MarkerEnds(x, bc);
    LayoutEnds(d, x);
  }

  lemma LayoutEnds(d: string, x: string)
    requires IsDigits(d) && |d| > 0
    requires |x| > 0 && (IsAsciiLetter(x[|x| - 1]) || x[|x| - 1] == '.')
    ensures Trim(d + " " + x) == d + " " + x
  {
    var v := d + " " + x;
    assert v[0] == d[0];
    assert v[|v| - 1] == x[|x| - 1];
    TrimKept(v);
  }

  lemma LayoutNoEarlier(d: string, x: string)
    requires IsDigits(d)
    ensures var v := d + " " + x;
      forall k | 0 <= k <= |d| :: !MarkerAt(v, k, true) && !MarkerAt(v, k, false)
  {
    var v := d + " " + x;
    forall k | 0 <= k <= |d| ensures !MarkerAt(v, k, true) && !MarkerAt(v, k, false) {
      if k < |d| {
        assert v[k] == d[k];
      } else {
        assert v[k] == ' ';
      }
      NoMarkerAtNonLetter(v, k, true);
      NoMarkerAtNonLetter(v, k, false);
    }
  }

  /** A number followed by any BC-style marker is before the common era. */
  lemma BcSuffixIsBeforeCommonEra(d: string, x: string)
    requires IsDigits(d) && |d| > 0 && IsBcMarker(x)
    ensures ParseEra(d + " " + x) == Ok((BEFORE_COMMON_ERA, d))
  {
    var v := d + " " + x;
    LayoutTrim(d, x, true);
    LayoutMarker(d, x, true);
    LayoutNoEarlier(d, x);
    LayoutRest(d, x);
    assert v[0] == d[0];
    FirstMarkerIs(v, |d| + 1, true);
    BeforeEraSuffix(v, |d| + 1);
  }

  /** Unsigned text whose first BC marker is at `k`: before the common era, the text before it right-trimmed. */
  lemma BeforeEraSuffix(v: string, k: nat)
    requires Trim(v) == v && |v| > 0 && IsDigit(v[0])
    requires FirstMarker(v, true) == Some(k)
    ensures ParseEra(v) == Ok((BEFORE_COMMON_ERA, RTrim(v[..k])))
  {
    assert EraFromSuffix(v) == Some((BEFORE_COMMON_ERA, RTrim(v[..k])));
  }

  /** A number followed by any CE-style marker is in the common era. */
  lemma CeSuffixIsCommonEra(d: string, x: string)
    requires IsDigits(d) && |d| > 0 && IsCeMarker(x)
    ensures ParseEra(d + " " + x) == Ok((COMMON_ERA, d))
  {
    var v := d + " " + x;
    LayoutTrim(d, x, false);
    LayoutMarker(d, x, false);
    LayoutNoEarlier(d, x);
    LayoutRest(d, x);
    assert v[0] == d[0];
    CeMarkerHasNoB(x);
    CeHasNoBc(d, x);
    FirstMarkerIs(v, |d| + 1, false);
    CommonEraSuffix(v, |d| + 1);
  }

  /** None of the CE spellings holds a 'b', so no BC marker starts inside one. */
  lemma CeMarkerHasNoB(x: string)
    requires IsCeMarker(x)
    ensures forall i | 0 <= i < |x| :: LowerChar(x[i]) != 'b'
  {
    if LetterPair(x, 0, 'c', 'e') == Some(|x|) {
      PairHasNoB(x, 'c', 'e');
    } else if LetterPair(x, 0, 'a', 'd') == Some(|x|) {
      PairHasNoB(x, 'a', 'd');
    } else {
      var n :| 0 <= n < |CE_PHRASES| && WordsFrom(x, 0, CE_PHRASES[n]);
      CePhraseLetters(n);
      WordsHaveNoB(x, 0, CE_PHRASES[n]);
    }
  }

  /** `a\.?\s*b\.?` spanning x, with neither letter a 'b': no character of x is one. */
  lemma PairHasNoB(x: string, a: char, b: char)
    requires a != 'b' && b != 'b'
    requires LetterPair(x, 0, a, b) == Some(|x|)
    ensures forall i | 0 <= i < |x| :: LowerChar(x[i]) != 'b'
  {
    var j := SkipSpaces(x, OptDot(x, 1));
    forall i | 0 <= i < |x| ensures LowerChar(x[i]) != 'b' {
      if 0 < i < j && i >= OptDot(x, 1) {
        assert IsSpace(x[i]);
      }
    }
  }

  /** Every letter of every CE phrase. */
  lemma CePhraseLetters(n: nat)
    requires n < |CE_PHRASES|
    ensures forall m, k | 0 <= m < |CE_PHRASES[n]| && 0 <= k < |CE_PHRASES[n][m]| :: CE_PHRASES[n][m][k] != 'b'
  {
  }

  /** Words without a 'b', separated by blanks: no character from i on is a 'b'. */
  lemma {:induction false} WordsHaveNoB(x: string, i: nat, words: seq<string>)
    requires i <= |x| && WordsFrom(x, i, words)
    requires forall m, k | 0 <= m < |words| && 0 <= k < |words[m]| :: words[m][k] != 'b'
    ensures forall p | i <= p < |x| :: LowerChar(x[p]) != 'b'
    decreases |words|
  {
    if |words| > 0 {
      var j := i + |words[0]|;
      forall p | i <= p < j && p < |x| ensures LowerChar(x[p]) != 'b' {
        assert LowerChar(x[i + (p - i)]) == words[0][p - i];
      }
      if |words| > 1 {
        var k := SkipSpaces(x, j);
        forall p | j <= p < k ensures LowerChar(x[p]) != 'b' {
          assert IsSpace(x[p]);
        }
        WordsHaveNoB(x, k, words[1..]);
        forall p | k <= p < |x| ensures LowerChar(x[p]) != 'b' {
        }
      }
    }
  }

  /** Unsigned text whose only marker is a CE one at `k`: common era, the text before it right-trimmed. */
  lemma CommonEraSuffix(v: string, k: nat)
    requires Trim(v) == v && |v| > 0 && IsDigit(v[0])
    requires FirstMarker(v, true).None? && FirstMarker(v, false) == Some(k)
    ensures ParseEra(v) == Ok((COMMON_ERA, RTrim(v[..k])))
  {
    assert EraFromSuffix(v) == Some((COMMON_ERA, RTrim(v[..k])));
  }

  lemma CeHasNoBc(d: string, x: string)
    requires IsDigits(d) && |d| > 0 && IsCeMarker(x)
    requires forall i | 0 <= i < |x| :: LowerChar(x[i]) != 'b'
    ensures FirstMarker(d + " " + x, true).None?
  {
    var v := d + " " + x;
    LayoutNoEarlier(d, x);
    assert v[|d| + 1..] == x;
    forall k | |d| + 1 <= k <= |v| ensures !MarkerAt(v, k, true) {
      if k < |v| {
        assert v[k] == x[k - |d| - 1];
      }
      NoBcAtOtherLetter(v, k);
    }
  }

  /** The leftmost match is the first offset where the marker matches. */
  lemma FirstMarkerIs(v: string, k: nat, bc: bool)
    requires k <= |v| && MarkerAt(v, k, bc)
    requires forall j | 0 <= j < k :: !MarkerAt(v, j, bc)
    ensures FirstMarker(v, bc) == Some(k)
  {
    var r := FirstMarker(v, bc);
    assert r.Some?;
    assert !(r.value < k);
    assert !(r.value > k);
  }

  /** A sign together with a marker is refused, whether or not the two agree. */
  lemma SignAndSuffixRefused(sign: char, d: string, x: string, bc: bool)
    requires IsSign(sign) && IsDigits(d) && |d| > 0
    requires if bc then IsBcMarker(x) else IsCeMarker(x)
    ensures ParseEra([sign] + d + " " + x).Err?
  {
    var v := [sign] + d + " " + x;
    SignedLayoutTrim(sign, d, x, bc);
    assert v[|d| + 2..] == x;
    SuffixFound(v, |d| + 2, bc);
  }

  lemma SignedLayoutTrim(sign: char, d: string, x: string, bc: bool)
    requires IsSign(sign) && IsDigits(d) && |d| > 0
    requires if bc then IsBcMarker(x) else IsCeMarker(x)
    ensures Trim([sign] + d + " " + x) == [sign] + d + " " + x
  {
    var v := [sign] + d + " " + x;
    MarkerEnds(x, bc);
    assert v[|v| - 1] == x[|x| - 1];
    TrimAround("", v, "");
    assert "" + v + "" == v;
  }

  /** Any marker anywhere gives the suffix an era. */
  lemma SuffixFound(v: string, k: nat, bc: bool)
    requires k <= |v| && MarkerAt(v, k, bc)
    ensures EraFromSuffix(v).Some?
  {
  }

  /** The concrete spellings the parser documents, as markers. */
  lemma MarkerExamples()
    ensures IsBcMarker("BC") && IsBcMarker("B.C.") && IsBcMarker("BCE")
    ensures IsCeMarker("CE") && IsCeMarker("AD")
  {
    var bc := "BC";
    assert LetterPair(bc, 0, 'b', 'c') == Some(2);
    var bcd := "B.C.";
    assert LetterPair(bcd, 0, 'b', 'c') == Some(4);
    var bce := "BCE";
    assert LetterPair(bce, 0, 'b', 'c') == Some(2);
    assert SkipSpaces(bce, 2) == 2;
    var ce := "CE";
    assert LetterPair(ce, 0, 'c', 'e') == Some(2);
    var ad := "AD";
    assert LetterPair(ad, 0, 'a', 'd') == Some(2);
  }
}
