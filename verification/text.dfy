/**
 * Character classes and string helpers standing in for the PHP built-ins the
 * time library calls: digit runs and their decimal value, `ltrim`, `rtrim`,
 * `trim`, `str_pad`, `strtolower`, and the `\s` class of the regular expressions.
 */
module Text {

  predicate IsDigit(c: char) {
    '0' <= c <= '9'
  }

  predicate IsDigits(s: string) {
    forall i | 0 <= i < |s| :: IsDigit(s[i])
  }

  function DigitValue(c: char): (d: nat)
    requires IsDigit(c)
    ensures d < 10
  {
    c as int - '0' as int
  }

  function Pow10(n: nat): (p: nat)
    ensures p >= 1
  {
    if n == 0 then 1 else 10 * Pow10(n - 1)
  }

  /** The decimal value of a digit string, as PHP compares numeric strings; "" counts as 0. */
  function Value(s: string): nat
    requires IsDigits(s)
  {
    if |s| == 0 then 0 else Value(s[..|s| - 1]) * 10 + DigitValue(s[|s| - 1])
  }

  function Repeat(c: char, n: nat): (r: string)
    ensures |r| == n
    ensures forall i | 0 <= i < n :: r[i] == c
  {
    seq(n, _ => c)
  }

  /** The value of a two-digit string, for literals. */
  lemma ValueOfTwo(a: char, b: char)
    requires IsDigit(a) && IsDigit(b)
    ensures IsDigits([a, b]) && Value([a, b]) == 10 * DigitValue(a) + DigitValue(b)
  {
    assert [a][..0] == [];
    assert Value([a]) == DigitValue(a);
    assert [a, b][..1] == [a];
    assert Value([a, b]) == Value([a]) * 10 + DigitValue(b);
  }

  /** The value of a four-digit string, for literals. */
  lemma ValueOfFour(a: char, b: char, c: char, d: char)
    requires IsDigit(a) && IsDigit(b) && IsDigit(c) && IsDigit(d)
    ensures IsDigits([a, b, c, d])
    ensures Value([a, b, c, d]) == 1000 * DigitValue(a) + 100 * DigitValue(b) + 10 * DigitValue(c) + DigitValue(d)
  {
    ValueOfTwo(a, b);
    assert [a, b, c][..2] == [a, b];
    assert Value([a, b, c]) == Value([a, b]) * 10 + DigitValue(c);
    assert [a, b, c, d][..3] == [a, b, c];
    assert Value([a, b, c, d]) == Value([a, b, c]) * 10 + DigitValue(d);
  }

  lemma {:induction false} ValueBound(s: string)
    requires IsDigits(s)
    ensures Value(s) < Pow10(|s|)
  {
    if |s| > 0 {
      ValueBound(s[..|s| - 1]);
    }
  }

  lemma {:induction false} ValueAppend(a: string, b: string)
    requires IsDigits(a) && IsDigits(b)
    ensures IsDigits(a + b)
    ensures Value(a + b) == Value(a) * Pow10(|b|) + Value(b)
  {
    assert IsDigits(a + b) by {
      forall i | 0 <= i < |a + b| ensures IsDigit((a + b)[i]) {
        if i < |a| { assert (a + b)[i] == a[i]; } else { assert (a + b)[i] == b[i - |a|]; }
      }
    }
    if |b| == 0 {
      assert a + b == a;
    } else {
      var b' := b[..|b| - 1];
      var d := DigitValue(b[|b| - 1]);
      assert (a + b)[..|a + b| - 1] == a + b';
      assert (a + b)[|a + b| - 1] == b[|b| - 1];
      ValueAppend(a, b');
      assert Value(a + b) == Value(a + b') * 10 + d;
      assert Value(b) == Value(b') * 10 + d;
      ShiftDigit(Value(a), Pow10(|b'|), Value(b'), d);
    }
  }

  /** The arithmetic step of ValueAppend: appending digit d after x * p + y. */
  lemma ShiftDigit(x: int, p: int, y: int, d: int)
    ensures (x * p + y) * 10 + d == x * (10 * p) + (y * 10 + d)
  {
  }

  lemma {:induction false} ValueOfZeros(k: nat)
    ensures IsDigits(Repeat('0', k))
    ensures Value(Repeat('0', k)) == 0
  {
    if k > 0 {
      assert Repeat('0', k)[..k - 1] == Repeat('0', k - 1);
      ValueOfZeros(k - 1);
    }
  }

  lemma {:induction false} ValueOfNines(k: nat)
    ensures IsDigits(Repeat('9', k))
    ensures Value(Repeat('9', k)) == Pow10(k) - 1
  {
    if k > 0 {
      assert Repeat('9', k)[..k - 1] == Repeat('9', k - 1);
      ValueOfNines(k - 1);
    }
  }

  /** Leading zeros never change the value of a digit string. */
  lemma ValueLeadingZeros(k: nat, s: string)
    requires IsDigits(s)
    ensures IsDigits(Repeat('0', k) + s)
    ensures Value(Repeat('0', k) + s) == Value(s)
  {
    ValueOfZeros(k);
    ValueAppend(Repeat('0', k), s);
  }

  /** One more zero in front of a run of zeros and a rest. */
  lemma ZeroBefore(s: string, r: string)
    requires |s| > 0 && s[0] == '0' && |r| < |s|
    requires s[1..] == Repeat('0', |s| - 1 - |r|) + r
    ensures s == Repeat('0', |s| - |r|) + r
  {
    var z := Repeat('0', |s| - |r|) + r;
    forall i | 0 <= i < |s| ensures s[i] == z[i] {
      if i > 0 {
        assert s[i] == s[1..][i - 1];
      }
    }
  }

  /** Leading zeros removed (PHP ltrim with the character list "0"). */
  function TrimLeadingZeros(s: string): (r: string)
    ensures |r| <= |s|
    ensures s == Repeat('0', |s| - |r|) + r
    ensures r == "" || r[0] != '0'
  {
    if |s| > 0 && s[0] == '0' then
      var r := TrimLeadingZeros(s[1..]);
      ZeroBefore(s, r);
      r
    else
      s
  }

  /** s padded on the left with c up to the given width (PHP str_pad, left padding). */
  function PadLeft(s: string, width: nat, c: char): (r: string)
    ensures |r| == if |s| >= width then |s| else width
    ensures r == Repeat(c, |r| - |s|) + s
  {
    if |s| >= width then
      assert s == Repeat(c, 0) + s;
      s
    else
      Repeat(c, width - |s|) + s
  }

  /** The number of trailing zero characters. */
  function TrailingZeros(s: string): (n: nat)
    ensures n <= |s|
    ensures forall i | |s| - n <= i < |s| :: s[i] == '0'
    ensures n == |s| || s[|s| - n - 1] != '0'
  {
    if |s| > 0 && s[|s| - 1] == '0' then 1 + TrailingZeros(s[..|s| - 1]) else 0
  }

  /** The characters PHP's `trim`, `ltrim` and `rtrim` strip by default. */
  predicate IsTrimSpace(c: char) {
    c == ' ' || c == '\t' || c == '\n' || c == '\r' || c == '\U{0}' || c == '\U{B}'
  }

  /** The `\s` class of PCRE without Unicode properties. */
  predicate IsSpace(c: char) {
    c == ' ' || c == '\t' || c == '\n' || c == '\U{B}' || c == '\U{C}' || c == '\r'
  }

  /**
   * The `\s` class of PCRE with Unicode properties (the `u` modifier): the ASCII
   * white space above, every character of the Unicode separator categories
   * (Zs, Zl, Zp), and the rest of PCRE's horizontal and vertical space lists,
   * NEL (U+0085) and the Mongolian vowel separator (U+180E).
   */
  predicate IsUnicodeSpace(c: char) {
    || IsSpace(c) || c == '\U{85}' || c == '\U{180E}'
    || c == '\U{A0}' || c == '\U{1680}' || '\U{2000}' <= c <= '\U{200A}'
    || c == '\U{2028}' || c == '\U{2029}' || c == '\U{202F}' || c == '\U{205F}' || c == '\U{3000}'
  }

  function LTrim(s: string): (r: string)
    ensures |r| <= |s| && r == s[|s| - |r|..]
    ensures forall i | 0 <= i < |s| - |r| :: IsTrimSpace(s[i])
    ensures r == "" || !IsTrimSpace(r[0])
  {
    if |s| > 0 && IsTrimSpace(s[0]) then LTrim(s[1..]) else s
  }

  function RTrim(s: string): (r: string)
    ensures |r| <= |s| && r == s[..|r|]
    ensures forall i | |r| <= i < |s| :: IsTrimSpace(s[i])
    ensures r == "" || !IsTrimSpace(r[|r| - 1])
  {
    if |s| > 0 && IsTrimSpace(s[|s| - 1]) then RTrim(s[..|s| - 1]) else s
  }

  function Trim(s: string): (r: string)
    ensures r == "" || (!IsTrimSpace(r[0]) && !IsTrimSpace(r[|r| - 1]))
    ensures exists i, j | 0 <= i <= j <= |s| :: r == s[i..j]
  {
    var l := LTrim(s);
    var r := RTrim(l);
    assert r == s[|s| - |l|..|s| - |l| + |r|];
    r
  }

  /** Trimming a string padded with blanks on both sides gives back the string. */
  lemma TrimAround(before: string, name: string, after: string)
    requires |name| > 0 && !IsTrimSpace(name[0]) && !IsTrimSpace(name[|name| - 1])
    requires forall i | 0 <= i < |before| :: IsTrimSpace(before[i])
    requires forall i | 0 <= i < |after| :: IsTrimSpace(after[i])
    ensures Trim(before + name + after) == name
  {
    var value := before + name + after;
    assert value == before + (name + after);
    LTrimDrops(before, name + after);
    RTrimDrops(name, after);
  }

  /** Text with no blank at either end is its own trim. */
  lemma TrimKept(v: string)
    requires |v| > 0 && !IsTrimSpace(v[0]) && !IsTrimSpace(v[|v| - 1])
    ensures Trim(v) == v
  {
    TrimAround("", v, "");
    assert "" + v + "" == v;
  }

  /** Digits are their own trim. */
  lemma TrimDigits(d: string)
    requires IsDigits(d)
    ensures Trim(d) == d
  {
    if |d| > 0 {
      assert IsDigit(d[0]) && IsDigit(d[|d| - 1]);
      TrimKept(d);
    } else {
      assert LTrim(d) == d;
    }
  }

  lemma {:induction false} LTrimDrops(blanks: string, s: string)
    requires forall i | 0 <= i < |blanks| :: IsTrimSpace(blanks[i])
    requires |s| > 0 && !IsTrimSpace(s[0])
    ensures LTrim(blanks + s) == s
  {
    if |blanks| > 0 {
      assert (blanks + s)[1..] == blanks[1..] + s;
      LTrimDrops(blanks[1..], s);
    } else {
      assert blanks + s == s;
    }
  }

  lemma {:induction false} RTrimDrops(s: string, blanks: string)
    requires forall i | 0 <= i < |blanks| :: IsTrimSpace(blanks[i])
    requires |s| > 0 && !IsTrimSpace(s[|s| - 1])
    ensures RTrim(s + blanks) == s
  {
    if |blanks| > 0 {
      var b' := blanks[..|blanks| - 1];
      assert (s + blanks)[..|s + blanks| - 1] == s + b';
      RTrimDrops(s, b');
    } else {
      assert s + blanks == s;
    }
  }

  /**
   * The length of the longest run of characters satisfying `p` that starts at
   * index `i`: what a greedy `[class]*` consumes there.
   */
  function Span(s: string, i: nat, p: char -> bool): (n: nat)
    requires i <= |s|
    ensures i + n <= |s|
    ensures forall k | i <= k < i + n :: p(s[k])
    ensures i + n == |s| || !p(s[i + n])
    decreases |s| - i
  {
    if i < |s| && p(s[i]) then 1 + Span(s, i + 1, p) else 0
  }

  /** The index after the `\s*` starting at `i`. */
  function SkipSpaces(s: string, i: nat): (j: nat)
    requires i <= |s|
    ensures i <= j <= |s|
    ensures forall k | i <= k < j :: IsSpace(s[k])
    ensures j == |s| || !IsSpace(s[j])
  {
    i + Span(s, i, IsSpace)
  }

  /** The index after the `\s*` starting at `i`, in a pattern with the `u` modifier. */
  function SkipUnicodeSpaces(s: string, i: nat): (j: nat)
    requires i <= |s|
    ensures i <= j <= |s|
    ensures forall k | i <= k < j :: IsUnicodeSpace(s[k])
    ensures j == |s| || !IsUnicodeSpace(s[j])
  {
    i + Span(s, i, IsUnicodeSpace)
  }

  /** No blank at `i`: the `\s*` of a `u` pattern consumes nothing there. */
  lemma NoUnicodeSpaceAt(s: string, i: nat)
    requires i <= |s| && (i == |s| || !IsUnicodeSpace(s[i]))
    ensures SkipUnicodeSpaces(s, i) == i
  {
  }

  /** One blank at `i` and none after it: the `\s*` of a `u` pattern consumes exactly it. */
  lemma OneUnicodeSpaceAt(s: string, i: nat)
    requires i < |s| && IsUnicodeSpace(s[i]) && (i + 1 == |s| || !IsUnicodeSpace(s[i + 1]))
    ensures SkipUnicodeSpaces(s, i) == i + 1
  {
  }

  /** The length of the digit run starting at `i`: what a greedy `\d+` consumes there. */
  function DigitRun(s: string, i: nat): (n: nat)
    requires i <= |s|
    ensures i + n <= |s|
    ensures IsDigits(s[i..i + n])
    ensures i + n == |s| || !IsDigit(s[i + n])
  {
    Span(s, i, IsDigit)
  }

  lemma DigitRunOf(s: string, i: nat, n: nat)
    requires i + n <= |s|
    requires forall k | i <= k < i + n :: IsDigit(s[k])
    requires i + n == |s| || !IsDigit(s[i + n])
    ensures DigitRun(s, i) == n
  {
  }

  /** ASCII-only lower-casing, as `strtolower` and the `i` regex flag do here. */
  function LowerChar(c: char): (d: char)
    ensures 'A' <= c <= 'Z' ==> d as int == c as int + 32
    ensures !('A' <= c <= 'Z') ==> d == c
  {
    if 'A' <= c <= 'Z' then (c as int + 32) as char else c
  }

  function ToLower(s: string): (r: string)
    ensures |r| == |s|
    ensures forall i | 0 <= i < |s| :: r[i] == LowerChar(s[i])
  {
    seq(|s|, i requires 0 <= i < |s| => LowerChar(s[i]))
  }

  /** Case-insensitive comparison of whole strings (`strcasecmp(...) === 0`). */
  predicate EqualsIgnoreCase(a: string, b: string) {
    ToLower(a) == ToLower(b)
  }

  /** `lit` (given in lower case) occurs at index `i` of `s`, ignoring ASCII case. */
  predicate MatchesAt(s: string, i: nat, lit: string) {
    i + |lit| <= |s| && forall k | 0 <= k < |lit| :: LowerChar(s[i + k]) == lit[k]
  }

  /** Converts a non-negative integer to its decimal representation without leading zeros. */
  function NatToString(n: nat): (r: string)
    ensures |r| >= 1 && IsDigits(r) && Value(r) == n
    ensures r[0] != '0' || r == "0"
  {
    if n < 10 then
      [('0' as int + n) as char]
    else
      var r := NatToString(n / 10) + [('0' as int + n % 10) as char];
      assert r[..|r| - 1] == NatToString(n / 10);
      r
  }

  /** PHP's conversion of an int to a string: decimal digits, a minus sign when negative. */
  function IntToString(i: int): (r: string)
    ensures i >= 0 ==> r == NatToString(i)
    ensures i < 0 ==> r == "-" + NatToString(-i)
  {
    if i >= 0 then NatToString(i) else "-" + NatToString(-i)
  }

  // Bytes

  /** The number of bytes c takes in UTF-8. */
  function CharBytes(c: char): (n: nat)
    ensures 1 <= n <= 4
    ensures n == 1 <==> c < '\U{80}'
  {
    if c < '\U{80}' then 1 else if c < '\U{800}' then 2 else if c < '\U{10000}' then 3 else 4
  }

  /** The number of bytes s takes in UTF-8: what `strlen` returns for it. */
  function ByteLength(s: string): (n: nat)
  {
    if s == [] then 0 else CharBytes(s[0]) + ByteLength(s[1..])
  }

  /** Every character takes at least one byte, and only ASCII characters take exactly one. */
  lemma {:induction false} ByteLengthBound(s: string)
    ensures ByteLength(s) >= |s|
    ensures ByteLength(s) == |s| <==> forall i | 0 <= i < |s| :: s[i] < '\U{80}'
  {
    if s != [] {
      ByteLengthBound(s[1..]);
      assert forall i | 1 <= i < |s| :: s[i] == s[1..][i - 1];
    }
  }

  // Numeric strings as PHP compares them

  /** A non-empty digit run with an optional sign in front. */
  predicate IsNumeral(s: string) {
    |s| > 0 && (if s[0] == '-' || s[0] == '+' then |s| > 1 && IsDigits(s[1..]) else IsDigits(s))
  }

  function NumeralValue(s: string): int
    requires IsNumeral(s)
  {
    if s[0] == '-' then -(Value(s[1..]) as int) else if s[0] == '+' then Value(s[1..]) else Value(s)
  }

  lemma UnsignedValue(s: string)
    requires |s| > 0 && IsDigits(s)
    ensures IsNumeral(s) && NumeralValue(s) == Value(s)
  {
    assert IsDigit(s[0]);
  }

  /**
   * The `\p{L}` class on the scripts month names are written in: ASCII letters;
   * the letters of Latin-1 (U+00AA, U+00B5, U+00BA, U+00C0 to U+00FF without
   * U+00D7 and U+00F7); Latin Extended-A and -B and the IPA letters (U+0100 to
   * U+02AF); the Greek letters (U+0386 to U+03FF but for the accents and
   * punctuation between them and U+03F6); and the Cyrillic letters (U+0400 to
   * U+052F without the signs and marks U+0482 to U+0489).
   */
  predicate IsLetter(c: char) {
    || 'a' <= LowerChar(c) <= 'z'
    || c == '\U{AA}' || c == '\U{B5}' || c == '\U{BA}'
    || ('\U{C0}' <= c <= '\U{2AF}' && c != '\U{D7}' && c != '\U{F7}')
    || c == '\U{386}' || '\U{388}' <= c <= '\U{38A}' || c == '\U{38C}'
    || ('\U{38E}' <= c <= '\U{3FF}' && c != '\U{3A2}' && c != '\U{3F6}')
    || ('\U{400}' <= c <= '\U{52F}' && !('\U{482}' <= c <= '\U{489}'))
  }
}
