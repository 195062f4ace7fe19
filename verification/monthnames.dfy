/**
 * Month names: MonthNameUnlocalizer replaces one localised month name in a date
 * string with its canonical English name, trying longer names first and leaving
 * the string alone when in doubt; MonolingualMonthNameProvider hands out one
 * fixed table of names and its inverse.
 * Sources: src/ValueParsers/MonthNameUnlocalizer.php,
 * src/ValueParsers/MonolingualMonthNameProvider.php.
 */
module MonthNames {
  import opened Results
  import opened Text

  // ---------------------------------------------------------------------------
  // Array keys

  /**
   * A key of a PHP array. A string that is the canonical decimal form of an
   * integer ("2", "-7", but not "02" or "+2") is stored as an integer key; the
   * text is kept either way, as it is what `strlen` measures.
   */
  datatype Key = StringKey(text: string) | IntegerKey(text: string)

  /** The largest and the smallest value of a PHP integer (64 bits). */
  const INT_MAX: nat := 0x7FFF_FFFF_FFFF_FFFF
  const INT_MIN_MAGNITUDE: nat := 0x8000_0000_0000_0000

  /**
   * The decimal strings PHP turns into integer keys: no leading zero, no "-0",
   * and a value a PHP integer holds; a longer numeral stays a string key.
   */
  predicate IsIntegerText(s: string) {
    var negative := |s| > 0 && s[0] == '-';
    var d := if negative then s[1..] else s;
    && |d| > 0 && IsDigits(d)
    && (d[0] != '0' || s == "0")
    && Value(d) <= (if negative then INT_MIN_MAGNITUDE else INT_MAX)
  }

  /** The key an array literal stores for the string s. */
  function KeyOf(s: string): (k: Key)
    ensures k.text == s
    ensures k.IntegerKey? <==> IsIntegerText(s)
  {
    if IsIntegerText(s) then IntegerKey(s) else StringKey(s)
  }

  /** `strlen` of the key: its length in bytes, not in characters. */
  function KeyLength(k: Key): nat {
    ByteLength(k.text)
  }

  // ---------------------------------------------------------------------------
  // The constructor: keys sorted by decreasing byte length

  /** Longest keys first. */
  predicate ByLength(entries: seq<(Key, string)>) {
    forall i, j | 0 <= i < j < |entries| :: KeyLength(entries[i].0) >= KeyLength(entries[j].0)
  }

  /** The entries whose key has n bytes, in their order. */
  function OfLength(entries: seq<(Key, string)>, n: nat): (r: seq<(Key, string)>)
    ensures |r| <= |entries|
  {
    if entries == [] then []
    else (if KeyLength(entries[0].0) == n then [entries[0]] else []) + OfLength(entries[1..], n)
  }

  /** Puts e in front of the first entry whose key is not longer than its own. */
  function InsertByLength(e: (Key, string), sorted: seq<(Key, string)>): (r: seq<(Key, string)>)
    ensures |r| == |sorted| + 1
    ensures multiset(r) == multiset(sorted) + multiset{e}
  {
    if sorted == [] || KeyLength(e.0) >= KeyLength(sorted[0].0) then [e] + sorted
    else
      assert sorted == [sorted[0]] + sorted[1..];
      [sorted[0]] + InsertByLength(e, sorted[1..])
  }

  /** A stable sort, longest key first: the order `uksort` leaves the replacements in from PHP 8 on, where sorting is stable. */
  function SortByLength(entries: seq<(Key, string)>): (r: seq<(Key, string)>)
    ensures |r| == |entries|
    ensures multiset(r) == multiset(entries)
  {
    if entries == [] then []
    else
      assert entries == [entries[0]] + entries[1..];
      InsertByLength(entries[0], SortByLength(entries[1..]))
  }

  /** No key longer than n. */
  predicate AtMost(entries: seq<(Key, string)>, n: nat) {
    forall i | 0 <= i < |entries| :: KeyLength(entries[i].0) <= n
  }

  lemma InsertAtMost(e: (Key, string), sorted: seq<(Key, string)>, n: nat)
    requires AtMost(sorted, n) && KeyLength(e.0) <= n
    ensures AtMost(InsertByLength(e, sorted), n)
  {
    var r := InsertByLength(e, sorted);
    forall i | 0 <= i < |r| ensures KeyLength(r[i].0) <= n {
      assert r[i] in multiset(r);
      if r[i] != e {
        assert r[i] in multiset(sorted);
        var m :| 0 <= m < |sorted| && sorted[m] == r[i];
      }
    }
  }

  lemma ConsByLength(x: (Key, string), t: seq<(Key, string)>)
    requires ByLength(t) && AtMost(t, KeyLength(x.0))
    ensures ByLength([x] + t)
  {
    var r := [x] + t;
    forall i, j | 0 <= i < j < |r| ensures KeyLength(r[i].0) >= KeyLength(r[j].0) {
      assert r[j] == t[j - 1];
      if i > 0 { assert r[i] == t[i - 1]; }
    }
  }

  lemma {:induction false} InsertKeepsOrder(e: (Key, string), sorted: seq<(Key, string)>)
    requires ByLength(sorted)
    ensures ByLength(InsertByLength(e, sorted))
  {
    if sorted == [] || KeyLength(e.0) >= KeyLength(sorted[0].0) {
      assert AtMost(sorted, KeyLength(e.0)) by {
        forall i | 0 <= i < |sorted| ensures KeyLength(sorted[i].0) <= KeyLength(e.0) {
          assert KeyLength(sorted[0].0) >= KeyLength(sorted[i].0);
        }
      }
      ConsByLength(e, sorted);
    } else {
      var tail := sorted[1..];
      var n := KeyLength(sorted[0].0);
      assert ByLength(tail) by {
        forall i, j | 0 <= i < j < |tail| ensures KeyLength(tail[i].0) >= KeyLength(tail[j].0) {
          assert tail[i] == sorted[i + 1] && tail[j] == sorted[j + 1];
        }
      }
      assert AtMost(tail, n) by {
        forall i | 0 <= i < |tail| ensures KeyLength(tail[i].0) <= n {
          assert tail[i] == sorted[i + 1];
        }
      }
      InsertKeepsOrder(e, tail);
      InsertAtMost(e, tail, n);
      ConsByLength(sorted[0], InsertByLength(e, tail));
    }
  }

  /** The sorted replacements run from the longest key to the shortest. */
  lemma {:induction false} SortedByLength(entries: seq<(Key, string)>)
    ensures ByLength(SortByLength(entries))
  {
    if entries != [] {
      SortedByLength(entries[1..]);
      InsertKeepsOrder(entries[0], SortByLength(entries[1..]));
    }
  }

  /** An entry goes in front of every entry with a key as long as its own. */
  lemma {:induction false} InsertStable(e: (Key, string), sorted: seq<(Key, string)>, n: nat)
    ensures OfLength(InsertByLength(e, sorted), n) == OfLength([e] + sorted, n)
  {
    if sorted == [] || KeyLength(e.0) >= KeyLength(sorted[0].0) {
    } else {
      var tail := sorted[1..];
      InsertStable(e, tail, n);
      var t := InsertByLength(e, tail);
      assert ([sorted[0]] + t)[1..] == t;
      assert ([e] + tail)[1..] == tail;
      assert ([e] + sorted)[1..] == sorted;
    }
  }

  /**
   * The sort is stable: keys of one length keep the order they were given in,
   * so with the longer-first rule the result is fully determined.
   */
  lemma {:induction false} SortStable(entries: seq<(Key, string)>, n: nat)
    ensures OfLength(SortByLength(entries), n) == OfLength(entries, n)
  {
    if entries != [] {
      SortStable(entries[1..], n);
      InsertStable(entries[0], SortByLength(entries[1..]), n);
      assert ([entries[0]] + SortByLength(entries[1..]))[1..] == SortByLength(entries[1..]);
    }
  }

  // ---------------------------------------------------------------------------
  // `str_replace`, `strpos`

  /** t occurs in s at position i, compared character by character. */
  predicate OccursAt(s: string, i: nat, t: string) {
    i + |t| <= |s| && s[i..i + |t|] == t
  }

  /** t occurs somewhere in s. */
  predicate Contains(s: string, t: string) {
    exists i | 0 <= i <= |s| :: OccursAt(s, i, t)
  }

  /** The leftmost occurrence of t in s at or after from. */
  function FindFrom(s: string, t: string, from: nat): (r: Option<nat>)
    decreases |s| - from
    ensures r.Some? ==> from <= r.value && OccursAt(s, r.value, t)
    ensures r.Some? ==> forall j | from <= j < r.value :: !OccursAt(s, j, t)
    ensures r.None? ==> forall j | from <= j :: !OccursAt(s, j, t)
  {
    if from + |t| > |s| then None
    else if OccursAt(s, from, t) then Some(from)
    else FindFrom(s, t, from + 1)
  }

  /** How many times `str_replace` substitutes t: occurrences found left to right, none overlapping. */
  function Replacements(s: string, t: string, from: nat): (n: nat)
    requires |t| > 0
    decreases |s| - from
    ensures n == 0 <==> FindFrom(s, t, from).None?
  {
    match FindFrom(s, t, from)
    case None => 0
    case Some(i) => 1 + Replacements(s, t, i + |t|)
  }

  /** The count `str_replace` reports; an empty search string replaces nothing. */
  function Count(s: string, t: string): (n: nat)
    ensures n == 0 <==> (|t| == 0 || !Contains(s, t))
  {
    if |t| == 0 then 0
    else
      assert FindFrom(s, t, 0).Some? <==> Contains(s, t) by {
        if FindFrom(s, t, 0).Some? {
          assert OccursAt(s, FindFrom(s, t, 0).value, t);
        }
      }
      Replacements(s, t, 0)
  }

  /** s with t replaced by r at position i. */
  function ReplaceAt(s: string, i: nat, t: string, r: string): (u: string)
    requires OccursAt(s, i, t)
    ensures |u| == |s| - |t| + |r|
    ensures u[..i] == s[..i] && u[i..i + |r|] == r && u[i + |r|..] == s[i + |t|..]
  {
    s[..i] + r + s[i + |t|..]
  }

  // ---------------------------------------------------------------------------
  // MonthNameUnlocalizer

  datatype Unlocalizer = Unlocalizer(replacements: seq<(Key, string)>)

  /** The constructor: the replacements, longest search string first, otherwise in the order given. */
  function NewUnlocalizer(replacements: seq<(Key, string)>): (u: Unlocalizer)
    ensures ByLength(u.replacements)
    ensures multiset(u.replacements) == multiset(replacements)
    ensures forall n: nat :: OfLength(u.replacements, n) == OfLength(replacements, n)
  {
    SortedByLength(replacements);
    assert forall n: nat :: OfLength(SortByLength(replacements), n) == OfLength(replacements, n) by {
      forall n: nat ensures OfLength(SortByLength(replacements), n) == OfLength(replacements, n) {
        SortStable(replacements, n);
      }
    }
    Unlocalizer(SortByLength(replacements))
  }

  /** The entry's search string is a string key found in the date. */
  predicate Hits(entry: (Key, string), date: string) {
    entry.0.StringKey? && |entry.0.text| > 0 && Contains(date, entry.0.text)
  }

  /** Entry k is the first whose search string is found. */
  predicate FirstHit(entries: seq<(Key, string)>, date: string, k: nat) {
    && k < |entries| && Hits(entries[k], date)
    && forall j | 0 <= j < k :: !Hits(entries[j], date)
  }

  /** The date is left as it is when the replacement is already in it and would not shorten anything. */
  predicate AlreadyThere(date: string, search: string, replace: string) {
    Contains(date, replace) && ByteLength(replace) >= ByteLength(search)
  }

  /** The first hit is replaced: it occurs once and passes the guard. */
  predicate Replaces(entries: seq<(Key, string)>, date: string, k: nat) {
    && FirstHit(entries, date, k)
    && Count(date, entries[k].0.text) == 1
    && !AlreadyThere(date, entries[k].0.text, entries[k].1)
  }

  /** r is the date with the leftmost occurrence of search replaced. */
  ghost predicate ReplacedLeftmost(date: string, search: string, replace: string, r: string) {
    exists i: nat :: && OccursAt(date, i, search)
                     && (forall j | 0 <= j < i :: !OccursAt(date, j, search))
                     && r == date[..i] + replace + date[i + |search|..]
  }

  /**
   * What `unlocalize` promises: the date changes exactly when some entry is
   * replaced, and then it is that entry's leftmost occurrence that changes.
   */
  ghost predicate Unlocalized(entries: seq<(Key, string)>, date: string, r: string) {
    && (r != date <==> exists k: nat :: Replaces(entries, date, k))
    && forall k: nat | Replaces(entries, date, k) :: ReplacedLeftmost(date, entries[k].0.text, entries[k].1, r)
  }

  /** The loop of `unlocalize` over the replacements, in order. */
  function Scan(entries: seq<(Key, string)>, date: string): (r: string)
    ensures Unlocalized(entries, date, r)
  {
    if entries == [] then date
    else
      var search := entries[0].0.text;
      var replace := entries[0].1;
      if entries[0].0.IntegerKey? || Count(date, search) == 0 then
        var r := Scan(entries[1..], date);
        ScanSkips(entries, date, r);
        r
      else if Count(date, search) > 1 || AlreadyThere(date, search, replace) then
        ScanStops(entries, date);
        date
      else
        var i := FindFrom(date, search, 0).value;
        ScanReplaces(entries, date, i);
        ReplaceAt(date, i, search, replace)
  }

  /** Skipping an entry that is no hit: the rest of the loop decides. */
  lemma ScanSkips(entries: seq<(Key, string)>, date: string, r: string)
    requires |entries| > 0 && !Hits(entries[0], date)
    requires Unlocalized(entries[1..], date, r)
    ensures Unlocalized(entries, date, r)
  {
    var tail := entries[1..];
    forall k: nat ensures Replaces(entries, date, k + 1) <==> Replaces(tail, date, k) {
      ReplacesShift(entries, date, k);
    }
    assert !Replaces(entries, date, 0);
    forall k: nat | Replaces(entries, date, k)
      ensures ReplacedLeftmost(date, entries[k].0.text, entries[k].1, r)
    {
      assert Replaces(tail, date, k - 1) && tail[k - 1] == entries[k];
    }
    if r != date {
      var k: nat :| Replaces(tail, date, k);
      assert Replaces(entries, date, k + 1);
    }
  }

  /** Behind a first entry that is no hit, entry k + 1 replaces exactly when entry k of the rest does. */
  lemma ReplacesShift(entries: seq<(Key, string)>, date: string, k: nat)
    requires |entries| > 0 && !Hits(entries[0], date)
    ensures Replaces(entries, date, k + 1) <==> Replaces(entries[1..], date, k)
  {
    var tail := entries[1..];
    if k < |tail| {
      assert tail[k] == entries[k + 1];
      assert FirstHit(entries, date, k + 1) <==> FirstHit(tail, date, k) by {
        assert forall j | 0 <= j < k :: tail[j] == entries[j + 1];
      }
    }
  }

  /** The first hit occurs more than once, or its replacement is already there: the date stays. */
  lemma ScanStops(entries: seq<(Key, string)>, date: string)
    requires |entries| > 0 && entries[0].0.StringKey? && Count(date, entries[0].0.text) > 0
    requires Count(date, entries[0].0.text) > 1 || AlreadyThere(date, entries[0].0.text, entries[0].1)
    ensures Unlocalized(entries, date, date)
  {
    assert Hits(entries[0], date);
    forall k: nat ensures !Replaces(entries, date, k) {
      if k > 0 {
        assert !FirstHit(entries, date, k);
      }
    }
  }

  /** The first hit occurs once and is not there already: its occurrence is replaced. */
  lemma ScanReplaces(entries: seq<(Key, string)>, date: string, i: nat)
    requires |entries| > 0 && entries[0].0.StringKey? && Count(date, entries[0].0.text) == 1
    requires !AlreadyThere(date, entries[0].0.text, entries[0].1)
    requires FindFrom(date, entries[0].0.text, 0) == Some(i)
    ensures OccursAt(date, i, entries[0].0.text)
    ensures Unlocalized(entries, date, ReplaceAt(date, i, entries[0].0.text, entries[0].1))
  {
    var search, replace := entries[0].0.text, entries[0].1;
    var r := ReplaceAt(date, i, search, replace);
    assert Replaces(entries, date, 0);
    assert forall k: nat | k > 0 :: !FirstHit(entries, date, k) by {
      assert Hits(entries[0], date);
    }
    ReplacedDiffers(date, i, search, replace);
    assert ReplacedLeftmost(date, search, replace, r);
  }

  /** A replacement that is not already in the date changes it. */
  lemma ReplacedDiffers(date: string, i: nat, search: string, replace: string)
    requires OccursAt(date, i, search) && !AlreadyThere(date, search, replace)
    ensures ReplaceAt(date, i, search, replace) != date
  {
    var u := ReplaceAt(date, i, search, replace);
    if |replace| == |search| {
      assert !OccursAt(date, i, replace);
      assert u[i..i + |replace|] == replace;
    }
  }

  /** `unlocalize`: at most one month name replaced, by the first hit in the sorted order. */
  function Unlocalize(u: Unlocalizer, date: string): (r: string)
    ensures Unlocalized(u.replacements, date, r)
  {
    Scan(u.replacements, date)
  }

  /** Of all the search strings found in the date, a longest one is the one replaced. */
  lemma LongestKeyWins(replacements: seq<(Key, string)>, date: string, k: nat)
    requires Replaces(NewUnlocalizer(replacements).replacements, date, k)
    ensures NewUnlocalizer(replacements).replacements[k] in replacements
    ensures forall e | e in replacements && Hits(e, date)
      :: KeyLength(e.0) <= KeyLength(NewUnlocalizer(replacements).replacements[k].0)
  {
    var sorted := NewUnlocalizer(replacements).replacements;
    assert sorted[k] in multiset(sorted);
    forall e | e in replacements && Hits(e, date) ensures KeyLength(e.0) <= KeyLength(sorted[k].0) {
      assert e in multiset(replacements);
      assert e in multiset(sorted);
      var j :| 0 <= j < |sorted| && sorted[j] == e;
      assert !(j < k);
    }
  }

  /** A single replacement, spelled out. */
  lemma SingleReplacement(search: string, replace: string, date: string)
    requires |search| > 0
    ensures Unlocalize(NewUnlocalizer([(StringKey(search), replace)]), date)
      == if Count(date, search) == 1 && !AlreadyThere(date, search, replace)
         then ReplaceAt(date, FindFrom(date, search, 0).value, search, replace)
         else date
  {
    var e := [(StringKey(search), replace)];
    assert SortByLength(e) == e by {
      assert e[1..] == [];
    }
    assert e[1..] == [];
  }

  /** When t starts with a character found only at position i, t occurs once, at i. */
  lemma OnlyOccurrence(s: string, t: string, i: nat)
    requires |t| > 0 && OccursAt(s, i, t)
    requires forall j | 0 <= j < |s| && j != i :: s[j] != t[0]
    ensures FindFrom(s, t, 0) == Some(i) && Count(s, t) == 1
  {
    assert s[i..i + |t|][0] == t[0];
    var k := FindFrom(s, t, 0).value;
    assert s[k..k + |t|][0] == t[0];
    forall j | i + |t| <= j ensures !OccursAt(s, j, t) {
      if j + |t| <= |s| {
        assert s[j..j + |t|][0] == s[j];
      }
    }
  }

  /** When t's first character is found only at position i and t does not occur there, t is absent. */
  lemma Absent(s: string, t: string, i: nat)
    requires |t| > 0 && !OccursAt(s, i, t)
    requires forall j | 0 <= j < |s| && j != i :: s[j] != t[0]
    ensures !Contains(s, t)
  {
    forall j | 0 <= j <= |s| ensures !OccursAt(s, j, t) {
      if j + |t| <= |s| && j != i {
        assert s[j..j + |t|][0] == s[j];
      }
    }
  }

  /** A name found twice leaves the date alone. */
  lemma TwiceExample(date: string)
    requires date == "July July"
    ensures Unlocalize(NewUnlocalizer([(StringKey("July"), "bad")]), date) == date
  {
    SingleReplacement("July", "bad", date);
    assert OccursAt(date, 0, "July") && OccursAt(date, 5, "July");
    assert FindFrom(date, "July", 0) == Some(0);
    assert FindFrom(date, "July", 4).Some?;
  }

  /** An already unlocalised name is not lengthened again, but shortening is done. */
  lemma AlreadyUnlocalizedExample(date: string)
    requires date == "July"
    ensures Unlocalize(NewUnlocalizer([(StringKey("Jul"), "July")]), date) == date
    ensures Unlocalize(NewUnlocalizer([(StringKey("July"), "Jul")]), date) == "Jul"
  {
    SingleReplacement("Jul", "July", date);
    SingleReplacement("July", "Jul", date);
    assert OccursAt(date, 0, "July") && OccursAt(date, 0, "Jul");
    OnlyOccurrence(date, "July", 0);
  }

  /** Names are found inside words. */
  lemma InsideWordExample(date: string)
    requires date == "1Jul2015"
    ensures Unlocalize(NewUnlocalizer([(StringKey("Jul"), "July")]), date) == "1July2015"
  {
    assert OccursAt(date, 1, "Jul") && date[4] != "July"[3];
    Absent(date, "July", 1);
    ReplacedOnceAt("Jul", "July", date, 1);
    InsideWordText(date);
  }

  lemma InsideWordText(date: string)
    requires date == "1Jul2015"
    ensures date[..1] + "July" + date[4..] == "1July2015"
  {
  }

  /** A one-entry unlocalizer whose name occurs once, at i, and whose replacement is absent. */
  lemma ReplacedOnceAt(search: string, replace: string, date: string, i: nat)
    requires |search| > 0 && OccursAt(date, i, search) && !Contains(date, replace)
    requires forall j | 0 <= j < |date| && j != i :: date[j] != search[0]
    ensures Unlocalize(NewUnlocalizer([(StringKey(search), replace)]), date)
      == date[..i] + replace + date[i + |search|..]
  {
    SingleReplacement(search, replace, date);
    OnlyOccurrence(date, search, i);
  }

  /**
   * Lengths are counted in bytes: "M\U{E4}r" (four bytes) is tried before "Mai"
   * (three), although both have three characters.
   */
  lemma ByteOrderExample(date: string)
    requires date == "Mai M\U{E4}r"
    ensures NewUnlocalizer([(StringKey("Mai"), "May"), (StringKey("M\U{E4}r"), "March")]).replacements
      == [(StringKey("M\U{E4}r"), "March"), (StringKey("Mai"), "May")]
    ensures Unlocalize(NewUnlocalizer([(StringKey("Mai"), "May"), (StringKey("M\U{E4}r"), "March")]), date)
      == "Mai March"
  {
    var mai, mar := (StringKey("Mai"), "May"), (StringKey("M\U{E4}r"), "March");
    assert KeyLength(mai.0) == 3 && KeyLength(mar.0) == 4;
    assert [mai, mar][1..] == [mar];
    assert SortByLength([mar]) == [mar] by { assert [mar][1..] == []; }
    assert InsertByLength(mai, []) == [mai];
    var sorted := [mar, mai];
    assert NewUnlocalizer([mai, mar]).replacements == sorted;
    MarchOnce(date);
    assert Scan(sorted, date) == ReplaceAt(date, 4, "M\U{E4}r", "March");
    assert date[..4] + "March" + date[7..] == "Mai March";
  }

  lemma MarchOnce(date: string)
    requires date == "Mai M\U{E4}r"
    ensures FindFrom(date, "M\U{E4}r", 0) == Some(4) && Count(date, "M\U{E4}r") == 1
    ensures !Contains(date, "March")
  {
    var t := "M\U{E4}r";
    assert !OccursAt(date, 0, t) by { assert date[0..3][1] != t[1]; }
    forall j | 1 <= j < 4 ensures !OccursAt(date, j, t) {
      assert date[j..j + 3][0] == date[j];
    }
    assert OccursAt(date, 4, t);
    assert FindFrom(date, t, 7) == None;
    forall j | 0 <= j <= |date| ensures !OccursAt(date, j, "March") {
      if j + 5 <= |date| {
        assert date[j..j + 5][2] == date[j + 2];
      }
    }
  }

  /** A month name "2" is an integer key and is never searched for. */
  lemma IntegerKeyExample(date: string)
    requires date == "2000"
    ensures Unlocalize(NewUnlocalizer([(KeyOf("2"), "February")]), date) == date
  {
  }

  /** A numeral one past the largest PHP integer stays a string key, and is searched for. */
  lemma OverflowKeyExample()
    ensures KeyOf("9223372036854775807") == IntegerKey("9223372036854775807")
    ensures KeyOf("9223372036854775808") == StringKey("9223372036854775808")
    ensures KeyOf("-9223372036854775808") == IntegerKey("-9223372036854775808")
  {
    LimitValues();
    assert "-9223372036854775808"[1..] == "9223372036854775808";
  }

  /** The values of the two numerals around the largest PHP integer. */
  lemma LimitValues()
    ensures IsDigits("9223372036854775807") && Value("9223372036854775807") == INT_MAX
    ensures IsDigits("9223372036854775808") && Value("9223372036854775808") == INT_MAX + 1
  {
    var p := "92233720368547758";
    LimitPrefixValue();
    assert Pow10(2) == 100;
    ValueOfTwo('0', '7');
    ValueOfTwo('0', '8');
    ValueAppend(p, "07");
    ValueAppend(p, "08");
    assert p + "07" == "9223372036854775807";
    assert p + "08" == "9223372036854775808";
  }

  /** The first seventeen digits of the largest PHP integer, four digits at a time. */
  lemma LimitPrefixValue()
    ensures IsDigits("92233720368547758") && Value("92233720368547758") == 92233720368547758
  {
    var c := LimitChunksValue();
    ValueOfTwo('5', '8');
    assert Pow10(2) == 100;
    ValueAppend(c, "58");
    ValueLeadingZeros(1, "92233720368547758");
    assert Repeat('0', 1) + "92233720368547758" == c + "58";
  }

  /** "0922" "3372" "0368" "5477", joined. */
  lemma LimitChunksValue() returns (c: string)
    ensures c == "0922337203685477" && IsDigits(c) && Value(c) == 922337203685477
  {
    assert Pow10(4) == 10000;
    ValueOfFour('0', '9', '2', '2');
    ValueOfFour('3', '3', '7', '2');
    ValueOfFour('0', '3', '6', '8');
    ValueOfFour('5', '4', '7', '7');
    var a := "0922" + "3372";
    ValueAppend("0922", "3372");
    var b := a + "0368";
    ValueAppend(a, "0368");
    c := b + "5477";
    ValueAppend(b, "5477");
  }

  /** A name with punctuation, "5.", is a string key: its one occurrence is replaced. */
  lemma PunctuatedNumberExample(date: string)
    requires date == "5. 4. 1891"
    ensures Unlocalize(NewUnlocalizer([(KeyOf("5."), "May")]), date) == "May 4. 1891"
  {
    PunctuatedKey();
    PunctuatedDate(date);
    ReplacedOnceAt("5.", "May", date, 0);
    assert date[..0] + "May" + date[2..] == "May 4. 1891";
  }

  lemma PunctuatedKey()
    ensures KeyOf("5.") == StringKey("5.")
  {
    assert !IsDigit("5."[1]);
  }

  lemma PunctuatedDate(date: string)
    requires date == "5. 4. 1891"
    ensures OccursAt(date, 0, "5.") && !Contains(date, "May")
    ensures forall j | 0 <= j < |date| && j != 0 :: date[j] != "5."[0]
  {
    assert date[0] != "May"[0];
    Absent(date, "May", 0);
  }

  // ---------------------------------------------------------------------------
  // MonolingualMonthNameProvider

  /** A table of (key, value) pairs in array order. */
  function Lookup(table: seq<(string, int)>, name: string): (r: Option<int>)
    ensures r.Some? <==> exists i | 0 <= i < |table| :: table[i].0 == name
    ensures r.Some? ==> exists i | 0 <= i < |table| :: table[i] == (name, r.value)
  {
    if table == [] then None
    else if table[0].0 == name then Some(table[0].1)
    else
      var r := Lookup(table[1..], name);
      assert forall i | 0 <= i < |table[1..]| :: table[1..][i] == table[i + 1];
      r
  }

  predicate DistinctKeys(table: seq<(string, int)>) {
    forall i, j | 0 <= i < j < |table| :: table[i].0 != table[j].0
  }

  /** Storing a number under a name: an existing key keeps its place and takes the new value, a new one goes last. */
  function Put(table: seq<(string, int)>, name: string, number: int): (r: seq<(string, int)>)
    ensures Lookup(r, name) == Some(number)
    ensures forall other | other != name :: Lookup(r, other) == Lookup(table, other)
    ensures |r| == if Lookup(table, name).Some? then |table| else |table| + 1
    ensures Lookup(table, name).None? ==> r == table + [(name, number)]
  {
    if table == [] then [(name, number)]
    else if table[0].0 == name then [(name, number)] + table[1..]
    else [table[0]] + Put(table[1..], name, number)
  }

  lemma {:induction false} PutKeepsDistinct(table: seq<(string, int)>, name: string, number: int)
    requires DistinctKeys(table)
    ensures DistinctKeys(Put(table, name, number))
  {
    var r := Put(table, name, number);
    forall i, j | 0 <= i < j < |r| ensures r[i].0 != r[j].0 {
      if Lookup(table, name).None? {
        assert r == table + [(name, number)];
        if j == |table| {
          assert r[i] == table[i];
          assert Lookup(table, r[i].0).Some?;
        }
      } else {
        PutKeys(table, name, number, i);
        PutKeys(table, name, number, j);
      }
    }
  }

  /** Replacing a value in place leaves every key where it was. */
  lemma {:induction false} PutKeys(table: seq<(string, int)>, name: string, number: int, i: nat)
    requires Lookup(table, name).Some? && i < |table|
    ensures i < |Put(table, name, number)| && Put(table, name, number)[i].0 == table[i].0
  {
    if table[0].0 != name && i > 0 {
      assert Lookup(table[1..], name).Some?;
      PutKeys(table[1..], name, number, i - 1);
    }
  }

  /** `array_flip`: names become keys and numbers values, a repeated name taking its last number. */
  function Flip(names: seq<(int, string)>): (r: seq<(string, int)>)
    ensures DistinctKeys(r)
  {
    if names == [] then []
    else
      var last := names[|names| - 1];
      var rest := Flip(names[..|names| - 1]);
      PutKeepsDistinct(rest, last.1, last.0);
      Put(rest, last.1, last.0)
  }

  /** The number given last to a name in the table, looked up by a backward scan. */
  function LastNumber(names: seq<(int, string)>, name: string): (r: Option<int>)
    ensures r.Some? ==> exists i | 0 <= i < |names| :: names[i] == (r.value, name)
  {
    if names == [] then None
    else if names[|names| - 1].1 == name then Some(names[|names| - 1].0)
    else
      var r := LastNumber(names[..|names| - 1], name);
      assert forall i | 0 <= i < |names| - 1 :: names[..|names| - 1][i] == names[i];
      r
  }

  /** Looking a name up in the flipped table gives the last number it was listed with, or none. */
  lemma {:induction false} FlipLookup(names: seq<(int, string)>, name: string)
    ensures Lookup(Flip(names), name) == LastNumber(names, name)
  {
    if names != [] {
      FlipLookup(names[..|names| - 1], name);
    }
  }

  predicate DistinctNames(names: seq<(int, string)>) {
    forall i, j | 0 <= i < j < |names| :: names[i].1 != names[j].1
  }

  /** With distinct names the flip swaps each pair in place. */
  lemma {:induction false} FlipSwaps(names: seq<(int, string)>)
    requires DistinctNames(names)
    ensures |Flip(names)| == |names|
    ensures forall i | 0 <= i < |names| :: Flip(names)[i] == (names[i].1, names[i].0)
  {
    if names != [] {
      var n := |names| - 1;
      var prefix := names[..n];
      assert DistinctNames(prefix) by {
        forall i, j | 0 <= i < j < |prefix| ensures prefix[i].1 != prefix[j].1 {
          assert prefix[i] == names[i] && prefix[j] == names[j];
        }
      }
      FlipSwaps(prefix);
      var rest := Flip(prefix);
      assert Lookup(rest, names[n].1).None? by {
        forall i | 0 <= i < |rest| ensures rest[i].0 != names[n].1 {
          assert rest[i] == (prefix[i].1, prefix[i].0) && prefix[i] == names[i];
        }
      }
      assert Flip(names) == rest + [(names[n].1, names[n].0)];
      forall i | 0 <= i < |names| ensures Flip(names)[i] == (names[i].1, names[i].0) {
        if i < n {
          assert prefix[i] == names[i];
        }
      }
    }
  }

  datatype MonolingualProvider = MonolingualProvider(monthNames: seq<(int, string)>)

  /** `getLocalizedMonthNames`: the table the provider was built with; the language code is ignored. */
  function LocalizedMonthNames(p: MonolingualProvider, languageCode: string): (names: seq<(int, string)>)
    ensures names == p.monthNames
  {
    p.monthNames
  }

  /** `getMonthNumbers`: the inverse table, name to number; the language code is ignored. */
  function MonthNumbers(p: MonolingualProvider, languageCode: string): (numbers: seq<(string, int)>)
    ensures DistinctKeys(numbers)
    ensures forall name :: Lookup(numbers, name) == LastNumber(p.monthNames, name)
  {
    assert forall name :: Lookup(Flip(p.monthNames), name) == LastNumber(p.monthNames, name) by {
      forall name ensures Lookup(Flip(p.monthNames), name) == LastNumber(p.monthNames, name) {
        FlipLookup(p.monthNames, name);
      }
    }
    Flip(p.monthNames)
  }

  /** For distinct names, each localised name looks up to the number it was listed with. */
  lemma NamesRoundTrip(p: MonolingualProvider, languageCode: string, i: nat)
    requires DistinctNames(p.monthNames) && i < |p.monthNames|
    ensures Lookup(MonthNumbers(p, languageCode), LocalizedMonthNames(p, languageCode)[i].1)
      == Some(p.monthNames[i].0)
  {
    FlipSwaps(p.monthNames);
    var numbers := MonthNumbers(p, languageCode);
    var name := p.monthNames[i].1;
    assert numbers[i] == (name, p.monthNames[i].0);
    LookupDistinct(numbers, i);
  }

  /** In a table with distinct keys, a key looks up to its own value. */
  lemma {:induction false} LookupDistinct(table: seq<(string, int)>, i: nat)
    requires DistinctKeys(table) && i < |table|
    ensures Lookup(table, table[i].0) == Some(table[i].1)
  {
    if i > 0 {
      var tail := table[1..];
      assert DistinctKeys(tail) by {
        forall a, b | 0 <= a < b < |tail| ensures tail[a].0 != tail[b].0 {
          assert tail[a] == table[a + 1] && tail[b] == table[b + 1];
        }
      }
      LookupDistinct(tail, i - 1);
      assert tail[i - 1] == table[i];
    }
  }

  /** The provider of the tests: one month, "January", is number 1 and back. */
  lemma JanuaryExample(name: string)
    requires name == "January"
    ensures LocalizedMonthNames(MonolingualProvider([(1, name)]), "xx") == [(1, name)]
    ensures MonthNumbers(MonolingualProvider([(1, name)]), "xx") == [(name, 1)]
  {
    FlipSwaps([(1, name)]);
  }
}
