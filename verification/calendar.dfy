/**
 * The calendar model parsers: CalendarModelParser (custom URI table, canonical
 * URIs, then a small alias table) and the older CalenderModelParser (alias table
 * only). Sources: src/ValueParsers/CalendarModelParser.php and
 * src/ValueParsers/CalenderModelParser.php.
 */
module CalendarModels {
  import opened Results
  import opened Text
  import opened TimeValues
  import opened Parsing

  /** The keys that name the Gregorian calendar once trimmed and lower-cased. */
  predicate IsGregorianKey(k: string) {
    k == "" || k == "gregorian" || k == "western" || k == "christian"
  }

  predicate IsCanonicalUri(u: string) {
    u == CALENDAR_GREGORIAN || u == CALENDAR_JULIAN
  }

  /** getCalendarModelUriFromKey: whole-token lookup of the trimmed, lower-cased value. */
  function UriFromKey(value: string): (r: Result<string, ParseError>)
    ensures r.Ok? ==> IsCanonicalUri(r.value)
    ensures r == Ok(CALENDAR_GREGORIAN) <==> IsGregorianKey(ToLower(Trim(value)))
    ensures r == Ok(CALENDAR_JULIAN) <==> ToLower(Trim(value)) == "julian"
  {
    var key := ToLower(Trim(value));
    if IsGregorianKey(key) then Ok(CALENDAR_GREGORIAN)
    else if key == "julian" then Ok(CALENDAR_JULIAN)
    else Err(ParseError("Cannot parse calendar model"))
  }

  /**
   * CalendarModelParser::stringParse: the custom table first (exact key), then a
   * canonical URI stands for itself, then the alias table.
   */
  function ParseCalendarModel(uris: map<string, string>, value: string): (r: Result<string, ParseError>)
    ensures value in uris ==> r == Ok(uris[value])
    ensures value !in uris && IsCanonicalUri(value) ==> r == Ok(value)
    ensures value !in uris && r.Ok? ==> IsCanonicalUri(r.value)
    ensures value !in uris && !IsCanonicalUri(value) ==> r == UriFromKey(value)
  {
    if value in uris then Ok(uris[value])
    else if value == CALENDAR_GREGORIAN then Ok(CALENDAR_GREGORIAN)
    else if value == CALENDAR_JULIAN then Ok(CALENDAR_JULIAN)
    else UriFromKey(value)
  }

  /** Without a custom table, parsing an output again gives the same output. */
  lemma ParseIdempotent(value: string)
    requires ParseCalendarModel(map[], value).Ok?
    ensures ParseCalendarModel(map[], ParseCalendarModel(map[], value).value) == ParseCalendarModel(map[], value)
  {
  }

  /** The lower-case name of each canonical calendar. */
  function NameOf(uri: string): (n: string)
    requires IsCanonicalUri(uri)
  {
    if uri == CALENDAR_GREGORIAN then "gregorian" else "julian"
  }

  /**
   * The name of a calendar, in any letter case and surrounded by any blanks that
   * `trim` removes, parses back to that calendar's URI.
   */
  lemma NameParsesToUri(uri: string, name: string, before: string, after: string)
    requires IsCanonicalUri(uri)
    requires ToLower(name) == NameOf(uri)
    requires forall i | 0 <= i < |before| :: IsTrimSpace(before[i])
    requires forall i | 0 <= i < |after| :: IsTrimSpace(after[i])
    ensures ParseCalendarModel(map[], before + name + after) == Ok(uri)
  {
    var value := before + name + after;
    TrimOfPadded(before, name, after, NameOf(uri));
    assert value[0] != 'h' by {
      if |before| > 0 {
        assert value[0] == before[0];
      } else {
        assert value[0] == name[0];
        assert LowerChar(name[0]) == NameOf(uri)[0];
      }
    }
    NotUri(value);
  }

  /** Both canonical URIs start with 'h'. */
  lemma NotUri(value: string)
    requires |value| > 0 && value[0] != 'h'
    ensures !IsCanonicalUri(value)
  {
    assert CALENDAR_GREGORIAN[0] == 'h' && CALENDAR_JULIAN[0] == 'h';
  }

  /** Trimming blanks off a padded word whose lower-case form is a non-empty run of letters. */
  lemma TrimOfPadded(before: string, name: string, after: string, key: string)
    requires ToLower(name) == key && |key| > 0
    requires forall i | 0 <= i < |key| :: 'a' <= key[i] <= 'z'
    requires forall i | 0 <= i < |before| :: IsTrimSpace(before[i])
    requires forall i | 0 <= i < |after| :: IsTrimSpace(after[i])
    ensures Trim(before + name + after) == name
  {
    WordEnds(name, key);
    TrimAround(before, name, after);
  }

  /** A word spelled with letters neither starts nor ends with a blank. */
  lemma WordEnds(name: string, key: string)
    requires ToLower(name) == key && |key| > 0
    requires forall i | 0 <= i < |key| :: 'a' <= key[i] <= 'z'
    ensures |name| > 0 && !IsTrimSpace(name[0]) && !IsTrimSpace(name[|name| - 1])
  {
    assert LowerChar(name[0]) == key[0];
    assert LowerChar(name[|name| - 1]) == key[|key| - 1];
  }

  /** CalenderModelParser::stringParse: lower-cased, untrimmed, '' and 'gregorian' or 'julian'. */
  function ParseCalenderModel(value: string): (r: Result<string, ParseError>)
    ensures r.Ok? ==> IsCanonicalUri(r.value)
    ensures r == Ok(CALENDAR_GREGORIAN) <==> ToLower(value) == "" || ToLower(value) == "gregorian"
    ensures r == Ok(CALENDAR_JULIAN) <==> ToLower(value) == "julian"
  {
    var key := ToLower(value);
    if key == "" || key == "gregorian" then Ok(CALENDAR_GREGORIAN)
    else if key == "julian" then Ok(CALENDAR_JULIAN)
    else Err(ParseError("Cannot parse calender model: " + key))
  }

  /** Whatever the older parser accepts, the newer one accepts with the same result. */
  lemma CalenderAgreesWithCalendar(value: string)
    requires ParseCalenderModel(value).Ok?
    ensures ParseCalendarModel(map[], value) == ParseCalenderModel(value)
  {
    var key := ToLower(value);
    if key == "" {
      assert value == "";
      assert Trim(value) == "";
    } else {
      assert key == "gregorian" || key == "julian";
      TrimOfPadded("", value, "", key);
      assert "" + value + "" == value;
      assert !IsCanonicalUri(value) by {
        assert LowerChar(value[0]) == key[0];
      }
    }
  }

  /** The older parser does not trim: a blank in front makes it fail, where the newer one succeeds. */
  lemma CalenderRejectsBlanks(uri: string, name: string, before: string)
    requires IsCanonicalUri(uri)
    requires ToLower(name) == NameOf(uri)
    requires |before| > 0 && forall i | 0 <= i < |before| :: IsTrimSpace(before[i])
    ensures ParseCalenderModel(before + name).Err?
    ensures ParseCalendarModel(map[], before + name) == Ok(uri)
  {
    var value := before + name;
    assert ToLower(value)[0] == before[0];
    NameParsesToUri(uri, name, before, "");
    assert before + name + "" == value;
  }

  /** 'western' names the Gregorian calendar only for the newer parser. */
  lemma WesternOnlyInCalendar(name: string)
    requires ToLower(name) == "western"
    ensures ParseCalenderModel(name).Err?
    ensures ParseCalendarModel(map[], name) == Ok(CALENDAR_GREGORIAN)
  {
    TrimOfPadded("", name, "", "western");
    assert "" + name + "" == name;
    assert name[0] != 'h' by { assert LowerChar(name[0]) == 'w'; }
    NotUri(name);
  }

  /**
   * Matching is on the whole token, never a substring: a calendar name followed
   * by more words is not a calendar model.
   */
  lemma NameWithMoreWordsFails(uri: string, name: string, rest: string)
    requires IsCanonicalUri(uri)
    requires ToLower(name) == NameOf(uri)
    requires |rest| > 0 && !IsTrimSpace(rest[|rest| - 1])
    ensures ParseCalendarModel(map[], name + " " + rest).Err?
  {
    var value := name + " " + rest;
    NameWithMoreWordsKey(uri, name, rest);
    KeyWithBlank(ToLower(Trim(value)), |name|);
    NotUri(value);
    UnknownKeyFails(value);
  }

  lemma NameWithMoreWordsKey(uri: string, name: string, rest: string)
    requires IsCanonicalUri(uri)
    requires ToLower(name) == NameOf(uri)
    requires |rest| > 0 && !IsTrimSpace(rest[|rest| - 1])
    ensures var value := name + " " + rest;
      Trim(value) == value && ToLower(value)[|name|] == ' ' && value[0] != 'h'
  {
    var value := name + " " + rest;
    WordEnds(name, NameOf(uri));
    TrimAround("", value, "");
    assert "" + value + "" == value;
    NameStart(uri, name);
    assert value[0] == name[0];
    assert value[|name|] == ' ';
  }

  lemma UnknownKeyFails(value: string)
    requires !IsCanonicalUri(value)
    requires !IsGregorianKey(ToLower(Trim(value))) && ToLower(Trim(value)) != "julian"
    ensures ParseCalendarModel(map[], value).Err?
  {
  }

  lemma NameStart(uri: string, name: string)
    requires IsCanonicalUri(uri)
    requires ToLower(name) == NameOf(uri)
    ensures |name| > 0 && name[0] != 'h'
  {
    assert LowerChar(name[0]) == NameOf(uri)[0];
  }

  /** No alias contains a blank. */
  lemma KeyWithBlank(key: string, k: nat)
    requires k < |key| && key[k] == ' '
    ensures !IsGregorianKey(key) && key != "julian"
  {
  }
}
