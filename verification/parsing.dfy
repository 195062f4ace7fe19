/**
 * What the string parsers share: the error they raise (a ParseException in the
 * library) and the options bag, held here as an immutable record.
 */
module Parsing {
  import opened Results
  import opened Text
  import opened TimeValues

  /**
   * A ParseException: raised with a message, or wrapping the reason TimeValue's
   * constructor refused the assembled value.
   */
  datatype ParseError = ParseError(message: string) | InvalidValue(cause: TimeValueError)

  /** The `precision` option: unset (null, or the legacy parser's 'noprecision'), an int, or a string. */
  datatype PrecisionOption = NoPrecisionOption | PrecisionNumber(n: int) | PrecisionText(t: string)

  /**
   * The options the parsers read. `calendar` is the `calendar` option (None when
   * unset); `calendarModelUris` maps localised calendar names to URIs;
   * `digitGroupSeparator` is the year parser's separator.
   */
  datatype Options = Options(precision: PrecisionOption, calendar: Option<string>,
                             calendarModelUris: map<string, string>, digitGroupSeparator: string)

  /** Every option at the default the parsers' constructors set. */
  const DEFAULT_OPTIONS: Options := Options(NoPrecisionOption, None, map[], ",")

  /** `ctype_digit`: a non-empty string of ASCII digits. */
  predicate IsCtypeDigit(s: string) {
    |s| > 0 && IsDigits(s)
  }
}
