# A verified model of wmde/Time

This project models in Dafny the core of the DataValues Time library: the
`TimeValue` data value with its extended, signed ISO 8601 style timestamp,
the `TimeValueCalculator` that turns a value into Unix-epoch seconds and
into lower and upper bounds, and the family of string parsers that build
time values (ISO timestamps, year-month-day, year-month, year, era and
calendar-model parsing, month name unlocalizing, month name providers and
the legacy strict time parser). Every regular expression of the source is
written out as a hand-rolled recogniser over `seq<char>`; every piece of
arithmetic uses unbounded integers.

Modules, one per source component:

| file | module | models |
|---|---|---|
| results.dfy | Results | `Option` and `Result` with Dafny's `:-` protocol |
| text.dfy | Text | digits, numeric strings, PHP `trim`, PCRE `\s`, case folding, UTF-8 byte length, `\p{L}` |
| timevalue.dfy | TimeValues | `TimeValue`, its timestamp grammar, normalisation and array form |
| mktime.dfy | MkTimeUtc | PHP `mktime` in UTC for the two reference years the calculator uses |
| calculator.dfy | TimeValueCalculator | leap years, seconds per precision, digit floor and ceiling, epoch seconds, bounds |
| parsing.dfy | Parsing | parser options, `ParseException`, `ctype_digit` |
| calendar.dfy | CalendarModels | `CalendarModelParser` and the legacy `CalenderModelParser` |
| era.dfy | Eras | `EraParser`: sign or BC/CE suffix |
| iso.dfy | IsoTimestamps | `IsoTimestampParser` |
| ymd.dfy | YearMonthDay | `YearMonthDayTimeParser` |
| yearmonth.dfy | YearMonth | `YearMonthTimeParser` |
| year.dfy | YearOnly | `YearTimeParser` |
| monthnames.dfy | MonthNames | `MonthNameUnlocalizer` and `MonolingualMonthNameProvider` |
| legacy.dfy | LegacyTimeParser | the legacy strict `TimeParser` |

A timestamp is a `Stamp` (sign, 1 to 16 year digits, five two-digit fields);
`Format` writes it and `ParseStamp` is the timestamp regular expression of
`TimeValue`. A parser failure is a `ParseError` carrying the source's
message; a `TimeValue` construction failure is a `TimeValueError`, one
constructor per `IllegalValueException` the constructor can throw.

## Model

| member | source | states |
|---|---|---|
| TimeValues.ParseStamp | src/DataValues/TimeValue.php:235-243 | a match is well formed and the input is exactly its formatted text, optionally followed by one newline (PHP `$` without the D modifier) |
| TimeValues.ParseFormat | src/DataValues/TimeValue.php:235-243 | every well-formed stamp, formatted, with or without a final newline, is matched back to itself |
| TimeValues.RangeError | src/DataValues/TimeValue.php:245-257 | no error exactly when month ≤ 12, day ≤ 31, no day without a month, hour ≤ 23, minute ≤ 59, second ≤ 61; no per-month day check |
| TimeValues.NormalizeYear | src/DataValues/TimeValue.php:260-261 | the year keeps its numeric value, becomes canonical (4 to 16 digits, leading zero only at width 4) and a canonical year is left alone |
| TimeValues.NormalizeIsoTimestamp | src/DataValues/TimeValue.php:234-264 | succeeds exactly on a grammatical in-range timestamp; a non-match is `MalformedTimestamp`; the result is canonical and differs from the input only in the re-padded year |
| TimeValues.NormalizeCanonical | src/DataValues/TimeValue.php:234-264 | a canonical timestamp is a fixed point of normalisation |
| TimeValues.NormalizeIdempotent | src/DataValues/TimeValue.php:234-264 | normalising twice equals normalising once |
| TimeValues.Construct | src/DataValues/TimeValue.php:190-226 | construction succeeds exactly when every argument has its documented type, the timezone lies in [-12·3600, 14·3600], before and after are non-negative, precision is 0..14, the calendar model is non-empty and the timestamp normalises; the value then holds the normalised timestamp and the other arguments |
| TimeValues.ArgumentError | src/DataValues/TimeValue.php:191-219 | no argument error is raised exactly when the timestamp is a non-empty string, timezone, before, after and precision are integers, the timezone lies in [-12·3600, 14·3600], before and after are non-negative, precision is 0..14 and the calendar model is a non-empty string; an argument error is never a missing-field or malformed-timestamp error |
| TimeValues.New | src/DataValues/TimeValue.php:190-226 | with typed arguments: success exactly on the range conditions and a grammatical in-range timestamp; the value is valid and keeps every argument but the re-padded year |
| TimeValues.NewOfValid | src/DataValues/TimeValue.php:190-226 | constructing from the fields of a valid value gives that value back |
| TimeValues.SortKey | src/DataValues/TimeValue.php:350-352 | the sort key is the stored canonical timestamp |
| TimeValues.ToString | src/DataValues/TimeValue.php:432-434 | the string form is canonical and equals the sort key |
| TimeValues.GetArrayValue | src/DataValues/TimeValue.php:397-406 | the array holds all six fields, each with the value's own field |
| TimeValues.MissingKey | src/DataValues/TimeValue.php:419-423 | reports a missing field exactly when some field is absent, and names an absent one |
| TimeValues.NewFromArray | src/DataValues/TimeValue.php:419-430 | a missing field is reported exactly when the array lacks a field; a success is valid and built from the array's entries |
| TimeValues.ArrayRoundTrip | src/DataValues/TimeValue.php:397-430 | `newFromArray(getArrayValue(v))` reproduces every valid value |
| TimeValues.ArrayRoundTripFromData | src/DataValues/TimeValue.php:397-430 | an array with a canonical timestamp that builds a value is exactly that value's array form |
| MkTimeUtc.YearLength | src/DataValues/TimeValueCalculator.php:121 | a year has 366 days exactly when it is a Gregorian leap year, else 365 |
| MkTimeUtc.DaysBeforeMonthSteps | src/DataValues/TimeValueCalculator.php:121 | month offsets grow by each month's length and the twelve months fill the year |
| MkTimeUtc.MkTime | src/DataValues/TimeValueCalculator.php:121 | seconds since 1970 of a UTC date at or after 1970 are non-negative and at least the whole years before it |
| MkTimeUtc.MkTimeRollsOver | src/DataValues/TimeValueCalculator.php:121 | overflowing seconds, hours and days roll into the next minute, day and month as `mktime` normalises them |
| MkTimeUtc.MkTimeNewYear | src/DataValues/TimeValueCalculator.php:121 | the first second of a year follows the last second of the previous one |
| TimeValueCalculator.NumberOfLeapYearsCounts | src/DataValues/TimeValueCalculator.php:140-157 | the closed-form leap-year count equals the number of leap years counted one year at a time, with negative years shifted by one (no year zero) |
| TimeValueCalculator.LeapYearExamples | src/DataValues/TimeValueCalculator.php:140-157 | 1896 and 2000 are leap years, 1895, 1900 and 2100 are not, and the counts 1895→459, 1896→460, 2000→485, 2100→509, 9999→2424, 2147483647→520764784 |
| TimeValueCalculator.NegativeLeapYearExamples | src/DataValues/TimeValueCalculator.php:140-157 | -1, 0, -5 and 4 are leap years, -6 and -4 are not, and the counts -1→0, 0→0, -6→-2, -5→-1, -4→-1, 4→1 |
| TimeValueCalculator.SecondsForPrecision | src/DataValues/TimeValueCalculator.php:165-187 | defined exactly for precisions up to SECOND, and always at least one second |
| TimeValueCalculator.SecondsForPrecisionScale | src/DataValues/TimeValueCalculator.php:165-187 | the unit strictly grows as precision coarsens, by a factor 10 between year precisions, a month is a twelfth of 31556952 s and 400 such years are 146097 days |
| TimeValueCalculator.CharsAffectedByPrecision | src/DataValues/TimeValueCalculator.php:224-271 | between 1 and 25 characters are affected |
| TimeValueCalculator.CharsAffectedCut | src/DataValues/TimeValueCalculator.php:224-271 | the unaffected prefix ends exactly at the field the precision keeps, and coarser precisions affect strictly more characters |
| TimeValueCalculator.ReferenceYear | src/DataValues/TimeValueCalculator.php:119-132 | moving a date to the reference year 1970 or 1972 and adding the missing years and leap days gives the date's days since the epoch |
| TimeValueCalculator.SecondsSinceUnixEpoch | src/DataValues/TimeValueCalculator.php:105-133 | equals the proleptic Gregorian days before the year times 86400, plus the seconds into the year (month and day 00 count as 01), minus 60 per timezone minute |
| TimeValueCalculator.EpochAtUnixEpoch | src/DataValues/TimeValueCalculator.php:105-133 | +1970-01-01T00:00:00Z is second 0 |
| TimeValueCalculator.EpochLastSecondBce | src/DataValues/TimeValueCalculator.php:105-133 | the last second of year -1 is second -62135596801 |
| TimeValueCalculator.EpochFirstSecondCe | src/DataValues/TimeValueCalculator.php:105-133 | the first second of +0001 is second -62135596800, one after the last second of year -1: there is no year zero |
| TimeValueCalculator.EpochTimezone | src/DataValues/TimeValueCalculator.php:105-133 | +2000-01-01T12:59:59Z with a timezone of -120 minutes lies 7200 seconds after the same time in UTC |
| TimeValueCalculator.EpochMonthDayZero | src/DataValues/TimeValueCalculator.php:105-133 | +2038-00-00T00:00:00Z is the first second of 2038: month and day 00 count as 01 |
| TimeValueCalculator.EpochLeapSecond | src/DataValues/TimeValueCalculator.php:105-133 | second 61 counts as one second past the next minute |
| TimeValueCalculator.PadYear | src/DataValues/TimeValueCalculator.php:195-197 | the padded timestamp has 33 characters |
| TimeValueCalculator.AbsFloor | src/DataValues/TimeValueCalculator.php:194-202 | the floor has 33 characters |
| TimeValueCalculator.AbsCeiling | src/DataValues/TimeValueCalculator.php:209-218 | the ceiling has 33 characters |
| TimeValueCalculator.AbsFloorFields | src/DataValues/TimeValueCalculator.php:194-202 | the floor of a timestamp is its stamp padded to 16 year digits, with the characters the precision affects taken from the zero timestamp |
| TimeValueCalculator.AbsCeilingFields | src/DataValues/TimeValueCalculator.php:209-218 | the ceiling of a timestamp is its stamp padded to 16 year digits, with the characters the precision affects taken from the highest timestamp, so day 31 in every month |
| TimeValueCalculator.FloorNotLater | src/DataValues/TimeValueCalculator.php:194-202 | for a positive year or a precision of a year or finer, the floor is not later than the value |
| TimeValueCalculator.CeilingNotEarlier | src/DataValues/TimeValueCalculator.php:209-218 | under the same condition, and without a leap second below the precision, the ceiling is not earlier than the value |
| TimeValueCalculator.LowerStampNear | src/DataValues/TimeValueCalculator.php:61-73 | the stamp the lower bound starts from is not later than the value when the source's choice is a floor, and is the value itself at SECOND precision |
| TimeValueCalculator.HigherStampNear | src/DataValues/TimeValueCalculator.php:84-96 | the stamp the upper bound starts from is not earlier than the value when the source's choice is a ceiling, and is the value itself at SECOND precision |
| TimeValueCalculator.LowerBound | src/DataValues/TimeValueCalculator.php:61-73 | for a positive year or a precision of a year or finer, the lower bound plus before units is not later than the value; at SECOND precision it is the value minus before |
| TimeValueCalculator.HigherBound | src/DataValues/TimeValueCalculator.php:84-96 | under the same conditions the upper bound is at least the value plus after units; at SECOND precision it is the value plus after |
| TimeValueCalculator.LowerBoundIs | src/DataValues/TimeValueCalculator.php:61-73 | the lower bound is the rounded stamp's epoch seconds minus before times the unit |
| TimeValueCalculator.HigherBoundIs | src/DataValues/TimeValueCalculator.php:84-96 | the upper bound is the rounded stamp's epoch seconds plus after times the unit |
| TimeValueCalculator.BoundsOrdered | src/DataValues/TimeValueCalculator.php:53-96 | the lower bound never exceeds the upper bound, for every sign and precision |
| TimeValueCalculator.GetTimestamp | src/DataValues/TimeValueCalculator.php:48-50 | a value's epoch seconds lie inside its own year (shifted by the timezone) |
| TimeValueCalculator.GetLowerTimestamp | src/DataValues/TimeValueCalculator.php:61-73 | the lower bound of a value, as `LowerBound` states it |
| TimeValueCalculator.GetHigherTimestamp | src/DataValues/TimeValueCalculator.php:84-96 | the upper bound of a value, as `HigherBound` states it |
| TimeValueCalculator.LowerNotAboveHigher | src/DataValues/TimeValueCalculator.php:53-96 | for every valid value the lower timestamp does not exceed the higher one |
| TimeValueCalculator.LowerAboveValue | src/DataValues/TimeValueCalculator.php:61-73 | -0009-00-00T00:00:00Z at YEAR10 precision has a lower bound after the value itself |
| TimeValueCalculator.HigherBelowValue | src/DataValues/TimeValueCalculator.php:84-96 | -0010-06-15T00:00:00Z at YEAR10 precision has an upper bound before the value itself |
| TimeValueCalculator.CorrectedLowerBound | src/DataValues/TimeValueCalculator.php:61-73 | the corrected lower bound plus before units never exceeds the value, and equals the source's wherever that one is right |
| TimeValueCalculator.CorrectedHigherBound | src/DataValues/TimeValueCalculator.php:84-96 | the corrected upper bound is at least the value plus after units (no leap second below the precision), and equals the source's wherever that one is right |
| TimeValueCalculator.CorrectedBoundsOrdered | src/DataValues/TimeValueCalculator.php:53-96 | the corrected bounds are ordered |
| TimeValueCalculator.CorrectedTimestampsOrdered | src/DataValues/TimeValueCalculator.php:53-96 | the corrected lower and higher timestamps of every valid value are ordered |
| CalendarModels.UriFromKey | src/ValueParsers/CalendarModelParser.php:75-90 | after trim and lower-casing, '', 'gregorian', 'western' and 'christian' give Gregorian and only they; 'julian' gives Julian and only it; a success is a canonical URI |
| CalendarModels.ParseCalendarModel | src/ValueParsers/CalendarModelParser.php:53-67 | a key of the custom map wins by exact key; otherwise a canonical URI is kept and anything else goes through the key table |
| CalendarModels.ParseIdempotent | src/ValueParsers/CalendarModelParser.php:53-67 | without a custom map, parsing a result again gives the same result |
| CalendarModels.NameParsesToUri | src/ValueParsers/CalendarModelParser.php:75-90 | a calendar's name, in any case and surrounded by trimmed whitespace, parses to its URI |
| CalendarModels.UnknownKeyFails | src/ValueParsers/CalendarModelParser.php:75-90 | any other token fails: matching is whole-token |
| CalendarModels.ParseCalenderModel | src/ValueParsers/CalenderModelParser.php:23-35 | after lower-casing only '' and 'gregorian' give Gregorian and only 'julian' gives Julian; the rest fails |
| CalendarModels.CalenderAgreesWithCalendar | src/ValueParsers/CalenderModelParser.php:23-35 | wherever the legacy parser succeeds, the current parser gives the same URI |
| CalendarModels.CalenderRejectsBlanks | src/ValueParsers/CalenderModelParser.php:23-35 | the legacy parser does not trim: a name after whitespace fails there and succeeds in the current parser |
| CalendarModels.WesternOnlyInCalendar | src/ValueParsers/CalenderModelParser.php:23-35 | 'western' is Gregorian only in the current parser |
| Eras.EraFromSuffix | src/ValueParsers/EraParser.php:75-99 | a BC marker anywhere gives '-'; no marker gives nothing; otherwise the leftmost marker of the chosen kind cuts the input, right-trimmed |
| Eras.EraFromSign | src/ValueParsers/EraParser.php:56-67 | a leading '+' or '-' is returned with the rest of the string, which together rebuild the input |
| Eras.ParseEra | src/ValueParsers/EraParser.php:32-48 | the era is '+' or '-'; a sign together with a suffix fails; with neither the result is ('+', trimmed input) |
| Eras.DigitsAreCommonEra | src/ValueParsers/EraParser.php:32-48 | plain digits are of the common era |
| Eras.SignIsEra | src/ValueParsers/EraParser.php:56-67 | a signed number yields that sign and its digits |
| Eras.BcSuffixIsBeforeCommonEra | src/ValueParsers/EraParser.php:75-85 | digits followed by any BC-family marker yield ('-', digits) |
| Eras.CeSuffixIsCommonEra | src/ValueParsers/EraParser.php:86-96 | digits followed by any CE-family marker yield ('+', digits) |
| Eras.CeMarkerHasNoB | src/ValueParsers/EraParser.php:76-96 | no CE-family marker contains a 'b', so the BC pattern never fires inside one |
| Eras.SignAndSuffixRefused | src/ValueParsers/EraParser.php:38-44 | a sign and a suffix together fail, whether or not they agree |
| Eras.MarkerExamples | src/ValueParsers/EraParser.php:76-96 | BC, B.C. and BCE are BC markers; CE and AD are CE markers |
| IsoTimestamps.SplitTimeString | src/ValueParsers/IsoTimestampParser.php:104-150 | a non-match is "Malformed time"; a success is exactly a match that passes the ambiguity guard and the field bounds, with U+2212 and an empty sign normalised |
| IsoTimestamps.CheckError | src/ValueParsers/IsoTimestampParser.php:119-145 | no error exactly when the guard and every bound pass |
| IsoTimestamps.AmbiguousRefused | src/ValueParsers/IsoTimestampParser.php:119-125 | an unsigned year of under three digits and value under 32 without an hour is refused with the source's message |
| IsoTimestamps.UnsignedAccepted | src/ValueParsers/IsoTimestampParser.php:119-147 | an unambiguous in-bounds unsigned match is accepted unchanged |
| IsoTimestamps.PrecisionFromYear | src/ValueParsers/IsoTimestampParser.php:200-213 | a year precision between 1G and YEAR, and YEAR for every year up to 4000 |
| IsoTimestamps.YearPrecisionUnit | src/ValueParsers/IsoTimestampParser.php:200-213 | above 4000, a year m·10^k, m not a multiple of ten, has precision YEAR − k, clamped at 1G |
| IsoTimestamps.YearPrecisionExamples | src/ValueParsers/IsoTimestampParser.php:200-213 | 4000 has YEAR precision and 8000 has YEAR1K |
| IsoTimestamps.DetectedPrecision | src/ValueParsers/IsoTimestampParser.php:158-174 | the detected precision lies between 1G and SECOND |
| IsoTimestamps.ApplyPrecision | src/ValueParsers/IsoTimestampParser.php:176-190 | the option is taken when it is not finer than the detected precision, or when the detected precision is DAY or finer; the result never refines a coarser detection |
| IsoTimestamps.GetPrecision | src/ValueParsers/IsoTimestampParser.php:158-193 | no option gives the detected precision; a non-digit text option fails; any other result is the option's value and never refines a detection coarser than DAY |
| IsoTimestamps.GetCalendarModel | src/ValueParsers/IsoTimestampParser.php:230-248 | a suffix beats the option, which beats the default; the default is Julian exactly for a '-' sign or a year up to 1582 |
| IsoTimestamps.SuffixNamesCalendar | src/ValueParsers/IsoTimestampParser.php:230-236 | a Gregorian or Julian suffix names its calendar |
| IsoTimestamps.NelAfterZ | src/ValueParsers/IsoTimestampParser.php:105-111 | a NEL after the `Z` is matched by the final `\s*`, leaving no calendar name |
| IsoTimestamps.Build | src/ValueParsers/IsoTimestampParser.php:86-94 | the value is built exactly for a valid precision and a non-empty calendar, with zero timezone and bounds and the matched stamp, year re-padded |
| IsoTimestamps.ParseIso | src/ValueParsers/IsoTimestampParser.php:78-95 | split errors propagate; a success is valid, carries the chosen precision and calendar and the matched stamp |
| IsoTimestamps.ParseFormatted | src/ValueParsers/IsoTimestampParser.php:78-95 | the parser accepts every canonical in-range timestamp that has a day wherever it has a time, and returns it unchanged |
| IsoTimestamps.ParseOwnTimestamp | src/ValueParsers/IsoTimestampParser.php:78-95 | parsing a valid value's own timestamp returns that timestamp |
| IsoTimestamps.TimeWithoutDayRefused | src/ValueParsers/IsoTimestampParser.php:141-145 | a time of day without a day is refused with the source's message |
| IsoTimestamps.IsoDate | src/ValueParsers/IsoTimestampParser.php:78-95 | a signed date with day 00 parses to that date, at MONTH precision when the month is set and year precision otherwise, Julian for '-' or years up to 1582 |
| YearMonthDay.ThreeNumbers | src/ValueParsers/YearMonthDayTimeParser.php:65-67 | three numbers are found exactly when the runs exist; the first and third may carry '-', the middle is plain digits |
| YearMonthDay.JoinedNumbers | src/ValueParsers/YearMonthDayTimeParser.php:65-67 | three digit groups separated by single non-digits are found as themselves |
| YearMonthDay.TwoNumbersFail | src/ValueParsers/YearMonthDayTimeParser.php:65-67 | two digit groups are not enough |
| YearMonthDay.Classify | src/ValueParsers/YearMonthDayTimeParser.php:69-88 | YMD only when abs(a) > 31 and b ≤ 12; DMY and MDY only when abs(c) > 31; each error with its own condition and message |
| YearMonthDay.ClassifiedIsOnlyReading | src/ValueParsers/YearMonthDayTimeParser.php:69-88 | the chosen order is the only plausible one |
| YearMonthDay.OnlyReadingIsClassified | src/ValueParsers/YearMonthDayTimeParser.php:69-88 | when exactly one order is plausible, it is chosen |
| YearMonthDay.TwoReadingsRefused | src/ValueParsers/YearMonthDayTimeParser.php:82-84 | when both DMY and MDY are plausible the input is refused |
| YearMonthDay.ParseYearMonthDay | src/ValueParsers/YearMonthDayTimeParser.php:64-91 | the numbers found, arranged by the classified order; no numbers and classification errors carry the source's messages |
| YearMonthDay.SignYear | src/ValueParsers/YearMonthDayTimeParser.php:47-51 | the era sign is prepended unless the year is negative; a negative year with a '-' era fails with "Two eras found" |
| YearMonthDay.CalendarFor | src/ValueParsers/YearMonthDayTimeParser.php:129-134 | Julian exactly for a signed year up to 1582, else Gregorian |
| YearMonthDay.NewValue | src/ValueParsers/YearMonthDayTimeParser.php:101-120 | month out of [1,12] and day out of [1,31] fail with their messages; a success has DAY precision and the year's calendar; construction errors are kept |
| YearMonthDay.UnpaddedRefused | src/ValueParsers/YearMonthDayTimeParser.php:101-120 | month and day are joined without padding, so when they have fewer than four digits together the timestamp is refused; with both in range the error is the constructor's |
| YearMonthDay.ParseYmd | src/ValueParsers/YearMonthDayTimeParser.php:42-57 | era and three-number errors propagate; a success is valid at DAY precision with zero timezone and bounds |
| YearMonthDay.YearMonthDayRoundTrip | src/ValueParsers/YearMonthDayTimeParser.php:42-120 | a year, month and day written YMD, with any era prefix and separators, parse back to that day |
| YearMonthDay.DayMonthYearRoundTrip | src/ValueParsers/YearMonthDayTimeParser.php:42-120 | the same written DMY with a day above 12 |
| YearMonthDay.MonthDayYearRoundTrip | src/ValueParsers/YearMonthDayTimeParser.php:42-120 | the same written MDY with a day above 12 |
| YearMonthDay.NoYearRefused | src/ValueParsers/YearMonthDayTimeParser.php:85-88 | without a number above 31 at either end the input is refused |
| YearMonthDay.DayOrMonthRefused | src/ValueParsers/YearMonthDayTimeParser.php:82-84 | two leading numbers of at most 12 are refused as ambiguous |
| YearMonthDay.YearDayMonthRefused | src/ValueParsers/YearMonthDayTimeParser.php:69-73 | a year followed by a number above 12 is refused as YDM |
| YearMonth.GapIff | src/ValueParsers/YearMonthTimeParser.php:63 | a gap is exactly spaces, one separator character, spaces |
| YearMonth.SplitIff | src/ValueParsers/YearMonthTimeParser.php:63-66 | the split succeeds with two tokens exactly when the input is those two tokens around a gap, with the lazy first `\s*?` |
| YearMonth.ParseMonth | src/ValueParsers/YearMonthTimeParser.php:100-108 | the number of the first name equal to the token ignoring case, and none when no name matches |
| YearMonth.Reading | src/ValueParsers/YearMonthTimeParser.php:69-90 | two integers: the first is the month if it can be one, else the second, else none; two names: none; the year returned is always one of the tokens |
| YearMonth.ParseYearMonth | src/ValueParsers/YearMonthTimeParser.php:60-93 | a failed split fails; a success is the ISO parse of the assembled `year-MM-00T00:00:00Z` |
| YearMonth.MonthThenYear | src/ValueParsers/YearMonthTimeParser.php:60-121 | month then year across any gap parses to that month |
| YearMonth.YearThenMonth | src/ValueParsers/YearMonthTimeParser.php:60-121 | a year above 12 then a month parses to that month |
| YearMonth.NoBreakSpaceSeparates | src/ValueParsers/YearMonthTimeParser.php:63 | a no-break space separates month and year (`\s` under the `u` modifier) |
| YearMonth.NelSeparates | src/ValueParsers/YearMonthTimeParser.php:63 | a NEL (U+0085) between a month and a year separates them, since `\s` under the `u` modifier matches it |
| YearMonth.NoMonthRefused | src/ValueParsers/YearMonthTimeParser.php:72-92 | two integers of which neither can be a month fail |
| YearMonth.YearAndMonthName | src/ValueParsers/YearMonthTimeParser.php:78-121 | a year and a known month name, in either order, parse to that month |
| YearMonth.CyrillicNameExample | src/ValueParsers/YearMonthTimeParser.php:62-63 | a Cyrillic month name is a `\p{L}` token and parses |
| YearMonth.UnknownNameRefused | src/ValueParsers/YearMonthTimeParser.php:78-92 | an unknown name, or one mapped to 0, fails |
| YearMonth.MonthZeroIsYear | src/ValueParsers/YearMonthTimeParser.php:121 | month 0 gives the year at year precision |
| YearMonth.LongMonthRefused | src/ValueParsers/YearMonthTimeParser.php:121 | a month of three or more digits is not truncated and the timestamp is malformed |
| YearOnly.YearDigits | src/ValueParsers/YearTimeParser.php:74-83 | group separators are removed only for the '-' era, never lengthening the year |
| YearOnly.ParseYear | src/ValueParsers/YearTimeParser.php:70-90 | era errors propagate; the remainder must be all digits after separator removal, and the result is the ISO parse of `sign digits-00-00T00:00:00Z` |
| YearOnly.CommonEraYear | src/ValueParsers/YearTimeParser.php:70-90 | a canonical year parses to that year, at its year precision and calendar |
| YearOnly.BeforeCommonEraYear | src/ValueParsers/YearTimeParser.php:70-90 | '-' and a canonical year parse to that year in the Julian calendar |
| YearOnly.StripGroups | src/ValueParsers/YearTimeParser.php:78-82 | separator removal never lengthens the year |
| YearOnly.GroupSeparatorIgnored | src/ValueParsers/YearTimeParser.php:75-83 | for the '-' era a separator between digits (the option's ASCII characters, `\s`, '_') is ignored |
| YearOnly.CommonEraGroupsRefused | src/ValueParsers/YearTimeParser.php:85-87 | a positive year with any separator is refused |
| YearOnly.OtherSeparatorRefused | src/ValueParsers/YearTimeParser.php:85-87 | a negative year with any other non-digit is refused |
| YearOnly.MultibyteSeparatorRefused | src/ValueParsers/YearTimeParser.php:78-82 | a separator character outside ASCII is never removed (the pattern works on bytes), so such a year is refused |
| YearOnly.DefaultSeparatorExample | src/ValueParsers/YearTimeParser.php:53-56 | with the default ',' separator "-19.000" is refused |
| YearOnly.PeriodSeparatorExample | src/ValueParsers/YearTimeParser.php:53-56 | with '.' configured "-19.000" parses as "-19000" |
| MonthNames.KeyOf | src/ValueParsers/MonthNameUnlocalizer.php:25-26 | a key keeps its text and is an integer key exactly when PHP turns it into one: a canonical decimal within 64 bits |
| MonthNames.OverflowKeyExample | src/ValueParsers/MonthNameUnlocalizer.php:25-26 | PHP_INT_MAX is an integer key, one more is a string key, PHP_INT_MIN is an integer key |
| MonthNames.SortByLength | src/ValueParsers/MonthNameUnlocalizer.php:29-31 | the sorted replacements are a permutation of the given ones |
| MonthNames.NewUnlocalizer | src/ValueParsers/MonthNameUnlocalizer.php:24-32 | the constructor keeps exactly the given replacements, as a multiset and per key length, ordered by decreasing byte length |
| MonthNames.SortedByLength | src/ValueParsers/MonthNameUnlocalizer.php:29-31 | keys come longest first, by byte length |
| MonthNames.SortStable | src/ValueParsers/MonthNameUnlocalizer.php:29-31 | keys of equal byte length keep their given order |
| MonthNames.Count | src/ValueParsers/MonthNameUnlocalizer.php:50 | no occurrence is counted exactly when the search is empty or absent |
| MonthNames.Scan | src/ValueParsers/MonthNameUnlocalizer.php:44-72 | the date changes exactly when some entry is replaced, and then its leftmost occurrence is what changes |
| MonthNames.Unlocalize | src/ValueParsers/MonthNameUnlocalizer.php:44-72 | the same promise over the sorted replacements |
| MonthNames.LongestKeyWins | src/ValueParsers/MonthNameUnlocalizer.php:29-72 | the replacing entry is one of the given ones and no hitting key is longer in bytes |
| MonthNames.SingleReplacement | src/ValueParsers/MonthNameUnlocalizer.php:50-68 | one key is replaced exactly when it occurs once and its replacement is not already there without shortening |
| MonthNames.TwiceExample | src/ValueParsers/MonthNameUnlocalizer.php:58-60 | a key found twice leaves the date alone |
| MonthNames.AlreadyUnlocalizedExample | src/ValueParsers/MonthNameUnlocalizer.php:64-66 | "July" is not made "Julyy", while shortening still happens |
| MonthNames.InsideWordExample | src/ValueParsers/MonthNameUnlocalizer.php:50 | a key is replaced inside a word |
| MonthNames.ByteOrderExample | src/ValueParsers/MonthNameUnlocalizer.php:29-31 | "Mär" sorts before "Mai" (four bytes against three) and is the one replaced |
| MonthNames.IntegerKeyExample | src/ValueParsers/MonthNameUnlocalizer.php:46-48 | an integer key is skipped |
| MonthNames.PunctuatedNumberExample | src/ValueParsers/MonthNameUnlocalizer.php:44-72 | "5." as a key replaces the first "5." of "5. 4. 1891" |
| MonthNames.Lookup | src/ValueParsers/MonolingualMonthNameProvider.php:41-43 | a name is found exactly when some entry has it, with that entry's number |
| MonthNames.Put | src/ValueParsers/MonolingualMonthNameProvider.php:41-43 | a stored name maps to the new number, every other name is unchanged, and a new name is appended |
| MonthNames.Flip | src/ValueParsers/MonolingualMonthNameProvider.php:41-43 | the flipped table has distinct names |
| MonthNames.FlipLookup | src/ValueParsers/MonolingualMonthNameProvider.php:41-43 | each name maps to the number of its last occurrence, as `array_flip` keeps the last |
| MonthNames.FlipSwaps | src/ValueParsers/MonolingualMonthNameProvider.php:41-43 | with distinct names the flip swaps every pair in place |
| MonthNames.LocalizedMonthNames | src/ValueParsers/MonolingualMonthNameProvider.php:32-34 | the names given at construction, whatever the language code |
| MonthNames.MonthNumbers | src/ValueParsers/MonolingualMonthNameProvider.php:41-43 | distinct names, each mapped to the number of its last occurrence |
| MonthNames.NamesRoundTrip | src/ValueParsers/MonolingualMonthNameProvider.php:32-43 | with distinct names, looking up a localized name gives back its month number |
| LegacyTimeParser.SplitTime | src/ValueParsers/TimeParser.php:139-164 | succeeds exactly on a match, and otherwise fails with "Malformed time: " and the input |
| LegacyTimeParser.MatchTime | src/ValueParsers/TimeParser.php:144-152 | a match captures an optional sign, a year of 1-16 digits, two-digit month, day, hour, minute and second, and a calendar word or nothing |
| LegacyTimeParser.MatchFormat | src/ValueParsers/TimeParser.php:144-152 | every formatted stamp matches the pattern, captured as its own fields with no calendar name |
| LegacyTimeParser.MatchNamed | src/ValueParsers/TimeParser.php:144-152 | a formatted stamp followed by a calendar name in parentheses matches, the name captured as the calendar |
| LegacyTimeParser.PadYear | src/ValueParsers/TimeParser.php:88-90 | the year becomes exactly 16 digits with the same value, ending in the given digits |
| LegacyTimeParser.YearPrecision | src/ValueParsers/TimeParser.php:121-128 | between 1G and YEAR, and YEAR when the year has no trailing zero; the exact value for every non-zero year is stated by YearPrecisionValue |
| LegacyTimeParser.YearPrecisionValue | src/ValueParsers/TimeParser.php:121-128 | a non-zero year m·10^k, m not a multiple of ten, has precision YEAR − k, clamped at 1G, with no threshold on the year's size |
| LegacyTimeParser.PaddedYearPrecision | src/ValueParsers/TimeParser.php:121-128 | padding keeps the precision of a non-zero year; an all-zero year is at 1G |
| LegacyTimeParser.ThousandExample | src/ValueParsers/TimeParser.php:121-128 | year 2000 gives YEAR1K here but YEAR in the ISO parser: no 4000 threshold |
| LegacyTimeParser.ClampedExample | src/ValueParsers/TimeParser.php:121-128 | many trailing zeros clamp at 1G |
| LegacyTimeParser.AgreesWithIsoAbove4000 | src/ValueParsers/TimeParser.php:121-128 | above 4000 the legacy and ISO year precisions agree |
| LegacyTimeParser.PrecisionFromParts | src/ValueParsers/TimeParser.php:98-115 | the finest field not '00' decides, all finer ones are '00', and with no such field the year decides |
| LegacyTimeParser.ChoosePrecision | src/ValueParsers/TimeParser.php:67-73 | the option replaces the detection exactly when it is an integer below it |
| LegacyTimeParser.ChooseCalendar | src/ValueParsers/TimeParser.php:56-65 | a suffix is parsed; without one an option naming a canonical URI is kept, else Gregorian |
| LegacyTimeParser.OptionMentioningUri | src/ValueParsers/TimeParser.php:57-60 | any option that contains a canonical URI, in either case, is kept whole |
| LegacyTimeParser.ShortOptionIgnored | src/ValueParsers/TimeParser.php:57-64 | an option shorter than a URI gives Gregorian |
| LegacyTimeParser.Assemble | src/ValueParsers/TimeParser.php:52-81 | calendar errors propagate and construction errors become parse errors; success exactly on a signed in-range stamp, a valid precision and a non-empty calendar |
| LegacyTimeParser.Build | src/ValueParsers/TimeParser.php:75-80 | the constructor succeeds exactly for a signed in-range stamp with a valid precision and non-empty calendar, keeps the fields with zero timezone and bounds, and every failure is wrapped as a parse error |
| LegacyTimeParser.Parse | src/ValueParsers/TimeParser.php:52-81 | a non-match fails with "Malformed time: "; a success is valid and came from a signed match |
| LegacyTimeParser.ParseFormatted | src/ValueParsers/TimeParser.php:52-81 | a formatted stamp without a suffix parses back to itself, with the chosen precision and calendar |
| LegacyTimeParser.ParseNamed | src/ValueParsers/TimeParser.php:52-81 | with a calendar suffix the suffix's parse decides the calendar and its errors |
| LegacyTimeParser.ParseOwnTimestamp | src/ValueParsers/TimeParser.php:52-81 | parsing a valid value's own timestamp returns that timestamp |
| LegacyTimeParser.JulianExample | src/ValueParsers/TimeParser.php:52-81 | "+0000000000000001-01-14T00:00:00Z (Julian)" parses to +0001-01-14 at DAY precision in the Julian calendar |
| Text.ByteLengthBound | src/ValueParsers/MonthNameUnlocalizer.php:30 | a string has at least as many bytes as characters, exactly as many when it is ASCII |
| Text.TrimKept | src/ValueParsers/EraParser.php:33 | trimming leaves a string without outer trim characters alone |

## Left out

- I/O, exceptions as control flow and the `StringValueParser` wrapper: a parser's `parse` is taken to hand strings to `stringParse`; its non-string path is not modelled, because the wrapper is not part of this model.
- `ParseException` carries the input and format name besides the message; only the message is kept.
- TimeValueCalculator: PHP computes the epoch seconds and bounds in floating point; the model uses exact integers, so it does not model the loss of precision above 2^53 seconds.
- MkTimeUtc.MkTime: PHP `mktime` is modelled only for the reference years 1970 and 1972 the calculator passes it, in UTC, as linear arithmetic.
- TimeValueCalculator.HigherBound: the ceiling caps seconds at 59, so a value with second 60 or 61 below the precision can lie after its upper bound; the contract assumes no leap second there (`NoLeapSecond`).
- TimeValues.GetArrayValue: array keys are a six-value enumeration, not PHP strings; extra keys of a PHP array are not modelled.
- Text.IsLetter: `\p{L}` is approximated by the letters of Latin (with the Latin supplements and IPA), Greek and Cyrillic; letters of other scripts (CJK, Arabic, Hebrew and others) are refused where PCRE accepts them.
- Text.IsDigit: `\d` under the `u` modifier also matches non-ASCII decimal digits (`\p{Nd}`); only ASCII digits are modelled.
- Text.LowerChar: case-insensitive matching under `/iu` also folds non-ASCII letters (for example the Kelvin sign); only ASCII letters are folded.
- MonthNames.IsIntegerText: "-9223372036854775808" is taken to become an integer key, as it does on 64-bit PHP 7 and later.
- Injected sub-parsers (the era parser of the year and year-month-day parsers, the ISO parser of the year and year-month parsers) are fixed to their defaults; the legacy parser's calendar parser is a parameter.
- MonthNames.PunctuatedNumberExample: follows the source, which replaces the first "5." of "5. 4. 1891"; tests/ValueParsers/MonthNameUnlocalizerTest.php:83-85 expects the date to stay unchanged.
- MonthNames.SortStable: assumes PHP 8 or later, where `uksort` is stable; PHP 7 may reorder keys of equal length in tables of more than 16 entries.
- Tests that expect YDM readings, a threshold of 60 in the ISO ambiguity guard, or 16-digit timestamps describe another version of the code; the model follows the source.
- YearMonthDay.UnpaddedRefused: tests/ValueParsers/YearMonthDayTimeParserTest.php:51,72,76,94,95 expect "2015 1 13", "01 1 2015", "2015 01 1", "year -3-2-13" and "13. 2. -3" to parse, but src/ValueParsers/YearMonthDayTimeParser.php:108-109 joins month and day without padding, so the TimeValue grammar refuses them; the model follows the source.
- YearMonthDay.ParseYmd: the re-thrown exception carries the input and format name in the source; the model keeps only the message.
- `SinceEpochCalculator`, the formatters and the `src/Parsers` dispatching parsers are not part of this model.

## Findings

| source | as written | input that shows it | evidently intended | confidence | as-written member | corrected member |
|---|---|---|---|---|---|---|
| src/DataValues/TimeValueCalculator.php:61-96 | for a negative year at a precision coarser than YEAR, the lower bound starts from the abs-ceiling and the upper from the abs-floor, which also move month, day and time to Dec 31 23:59:59 and Jan 1 00:00:00 | -0009-00-00T00:00:00Z at YEAR10 (lower bound after the value); -0010-06-15T00:00:00Z at YEAR10 (upper bound before the value) | lower bound ≤ value ≤ upper bound | not executed | TimeValueCalculator.LowerAboveValue, TimeValueCalculator.HigherBelowValue | TimeValueCalculator.CorrectedLowerBound, TimeValueCalculator.CorrectedHigherBound, TimeValueCalculator.CorrectedBoundsOrdered, TimeValueCalculator.CorrectedTimestampsOrdered |
