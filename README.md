# Date, time and form-validation helpers of a Nuxt/Vuetify template, in Dafny

This project models the helper plugin of a Nuxt 3 / Vuetify / Pinia starter
application and the validation rules of its sign-in form:

- `plugins/helper.ts`:
  - military times ("1430") and their 12-hour text;
  - `filterSpecialChars`;
  - `validateObject`;
  - day offsets counted from 2000-01-01 in the host's local time (`getDateFromDays`, `getIsoDateFromDays`, `differenceInDays`, `dateStringToDayAndTime`, `getDateFromUtcDaysWithTime`);
  - the zone conversions (`convertDayAndTimeToTargetTimeZone`, `utcTimeToTimezone`, `convertToDateTimeUTC`, `localTimeToNumber`);
  - `isValidDate` and the two display formatters.
- `plugins/user/credentials.ts`: the e-mail, password and code rule lists of the form.

The JavaScript machinery the helpers lean on is modelled as far as they use it:

- **Time values and `Date`.** ECMAScript time values, and the `Date` object as a class whose `setDate`/`setHours` update it in place (`TimeValues`).
- **Calendar.** The proleptic Gregorian calendar, with both directions of the day-number conversion proved inverse (`Calendar`).
- **Date strings:**
  - `toISOString` and the parse of the date-time string format, proved to round-trip;
  - the en-US `toLocaleDateString` shapes;
  - moment's `YYYY-MM-DDTHH:mm` (`DateStrings`).
- **Numbers and text.** `Number`, `parseInt`, `String(n)`, `padStart` (`JsNumbers`) and `split`, `join`, `trim` and the regular-expression character classes (`JsText`).

The host time zone and every moment target zone are fixed offsets in minutes.

The source's two stateful operations are imperative methods, proved against specification functions:

- `getDateFromDays`, `getIsoDateFromDays` and `getDateFromUtcDaysWithTime` build a `Date` and mutate it;
- `validateObject` loops over the keys with an early `break`.

Everything else is functions and lemmas. The two password and e-mail regular expressions are modelled twice:

- once as the language they denote, a grammar stated with existentials;
- once as a scanning test;

and a lemma shows that the two agree.

Parses the code leaves to the host are parameters that arrive already parsed:

- `new Date(str)` on strings that are not of the date-time string format;
- `moment(str, 'hh:mm A')`.

The formats the helpers produce and read back themselves are modelled character by character:

- the `toISOString` text and its 16-character prefix;
- "M/D/Y";
- "H:MM AM".

## Model

| member | source | states |
|---|---|---|
| HelperText.MilitaryToRegularTime | plugins/helper.ts:162-174 | a NaN input gives "12:NaN AM" (floor and remainder of NaN are NaN; NaN >= 12 is false) |
| HelperText.JsRem | plugins/helper.ts:164 | JavaScript `%` truncates toward zero: it agrees with the mathematical remainder on non-negative operands; on a negative one it is at most 0 and differs from the dividend by a multiple of the divisor; it stays strictly inside (-divisor, divisor) |
| HelperText.MilitaryToRegularTimeShape | plugins/helper.ts:162-174 | for hour < 24 and minute < 60 the text is the unpadded 12-hour hour, ":", the two-digit minute, " ", and the period; it ends in "PM" exactly when the hour is 12 or more |
| HelperText.MilitaryToRegularTimeExamples | plugins/helper.ts:162-174 | 0 gives "12:00 AM", 1230 gives "12:30 PM", 1400 gives "2:00 PM" |
| HelperText.MilitaryToRegularTimeDocumented | plugins/helper.ts:158-160 | the documented example: 1430 gives "2:30 PM" |
| HelperText.ReplaceSpecials | plugins/helper.ts:78 | the first replace keeps the length and maps each character on its own: `_` and everything outside `\w` and `\s` become `_` |
| HelperText.CollapseSpaces | plugins/helper.ts:79 | collapsing runs of white space never lengthens the string |
| HelperText.FilterSpecialChars | plugins/helper.ts:76-81 | the output is never longer than the input |
| HelperText.FilterOutput | plugins/helper.ts:76-81 | the output holds only lower-case ASCII letters, digits and `_`, and no white space |
| HelperText.FilterSpaceRun | plugins/helper.ts:79 | a run of white space followed by a non-space becomes one `_` |
| HelperText.FilterWithoutSpace | plugins/helper.ts:76-81 | on a string without white space, position i of the output is the replaced, lower-cased character i of the input |
| HelperText.FilterAppend | plugins/helper.ts:76-81 | a prefix without white space is filtered independently of what follows it |
| HelperText.FilterTwoWords | plugins/helper.ts:76-81 | one space between two words becomes one `_` between their filtered forms |
| HelperText.FilterFixesSanitised | plugins/helper.ts:76-81 | a string of lower-case letters, digits and `_` is left unchanged |
| HelperText.FilterIdempotent | plugins/helper.ts:76-81 | filtering twice is filtering once |
| HelperText.FilterExample | plugins/helper.ts:76-81 | "Hello, World!" becomes "hello__world_" |
| HelperText.CheckKey | plugins/helper.ts:391-415 | a key passes iff it is present and its value is not a blank string, not NaN and not an empty array; it fails as missing iff it is absent |
| HelperText.FirstFailureNoneIff | plugins/helper.ts:388-419 | there is no failure iff every required key passes, so an empty key list passes |
| HelperText.FirstFailureIsFirst | plugins/helper.ts:390-417 | a reported failure is that of the first failing key, with every key before it passing |
| HelperText.FirstFailureAfter | plugins/helper.ts:390-417 | skipping a prefix of passing keys does not change the first failure |
| HelperText.ValidateObject | plugins/helper.ts:381-420 | the loop returns true iff every required key passes, stops at the first failing key and reports it |
| HelperDays.StartOf2000 | plugins/helper.ts:89 | `new Date(2000, 0, 1)` is host-local midnight of 2000-01-01 |
| HelperDays.StartOf2000Date | plugins/helper.ts:104 | the start date's local calendar date is 2000-01-01 |
| HelperDays.DayOffsetValue | plugins/helper.ts:104-105 | a day offset that gives a date has a number of days and a time value inside the ECMAScript range |
| HelperDays.SetDateFromStart | plugins/helper.ts:104-105 | `setDate(getDate() + days)` on the start date is local midnight of day `days` after 2000-01-01, NaN for NaN |
| HelperDays.DayOffsetInRange | plugins/helper.ts:145-151 | the offset gives a valid date iff it lies in the range the time-value limit allows (about ±10^8 days, one day less on the side the host offset pushes out) |
| HelperDays.DayOffsetLocalDate | plugins/helper.ts:103-107 | the local date of offset d is the civil date of day 2000-01-01 + d, at local midnight |
| HelperDays.GetDateFromDays | plugins/helper.ts:103-107 | the method returns the en-US "M/D/Y" of the offset date ("Invalid Date" when there is none) |
| HelperDays.DayOffsetZero | plugins/helper.ts:97-107 | day 0 is "1/1/2000" |
| HelperDays.DayOffsetNext | plugins/helper.ts:103-107 | offset d + 1 is the calendar day after offset d: month and year roll over, leap days included |
| HelperDays.GetIsoDateFromDays | plugins/helper.ts:139-155 | null iff the input is NaN or outside the valid range; otherwise the `toISOString` text of the offset date |
| HelperDays.DaysSince2000 | plugins/helper.ts:88-95 | `Math.floor` of the day difference: NaN exactly for NaN; otherwise the number of the instant's host-local day counted from 2000-01-01 |
| HelperDays.DaysSince2000BeforeStart | plugins/helper.ts:88-95 | instants before host-local 2000-01-01 give negative numbers |
| HelperDays.DifferenceInDays | plugins/helper.ts:88-95 | None for every string other than the two shapes 'YYYY-MM-DDTHH:mm' (local time) and 'YYYY-MM-DDTHH:mm:ss.sssZ' (UTC), the shapes the helpers pass it; otherwise the host-local day count from 2000-01-01 of the parsed instant |
| HelperDays.DifferenceInDaysOfIsoDate | plugins/helper.ts:88-95 | round trip: `differenceInDays` of the `getIsoDateFromDays` text of offset d is d |
| HelperDays.DateStringToDayAndTime | plugins/helper.ts:303-318 | "" and 'Invalid date' give {day: 0, time: 0}; otherwise it throws iff the date is invalid |
| HelperDays.MinutePrefixDay | plugins/helper.ts:313-314 | `differenceInDays` of the 16-character ISO prefix is the instant's UTC day minus the day of 2000-01-01 |
| HelperDays.MinutePrefixTime | plugins/helper.ts:315 | splitting the prefix at "T" and ":" and joining gives the number 100 × UTC hour + UTC minute |
| HelperDays.DayAndTimeOfInstant | plugins/helper.ts:303-318 | a valid date gives its UTC day since 2000-01-01 and its UTC time "HHmm" as a number between 0 and 2359 whose last two digits are below 60 |
| HelperDays.IsValidDate | plugins/helper.ts:325-330 | false for null; otherwise true iff the date's time value is a number |
| HelperDays.DateTimeFormatter | plugins/helper.ts:13-33 | "-" iff the input is empty or the date is invalid; the text's read-back is HelperClock.DateTimeFormatterFields |
| HelperDays.DateFormatter | plugins/helper.ts:42-45 | "-" iff the input is empty; otherwise `toLocaleDateString()`, "Invalid Date" included |
| HelperDays.NotDashLocale | plugins/helper.ts:43 | `toLocaleDateString()` never yields "-", so the two outcomes of `dateFormatter` cannot be confused |
| HelperClock.MomentTzFormat | plugins/helper.ts:289-292 | moment's format of an invalid date is "Invalid date" (the wall clock of a valid instant is `MomentFormatOfWall`) |
| HelperClock.LocaleDateStringParts | plugins/helper.ts:270-273 | splitting the "M/D/Y" text on "/" and applying `Number` gives back the month, the day and the year |
| HelperClock.DateTimeOfParts | plugins/helper.ts:273-292 | a NaN military time, or a date text with fewer than three "/"-separated parts, gives "Invalid date" |
| HelperClock.ConvertDayAndTimeToTargetTimeZone | plugins/helper.ts:260-295 | null iff the day is null or 0 |
| HelperClock.ConvertDayAndTimeInstant | plugins/helper.ts:270-294 | for any other day and a valid military time, the result is the target zone's "YYYY-MM-DDTHH:mm" of the host-local instant at that time on day 2000-01-01 + d |
| HelperClock.ConvertDayAndTimeSameZone | plugins/helper.ts:260-295 | when the target zone is the host zone, the result is the civil date of the day offset with the military hour and minute |
| HelperClock.UtcTimeToTimezone | plugins/helper.ts:224-251 | null iff the input is ''; an unreadable input gives "Invalid date" |
| HelperClock.UtcTimeToTimezoneFields | plugins/helper.ts:233-250 | the result is the target wall clock's date, moved to the next day when its hour is 17, with its hour and minute |
| HelperClock.UtcTimeToTimezoneShifted | plugins/helper.ts:238-245 | an instant at 17:mm in the target zone is written as 17:mm of the following calendar day |
| HelperClock.MomentFormatOfWall | plugins/helper.ts:248 | `format('YYYY-MM-DDTHH:mm')` of a wall clock shows its calendar date, hour and minute |
| HelperClock.MomentFormatNextDay | plugins/helper.ts:244 | adding one day to a moment moves its date to the next calendar day and keeps its hour and minute |
| HelperClock.EffectiveTimeOfDay | plugins/helper.ts:486-488 | null and blank text become '00:00 AM'; any other time of day is used as given |
| HelperClock.DefaultTimeOfDay | plugins/helper.ts:484-501 | a missing time of day becomes '00:00 AM', which reads as hour 0, minute 0 |
| HelperClock.AdjustedHour | plugins/helper.ts:496-501 | NaN stays NaN and nothing else becomes NaN; a meridiem other than "AM" and "PM", or an hour above 12, leaves the hour unchanged |
| HelperClock.Hour24 | plugins/helper.ts:497-501 | the 24-hour reading of hour 1–12 with "AM" or "PM": below 24, equal to the hour modulo 12, and 12 or more exactly for PM |
| HelperClock.AdjustedHourIsHour24 | plugins/helper.ts:496-501 | on hours 1–12 with "AM" or "PM" the adjustment gives exactly the 24-hour reading |
| HelperClock.AdjustedHourOfTwelveHourClock | plugins/helper.ts:496-501 | the meridiem adjustment inverts the 12-hour clock: 12 AM is 0, 1–11 PM gain 12, 12 PM stays 12 |
| HelperClock.TwelveHourClock | plugins/helper.ts:493-503 | a time without ":" or white space gives `parseInt` of the whole text as the hour and NaN as the minute |
| HelperClock.TwelveHourClockOf | plugins/helper.ts:493-503 | "hh:mm P" with a digit hour, a two-digit minute and a period without separators reads back as the adjusted hour and the minute |
| HelperClock.TwelveHourClockOfMilitary | plugins/helper.ts:493-503 | splitting `militaryToRegularTime(t)` on ":" and white space and adjusting gives back t's hour and minute |
| HelperClock.GetDateFromUtcDaysWithTime | plugins/helper.ts:482-513 | the method returns the "MM/DD/YYYY" of the offset date after `setHours` with the adjusted hour and minute |
| HelperClock.SetHoursKeepsDate | plugins/helper.ts:503 | `setHours` with an hour below 24 and a minute below 60 keeps the local date |
| HelperClock.GetDateFromUtcDaysWithTimeDate | plugins/helper.ts:482-513 | for every time of day that is, or defaults to, "hh:mm P" with a digit hour below 24, a minute below 60 and a period without separators, the result is the offset date's "MM/DD/YYYY": the time never changes the day |
| HelperClock.ConvertToDateTimeUtc | plugins/helper.ts:449-474 | null iff the date or the time string is empty or null |
| HelperClock.ConvertToDateTimeUtcCorrected | plugins/helper.ts:449-474 | the corrected conversion is null in exactly the same cases |
| HelperClock.DateNumbers | plugins/helper.ts:457 | a date text without "/" gives `Number` of the whole text as the month and NaN as the day and the year |
| HelperClock.ReadTimeNumbers | plugins/helper.ts:458-459 | a time without a space has no meridiem; without a space and a ":" it gives `Number` of the whole text as the hour and NaN as the minute |
| HelperClock.ReadTimeNumbersOf | plugins/helper.ts:458-459 | "H:MM P" with digit H and MM splits into `Number(H)`, `Number(MM)` and P |
| HelperClock.ReadDateTimeText | plugins/helper.ts:457-459 | any "MM/DD/YYYY" and "hh:mm A" digit text, padded or not, reads back as its numbers and its period |
| HelperClock.PmShiftedHour | plugins/helper.ts:466 | NaN stays NaN and nothing else becomes NaN; only "PM" changes the hour |
| HelperClock.ReadTimeNumbersOfMilitary | plugins/helper.ts:457-459 | the "H:MM P" text splits into the 12-hour hour, the minute and the period |
| HelperClock.ConvertToDateTimeUtcCorrectedOf | plugins/helper.ts:449-474 | with 12 AM read as 0 and 12 PM read as 12, any digit text "MM/DD/YYYY" of a valid date (year 100 or later) and "hh:mm A" with hour 1–12, minute below 60 and A in {AM, PM} gives the UTC "YYYY-MM-DDTHH:mm" of that host-local date and time |
| HelperClock.PmShiftedHourOfTwelveHourClock | plugins/helper.ts:466 | on hours 1–12 with "AM" or "PM" the source's hour is the 24-hour reading plus 12 exactly for the 12 o'clock hours |
| HelperClock.ConvertToDateTimeUtcAsWritten | plugins/helper.ts:457-471 | as written, on the same digit texts, 12:mm AM and 12:mm PM come out twelve hours late and every other time is right |
| HelperClock.ConvertToDateTimeUtcAgrees | plugins/helper.ts:466 | on the same digit texts away from the 12 o'clock hours the code as written equals the corrected conversion |
| HelperClock.LocaleTimeStringParts | plugins/helper.ts:24-28 | the "hh:mm AM" time splits at ':' and white space into the two-digit 12-hour hour, the two-digit minute and the period, and reads back as the local hour (0-23) and minute of the instant |
| HelperClock.DateTimeFormatterFields | plugins/helper.ts:14-28 | a valid date's text splits at ' ' into three parts; the date part splits at '/' into the local month, the local day and, for years 0 and later, the year modulo 100; the time part reads back as the local hour and minute |
| HelperClock.LocalTimeToNumber | plugins/helper.ts:362-372 | null iff the input is null, undefined or '' |
| HelperClock.LocalTimeToNumberValue | plugins/helper.ts:366-368 | a readable time gives 100 × hour + minute; an unreadable one gives NaN, the `parseInt` of "Invalid date" |
| TimeValues.JsDate.constructor | plugins/helper.ts:280-286 | `new Date(year, month, day, hours, minutes)` holds the UTC time value of those local fields, NaN when any field is NaN or the result is out of range |
| TimeValues.JsDate.GetTime | plugins/helper.ts:148 | a numeric time value lies in the ECMAScript range |
| TimeValues.JsDate.GetDate | plugins/helper.ts:105 | the day of the month is between 1 and 31 |
| TimeValues.JsDate.SetDate | plugins/helper.ts:105 | `setDate` replaces the value with the date moved to the given day of its month, keeping the local time of day |
| TimeValues.JsDate.SetHours | plugins/helper.ts:503 | `setHours` replaces the value with the same local day at the given hour and minute |
| DateStrings.IsoString | plugins/helper.ts:154 | the `toISOString` text has 24 characters for years 0 to 9999 and 27 (a signed six-digit year) otherwise |
| DateStrings.ParseDateTimeString | plugins/helper.ts:90 | an accepted string has 16, 19, 24 or 27 characters, and a numeric result lies in the time-value range |
| DateStrings.IsoStringRoundTrip | plugins/helper.ts:154 | the `toISOString` text of any valid time value parses back to that time value |
| DateStrings.IsoMinutePrefixParse | plugins/helper.ts:313 | the 16-character prefix of the ISO text, read as local time, is the instant truncated to the minute and moved by the host offset |
| DateStrings.LocaleDateString | plugins/helper.ts:106 | `toLocaleDateString()` is "Invalid Date" exactly for NaN |
| DateStrings.LocaleTimeString | plugins/helper.ts:24-28 | the two-digit 12-hour time "hh:mm AM" always has 8 characters; its read-back is HelperClock.LocaleTimeStringParts |
| DateStrings.LocaleDateStringTwoDigit | plugins/helper.ts:506-510 | the two-digit en-US date is "Invalid Date" exactly for NaN |
| Credentials.LookaheadTestCorrect | plugins/user/credentials.ts:24-35 | the scan that implements `^(?=.*[x])` succeeds iff a character of the class occurs before the first line terminator |
| Credentials.DotAtomTestCorrect | plugins/user/credentials.ts:11 | splitting on "." recognises exactly the dot-joined atoms of the unquoted local part |
| Credentials.HostTestCorrect | plugins/user/credentials.ts:11 | splitting on "." recognises exactly labels followed by a top-level domain of two or more letters |
| Credentials.AddressLiteralTestCorrect | plugins/user/credentials.ts:11 | the bracket test recognises exactly "[d.d.d.d]" with 1 to 3 digits per group |
| Credentials.DomainHasNoAt | plugins/user/credentials.ts:11 | neither domain form contains "@", so the local part always ends at the last "@" |
| Credentials.EmailPatternTestCorrect | plugins/user/credentials.ts:9-13 | the e-mail test accepts exactly the language of the expression: a dotted or quoted local part, "@", and a host name or address literal |
| Credentials.EmailRules | plugins/user/credentials.ts:8-13 | required fails exactly on ""; the pattern rule passes iff the text is in the expression's language, and fails with 'E-mail must be valid'; the field passes iff the text is in the language |
| Credentials.PasswordRules | plugins/user/credentials.ts:21-35 | required fails exactly on ""; the length rule fails exactly for 1 to 5 characters; each class rule passes iff a character of its class occurs before the first line terminator |
| Credentials.PasswordAllSix | plugins/user/credentials.ts:20-36 | a password passes all six rules iff it has at least 6 characters and a digit, a lower-case letter, an upper-case letter and one of `!@#$%^&*"` on its first line |
| Credentials.CodeRuleAndInitialValues | plugins/user/credentials.ts:3-44 | the code rule fails with 'Code is required' exactly on ""; every field's initial value is '' |

## Left out

- `copyToClipboard` (plugins/helper.ts:54-67): browser clipboard I/O and an event-bus notification.
- Five functions need the IANA time-zone database or the host clock, so they are not part of this model:
  - `militaryToRegularTimeWithTimeZone`, which reads the current date (`new Date()`);
  - `convertToUTC`;
  - `localTimeToTargetTimezone`;
  - `utcTimeToLocalTime`, which guesses the host zone;
  - `getLocaleDateStringfromDays`.
- Time zones are fixed offsets. Daylight-saving transitions and historical offset changes are not modelled.
- `console.log` and `console.error` output is not modelled.
- Numbers are integers or NaN. The model leaves out:
  - fractional times and day counts;
  - infinities and negative zero;
  - `Number` of decimal, exponent, hexadecimal and "Infinity" forms (these give NaN here);
  - `parseInt` of "0x" hexadecimal text.
- Strings count Unicode scalar values, not UTF-16 code units. A character outside the Basic Multilingual Plane is therefore one character here and two in JavaScript:
  - the password length rule counts it once, where JavaScript counts it twice;
  - `filterSpecialChars` turns it into one `_`, where JavaScript replaces each of its two code units and writes "__".
- The en-US time text uses a plain space before AM/PM. Newer ICU data writes U+202F there.
- Years at or before 0 are shown as their era year, without an era marker.
- `new Date(str)` and `moment(str)` on free-form text are parameters (the already-parsed time value or clock). Only the ISO text the helpers produce themselves is parsed by the model.
- HelperClock.DateTimeFormatterFields: the read-back of the two-digit year is stated only for years 0 and later; for a negative year, `slice(-2)` of its text is modelled but its value is not stated.
- HelperDays.DifferenceInDays: only the two shapes 'YYYY-MM-DDTHH:mm' (local time) and 'YYYY-MM-DDTHH:mm:ss.sssZ' (UTC), the shapes the helpers pass it, are parsed; every other string, including other forms of the date-time string format (a date alone, seconds without milliseconds, an explicit offset) and the implementation-specific forms, gives None.
- HelperDays.DateStringToDayAndTime: the parsed date must have a year between 0 and 9999. Outside that range `toISOString` writes a signed six-digit year, the 16-character slice no longer ends at the minute, and the resulting numbers are not modelled.
- HelperClock.ConvertDayAndTimeInstant and HelperClock.ConvertDayAndTimeSameZone require the offset date's year to be 100 or more. Below that, `new Date(year, …)` re-reads a two-digit year as 1900 + year; that range (more than 690 000 days before 2000) is not modelled.
- HelperClock.UtcTimeToTimezone: the input is a string; a null argument, which the code passes on to moment, is not modelled.
- HelperClock.LocalTimeToNumber: moment's lenient reading of "hh:mm A" text is the `parsed` parameter, so which texts it accepts is not modelled.
- `validateObject`: `key in obj` also finds keys inherited through the prototype chain. The model's object is a map of own keys.
- The form's `disabled` and `hidden` flags are carried in `Credentials.Field` but have no behaviour here. How Vuetify displays the messages is outside this model.
- `differenceInDays` divides in double precision before `Math.floor`. Within the time-value range the quotient is below 2^27 in magnitude, so rounding never crosses an integer, and the model uses exact floor division.
- `convertDayAndTimeToTargetTimeZone` does not attach the target zone to the unchanged wall clock.
  - `moment.tz` given a `Date` keeps the instant and shows its wall clock in the target zone.
  - The result therefore equals the input wall clock only when the target zone is the host zone (HelperClock.ConvertDayAndTimeSameZone).

## Findings

| source | as written | input that shows it | evidently intended | confidence | as-written member | corrected member |
|---|---|---|---|---|---|---|
| plugins/helper.ts:466 | every PM hour gains 12, 12 PM included, and 12 AM is left at hour 12 | dateString "1/1/2024" with timeString "12:30 PM" builds 2024-01-02 00:30 local; "12:30 AM" builds 2024-01-01 12:30 local | the 12-hour mapping `getDateFromUtcDaysWithTime` uses (plugins/helper.ts:497-501): 12 AM is hour 0, 12 PM is hour 12 | not executed | HelperClock.ConvertToDateTimeUtcAsWritten | HelperClock.ConvertToDateTimeUtcCorrectedOf |
