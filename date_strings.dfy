/**
 * The date and time strings the helpers produce and read back:
 *  - `toISOString` and the ECMAScript date-time string format
 *    "YYYY-MM-DDTHH:mm:ss.sssZ" (ECMA-262 section 21.4.1.32), with a parser
 *    for the two shapes the helpers feed to `new Date(string)`: the full UTC
 *    form and the local-time form "YYYY-MM-DDTHH:mm";
 *  - the en-US renderings of `toLocaleDateString` and `toLocaleTimeString`;
 *  - moment's `format('YYYY-MM-DDTHH:mm')`.
 */
module DateStrings {
  import opened JsText
  import opened JsNumbers
  import opened Calendar
  import opened TimeValues

  // ---------------------------------------------------------------------
  // Range of civil years
  // ---------------------------------------------------------------------

  /** Every time value in range falls in a year of at most six digits. */
  lemma YearOfTimeValue(t: int)
    requires InTimeRange(t)
    ensures -300000 < DateOf(t).year < 300000
  {
    var z := Day(t) + EpochShift;
    assert -100_000_001 <= Day(t) <= 100_000_001;
    var era := z / 146097;
    assert -680 <= era <= 689;
    YearOfEraBounds(z % 146097);
  }

  // ---------------------------------------------------------------------
  // toISOString
  // ---------------------------------------------------------------------

  /** The year field: four digits for years 0 to 9999, otherwise a sign and six digits. */
  function IsoYear(y: int): (r: string)
    requires -1000000 < y < 1000000
    ensures |r| == (if 0 <= y <= 9999 then 4 else 7)
    ensures 0 <= y <= 9999 ==> AllDigits(r)
    ensures !(0 <= y <= 9999) ==> r[0] == (if y < 0 then '-' else '+') && AllDigits(r[1..])
  {
    if 0 <= y <= 9999 then Digits(y, 4)
    else [if y < 0 then '-' else '+'] + Digits(if y < 0 then -y else y, 6)
  }

  /** "-MM-DDTHH:mm:ss.sssZ" of a civil date and a time of day. */
  function IsoTailOf(d: Date, h: int, mi: int, sec: int, ms: int): (r: string)
    requires ValidDate(d) && 0 <= h < 24 && 0 <= mi < 60 && 0 <= sec < 60 && 0 <= ms < 1000
    ensures |r| == 20
  {
    [ '-', DigitChar(d.month / 10), DigitChar(d.month % 10),
      '-', DigitChar(d.day / 10), DigitChar(d.day % 10),
      'T', DigitChar(h / 10), DigitChar(h % 10),
      ':', DigitChar(mi / 10), DigitChar(mi % 10),
      ':', DigitChar(sec / 10), DigitChar(sec % 10),
      '.', DigitChar(ms / 100), DigitChar(ms / 10 % 10), DigitChar(ms % 10),
      'Z' ]
  }

  /** The part of `toISOString` that follows the year. */
  function IsoTail(t: int): (r: string)
    ensures |r| == 20
  {
    CivilFromDaysCorrect(Day(t));
    TimeFieldsCompose(t);
    IsoTailOf(DateOf(t), HourFromTime(t), MinFromTime(t), SecFromTime(t), MsFromTime(t))
  }

  /** `Date.prototype.toISOString` (section 21.4.4.36) of a time value; NaN throws and is the caller's case. */
  function IsoString(t: int): (r: string)
    requires InTimeRange(t)
    ensures |r| == (if 0 <= DateOf(t).year <= 9999 then 24 else 27)
  {
    YearOfTimeValue(t);
    IsoYear(DateOf(t).year) + IsoTail(t)
  }

  // ---------------------------------------------------------------------
  // The date-time string format, as `new Date(string)` reads it
  // ---------------------------------------------------------------------

  predicate DigitAt(s: string, i: int) {
    0 <= i < |s| && IsAsciiDigit(s[i])
  }

  function Field2(s: string, i: int): (n: int)
    requires DigitAt(s, i) && DigitAt(s, i + 1)
    ensures 0 <= n <= 99
  {
    10 * DigitValue(s[i]) + DigitValue(s[i + 1])
  }

  function Field3(s: string, i: int): (n: int)
    requires DigitAt(s, i) && DigitAt(s, i + 1) && DigitAt(s, i + 2)
    ensures 0 <= n <= 999
  {
    100 * DigitValue(s[i]) + 10 * DigitValue(s[i + 1]) + DigitValue(s[i + 2])
  }

  /** A year field: four digits, or a sign and six digits; "-000000" is not a year. */
  function ParseYear(s: string): Option<int> {
    if |s| == 4 && AllDigits(s) then Some(DigitsValue(s))
    else if |s| == 7 && (s[0] == '+' || s[0] == '-') && AllDigits(s[1..]) then
      var v: int := DigitsValue(s[1..]);
      if s[0] == '-' && v == 0 then None
      else Some(if s[0] == '-' then -v else v)
    else None
  }

  /** "-MM-DDTHH:mm" at the start of r. */
  predicate MinuteLayout(r: string) {
    && |r| >= 12 && r[0] == '-' && DigitAt(r, 1) && DigitAt(r, 2)
    && r[3] == '-' && DigitAt(r, 4) && DigitAt(r, 5)
    && r[6] == 'T' && DigitAt(r, 7) && DigitAt(r, 8)
    && r[9] == ':' && DigitAt(r, 10) && DigitAt(r, 11)
  }

  /** "-MM-DDTHH:mm:ss.sssZ". */
  predicate FullLayout(r: string) {
    && |r| == 20 && MinuteLayout(r)
    && r[12] == ':' && DigitAt(r, 13) && DigitAt(r, 14)
    && r[15] == '.' && DigitAt(r, 16) && DigitAt(r, 17) && DigitAt(r, 18)
    && r[19] == 'Z'
  }

  /** The ranges the format allows; "24:00" with zero seconds and milliseconds means the end of the day. */
  predicate FieldsInRange(year: int, month: int, day: int, hour: int, minute: int, second: int, ms: int) {
    && 1 <= month <= 12 && 1 <= day <= DaysInMonth(year, month)
    && 0 <= minute <= 59 && 0 <= second <= 59
    && (hour <= 23 || (hour == 24 && minute == 0 && second == 0 && ms == 0))
  }

  /** The time value the fields denote, read as UTC. */
  function FieldsValue(year: int, month: int, day: int, hour: int, minute: int, second: int, ms: int): JsNumber {
    MakeDate(MakeDay(Int(year), Int(month - 1), Int(day)), MakeTime(Int(hour), Int(minute), Int(second), Int(ms)))
  }

  /**
   * `Date.parse` on the two shapes of the date-time string format the helpers
   * hand to it: "YYYY-MM-DDTHH:mm", which is local time, and
   * "YYYY-MM-DDTHH:mm:ss.sssZ", which is UTC. A field out of range gives NaN;
   * None marks a string of any other shape (its parse is implementation
   * specific and is not modelled).
   */
  function ParseDateTimeString(s: string, z: Offset): (r: Option<JsNumber>)
    ensures r.Some? && r.value.Int? ==> InTimeRange(r.value.v)
    ensures r.Some? ==> |s| in {16, 19, 24, 27}
  {
    var yearLength := if s != [] && (s[0] == '+' || s[0] == '-') then 7 else 4;
    if |s| < yearLength then None
    else
      match ParseYear(s[..yearLength])
      case None => None
      case Some(year) =>
        var r := s[yearLength..];
        if |r| == 12 && MinuteLayout(r) then
          var month, day, hour, minute := Field2(r, 1), Field2(r, 4), Field2(r, 7), Field2(r, 10);
          Some(if FieldsInRange(year, month, day, hour, minute, 0, 0)
               then TimeClip(Utc(FieldsValue(year, month, day, hour, minute, 0, 0), z))
               else NaN)
        else if FullLayout(r) then
          var month, day, hour, minute := Field2(r, 1), Field2(r, 4), Field2(r, 7), Field2(r, 10);
          var second, ms := Field2(r, 13), Field3(r, 16);
          Some(if FieldsInRange(year, month, day, hour, minute, second, ms)
               then TimeClip(FieldsValue(year, month, day, hour, minute, second, ms))
               else NaN)
        else None
  }

  lemma ParseIsoYear(y: int)
    requires -1000000 < y < 1000000
    ensures ParseYear(IsoYear(y)) == Some(y)
  {
    if 0 <= y <= 9999 {
      DigitsCorrect(y, 4);
    } else {
      var a := if y < 0 then -y else y;
      assert Pow10(6) == 1000000;
      DigitsCorrect(a, 6);
      assert IsoYear(y)[1..] == Digits(a, 6);
    }
  }

  /** The fields of a time value, written in the format and read back as UTC, give the time value again. */
  lemma FieldsOfTimeValue(t: int)
    ensures ValidDate(DateOf(t))
    ensures FieldsInRange(DateOf(t).year, DateOf(t).month, DateOf(t).day,
                          HourFromTime(t), MinFromTime(t), SecFromTime(t), MsFromTime(t))
    ensures FieldsValue(DateOf(t).year, DateOf(t).month, DateOf(t).day,
                        HourFromTime(t), MinFromTime(t), SecFromTime(t), MsFromTime(t)) == Int(t)
    ensures FieldsValue(DateOf(t).year, DateOf(t).month, DateOf(t).day, HourFromTime(t), MinFromTime(t), 0, 0)
            == Int(t - t % MsPerMinute)
  {
    var d := DateOf(t);
    CivilFromDaysCorrect(Day(t));
    TimeFieldsCompose(t);
    MakeDayOfDate(d);
    var h, mi, sec, ms := HourFromTime(t), MinFromTime(t), SecFromTime(t), MsFromTime(t);
    assert MakeDay(Int(d.year), Int(d.month - 1), Int(d.day)) == Int(Day(t));
    assert MakeTime(Int(h), Int(mi), Int(sec), Int(ms)) == Int(h * MsPerHour + mi * MsPerMinute + sec * 1000 + ms);
    assert MakeTime(Int(h), Int(mi), Int(0), Int(0)) == Int(h * MsPerHour + mi * MsPerMinute);
    MinuteRemainder(t, Day(t) * 1440 + h * 60 + mi, sec * 1000 + ms);
  }

  lemma MinuteRemainder(t: int, q: int, r: int)
    requires 0 <= r < MsPerMinute && t == q * MsPerMinute + r
    ensures t % MsPerMinute == r
  {
  }

  /** The year and the tail of `toISOString` split apart again where the parser cuts. */
  lemma IsoStringPieces(t: int)
    requires InTimeRange(t)
    ensures -1000000 < DateOf(t).year < 1000000
    ensures var s := IsoString(t);
            var n := if s[0] == '+' || s[0] == '-' then 7 else 4;
            |s| >= n && s[..n] == IsoYear(DateOf(t).year) && s[n..] == IsoTail(t)
  {
    YearOfTimeValue(t);
    var y := DateOf(t).year;
    var s := IsoString(t);
    assert s == IsoYear(y) + IsoTail(t);
    if 0 <= y <= 9999 {
      assert IsAsciiDigit(IsoYear(y)[0]);
      assert s[0] == IsoYear(y)[0];
    } else {
      assert s[0] == IsoYear(y)[0];
    }
  }

  lemma Field2Of(s: string, i: int, n: int)
    requires 0 <= n <= 99 && 0 <= i && i + 1 < |s|
    requires s[i] == DigitChar(n / 10) && s[i + 1] == DigitChar(n % 10)
    ensures DigitAt(s, i) && DigitAt(s, i + 1) && Field2(s, i) == n
  {
  }

  /** The tail has the layout of the format and holds the fields it was written from. */
  lemma IsoTailOfFields(d: Date, h: int, mi: int, sec: int, ms: int)
    requires ValidDate(d) && 0 <= h < 24 && 0 <= mi < 60 && 0 <= sec < 60 && 0 <= ms < 1000
    ensures FullLayout(IsoTailOf(d, h, mi, sec, ms))
    ensures var r := IsoTailOf(d, h, mi, sec, ms);
            && Field2(r, 1) == d.month && Field2(r, 4) == d.day
            && Field2(r, 7) == h && Field2(r, 10) == mi
            && Field2(r, 13) == sec && Field3(r, 16) == ms
  {
    var r := IsoTailOf(d, h, mi, sec, ms);
    IsoTailOfDate(r, d, h, mi, sec, ms);
    IsoTailOfClock(r, d, h, mi, sec, ms);
  }

  lemma IsoTailOfDate(r: string, d: Date, h: int, mi: int, sec: int, ms: int)
    requires ValidDate(d) && 0 <= h < 24 && 0 <= mi < 60 && 0 <= sec < 60 && 0 <= ms < 1000
    requires r == IsoTailOf(d, h, mi, sec, ms)
    ensures MinuteLayout(r) && Field2(r, 1) == d.month && Field2(r, 4) == d.day
  {
    Field2Of(r, 1, d.month);
    Field2Of(r, 4, d.day);
    Field2Of(r, 7, h);
    Field2Of(r, 10, mi);
  }

  lemma IsoTailOfClock(r: string, d: Date, h: int, mi: int, sec: int, ms: int)
    requires ValidDate(d) && 0 <= h < 24 && 0 <= mi < 60 && 0 <= sec < 60 && 0 <= ms < 1000
    requires r == IsoTailOf(d, h, mi, sec, ms)
    ensures DigitAt(r, 7) && DigitAt(r, 8) && DigitAt(r, 10) && DigitAt(r, 11)
    ensures r[12] == ':' && DigitAt(r, 13) && DigitAt(r, 14)
    ensures r[15] == '.' && DigitAt(r, 16) && DigitAt(r, 17) && DigitAt(r, 18) && r[19] == 'Z'
    ensures Field2(r, 7) == h && Field2(r, 10) == mi && Field2(r, 13) == sec && Field3(r, 16) == ms
  {
    Field2Of(r, 7, h);
    Field2Of(r, 10, mi);
    Field2Of(r, 13, sec);
    Field3Of(r, 16, ms);
  }

  lemma Field3Of(s: string, i: int, n: int)
    requires 0 <= n <= 999 && 0 <= i && i + 2 < |s|
    requires s[i] == DigitChar(n / 100) && s[i + 1] == DigitChar(n / 10 % 10) && s[i + 2] == DigitChar(n % 10)
    ensures DigitAt(s, i) && DigitAt(s, i + 1) && DigitAt(s, i + 2) && Field3(s, i) == n
  {
  }

  lemma IsoTailFields(t: int)
    ensures FullLayout(IsoTail(t))
    ensures var r := IsoTail(t);
            && Field2(r, 1) == DateOf(t).month && Field2(r, 4) == DateOf(t).day
            && Field2(r, 7) == HourFromTime(t) && Field2(r, 10) == MinFromTime(t)
            && Field2(r, 13) == SecFromTime(t) && Field3(r, 16) == MsFromTime(t)
  {
    CivilFromDaysCorrect(Day(t));
    TimeFieldsCompose(t);
    IsoTailOfFields(DateOf(t), HourFromTime(t), MinFromTime(t), SecFromTime(t), MsFromTime(t));
  }

  /** `new Date(d.toISOString())` is d: the string reads back as the same time value (section 21.4.3.2). */
  lemma IsoStringRoundTrip(t: int, z: Offset)
    requires InTimeRange(t)
    ensures ParseDateTimeString(IsoString(t), z) == Some(Int(t))
  {
    IsoStringPieces(t);
    var d := DateOf(t);
    ParseIsoYear(d.year);
    FieldsOfTimeValue(t);
    IsoTailFields(t);
    var s := IsoString(t);
    var n := if s[0] == '+' || s[0] == '-' then 7 else 4;
    ParseFullForm(s, z, n, d.year, d.month, d.day, HourFromTime(t), MinFromTime(t), SecFromTime(t), MsFromTime(t),
                  FieldsValue(d.year, d.month, d.day, HourFromTime(t), MinFromTime(t), SecFromTime(t), MsFromTime(t)));
  }

  /** A string of the full UTC shape parses to its fields read as UTC. */
  lemma ParseFullForm(s: string, z: Offset, n: int, year: int, month: int, day: int, hour: int, minute: int,
                      second: int, ms: int, v: JsNumber)
    requires s != [] && n == (if s[0] == '+' || s[0] == '-' then 7 else 4)
    requires |s| >= n && ParseYear(s[..n]) == Some(year)
    requires FullLayout(s[n..])
    requires Field2(s[n..], 1) == month && Field2(s[n..], 4) == day
    requires Field2(s[n..], 7) == hour && Field2(s[n..], 10) == minute
    requires Field2(s[n..], 13) == second && Field3(s[n..], 16) == ms
    requires FieldsInRange(year, month, day, hour, minute, second, ms)
    requires FieldsValue(year, month, day, hour, minute, second, ms) == v
    ensures ParseDateTimeString(s, z) == Some(TimeClip(v))
  {
  }

  /** A string of the local-time shape parses to its fields read as local time. */
  lemma ParseMinuteForm(s: string, z: Offset, year: int, month: int, day: int, hour: int, minute: int, t: int)
    requires |s| == 16 && s[0] != '+' && s[0] != '-' && ParseYear(s[..4]) == Some(year)
    requires MinuteLayout(s[4..])
    requires Field2(s[4..], 1) == month && Field2(s[4..], 4) == day
    requires Field2(s[4..], 7) == hour && Field2(s[4..], 10) == minute
    requires FieldsInRange(year, month, day, hour, minute, 0, 0)
    requires FieldsValue(year, month, day, hour, minute, 0, 0) == Int(t - t % MsPerMinute)
    ensures ParseDateTimeString(s, z) == Some(TimeClip(Int(t - t % MsPerMinute - OffsetMs(z))))
  {
  }

  /** The first 16 characters of `toISOString` of a four-digit year hold its year, date, hour and minute. */
  lemma IsoStringLength(t: int)
    requires InTimeRange(t) && 0 <= DateOf(t).year <= 9999
    ensures |IsoString(t)| == 24
  {
    IsoStringPieces(t);
  }

  lemma IsoMinutePrefixFields(t: int, s: string)
    requires InTimeRange(t) && 0 <= DateOf(t).year <= 9999
    requires |IsoString(t)| >= 16 && s == IsoString(t)[..16]
    ensures |s| == 16 && s[0] != '+' && s[0] != '-' && ParseYear(s[..4]) == Some(DateOf(t).year)
    ensures MinuteLayout(s[4..])
    ensures Field2(s[4..], 1) == DateOf(t).month && Field2(s[4..], 4) == DateOf(t).day
    ensures Field2(s[4..], 7) == HourFromTime(t) && Field2(s[4..], 10) == MinFromTime(t)
  {
    IsoStringPieces(t);
    var d := DateOf(t);
    ParseIsoYear(d.year);
    IsoTailFields(t);
    var full := IsoString(t);
    var r := IsoTail(t);
    assert full[0] != '+' && full[0] != '-';
    assert s[0] == full[0] && s[..4] == full[..4];
    var rest := s[4..];
    assert rest == r[..12];
    assert forall k :: 0 <= k < 12 ==> rest[k] == r[k];
  }

  /**
   * The first 16 characters of `toISOString`, "YYYY-MM-DDTHH:mm", read back as
   * local time: the instant truncated to its minute, shifted by the host offset.
   */
  lemma IsoMinutePrefixParse(t: int, z: Offset, s: string)
    requires InTimeRange(t) && 0 <= DateOf(t).year <= 9999
    requires |s| == 16 && s <= IsoString(t)
    ensures |IsoString(t)| == 24 && s == IsoString(t)[..16]
    ensures ParseDateTimeString(s, z) == Some(TimeClip(Int(t - t % MsPerMinute - OffsetMs(z))))
  {
    IsoStringLength(t);
    IsoMinutePrefixFields(t, s);
    var month, day, hour, minute := Field2(s[4..], 1), Field2(s[4..], 4), Field2(s[4..], 7), Field2(s[4..], 10);
    MinuteFieldsValue(t, DateOf(t).year, month, day, hour, minute);
    ParseMinuteForm(s, z, DateOf(t).year, month, day, hour, minute, t);
  }

  /** The fields of a time value down to its minute are in range and give the time value truncated to the minute. */
  lemma MinuteFieldsValue(t: int, year: int, month: int, day: int, hour: int, minute: int)
    requires year == DateOf(t).year && month == DateOf(t).month && day == DateOf(t).day
    requires hour == HourFromTime(t) && minute == MinFromTime(t)
    ensures FieldsInRange(year, month, day, hour, minute, 0, 0)
    ensures FieldsValue(year, month, day, hour, minute, 0, 0) == Int(t - t % MsPerMinute)
  {
    FieldsOfTimeValue(t);
  }

  // ---------------------------------------------------------------------
  // en-US renderings
  // ---------------------------------------------------------------------

  /** The year ICU prints for the Gregorian calendar: the era year, so 1 BC (year 0) prints as 1. */
  function EraYear(y: int): (r: nat)
    ensures r >= 1
    ensures y >= 1 ==> r == y
  {
    if y >= 1 then y else 1 - y
  }

  /** The local civil date of a time value, with its range facts. */
  function LocalDate(t: int, z: Offset): (d: Date)
    ensures ValidDate(d)
    ensures d == DateOf(LocalTime(t, z))
  {
    CivilFromDaysCorrect(Day(LocalTime(t, z)));
    DateOf(LocalTime(t, z))
  }

  /** A rendering that starts with a digit is not the invalid-date text. */
  lemma NotInvalidDate(a: string, b: string)
    requires |a| > 0 && IsAsciiDigit(a[0])
    ensures a + b != "Invalid Date"
  {
    assert (a + b)[0] == a[0];
    assert "Invalid Date"[0] == 'I';
  }

  /** `toLocaleDateString()` in en-US: "M/D/Y" without padding, or "Invalid Date". */
  function LocaleDateString(t: JsNumber, z: Offset): (r: string)
    ensures t.NaN? <==> r == "Invalid Date"
  {
    if t.NaN? then "Invalid Date"
    else
      var d := LocalDate(t.v, z);
      var m := NatToString(d.month);
      var rest := "/" + NatToString(d.day) + "/" + NatToString(EraYear(d.year));
      NatToStringCorrect(d.month);
      NotInvalidDate(m, rest);
      m + rest
  }

  /** A time value's locale date text is its local month, day and year, joined by slashes. */
  lemma LocaleDateStringOfDate(t: JsNumber, z: Offset, d: Date)
    requires t.Int? && LocalDate(t.v, z) == d
    ensures LocaleDateString(t, z) == NatToString(d.month) + ("/" + NatToString(d.day) + "/" + NatToString(EraYear(d.year)))
  {
  }

  /** `toLocaleDateString('en-US', {year: 'numeric', month: '2-digit', day: '2-digit'})`: "MM/DD/Y". */
  function LocaleDateStringTwoDigit(t: JsNumber, z: Offset): (r: string)
    ensures t.NaN? <==> r == "Invalid Date"
  {
    if t.NaN? then "Invalid Date"
    else
      var d := LocalDate(t.v, z);
      var m := TwoDigits(d.month);
      var rest := "/" + TwoDigits(d.day) + "/" + NatToString(EraYear(d.year));
      NotInvalidDate(m, rest);
      m + rest
  }

  /** `toLocaleTimeString('en-US', {hour: '2-digit', minute: '2-digit', hour12: true})`: "hh:mm AM". */
  function LocaleTimeString(t: int, z: Offset): (r: string)
    ensures |r| == 8
  {
    var local := LocalTime(t, z);
    TimeFieldsCompose(local);
    var h := HourFromTime(local);
    TwoDigits(Hour12(h)) + ":" + TwoDigits(MinFromTime(local)) + " " + DayPeriod(h)
  }

  // ---------------------------------------------------------------------
  // moment's format('YYYY-MM-DDTHH:mm')
  // ---------------------------------------------------------------------

  /** The `YYYY` token: the year zero-filled to four digits, with '-' before a negative year. */
  function MomentYear(y: int): (r: string)
    ensures |r| >= 4
  {
    var digits := PadStart(NatToString(if y < 0 then -y else y), 4, '0');
    if y < 0 then "-" + digits else digits
  }

  /** "YYYY-MM-DDTHH:mm" of a civil date and wall-clock hour and minute. */
  function MomentDateTime(d: Date, hour: int, minute: int): string
    requires ValidDate(d) && 0 <= hour < 24 && 0 <= minute < 60
  {
    MomentYear(d.year) + "-" + TwoDigits(d.month) + "-" + TwoDigits(d.day)
      + "T" + TwoDigits(hour) + ":" + TwoDigits(minute)
  }

  /** `format('YYYY-MM-DDTHH:mm')` of a moment whose wall clock, as milliseconds, is w. */
  function MomentFormat(w: int): string {
    CivilFromDaysCorrect(Day(w));
    TimeFieldsCompose(w);
    MomentDateTime(DateOf(w), HourFromTime(w), MinFromTime(w))
  }
}
