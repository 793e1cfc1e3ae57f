/**
 * The helpers of plugins/helper.ts that count whole days from 2000-01-01 in
 * the host's local time: `differenceInDays`, `getDateFromDays`,
 * `getIsoDateFromDays`, `dateStringToDayAndTime`, `isValidDate`, and the two
 * formatters `dateTimeFormatter` and `dateFormatter`.
 *
 * Strings the source hands to `new Date(string)` that are not of the
 * date-time string format arrive already parsed, as a time value.
 */
module HelperDays {
  import opened JsText
  import opened JsNumbers
  import opened Calendar
  import opened TimeValues
  import opened DateStrings

  /** The outcome of a call that may throw a RangeError (`toISOString` on an invalid date). */
  datatype Outcome<T> = Returns(value: T) | ThrowsRangeError

  // ---------------------------------------------------------------------
  // 2000-01-01 and day offsets
  // ---------------------------------------------------------------------

  /** `new Date(2000, 0, 1)` is local midnight at the start of 2000-01-01. */
  lemma StartOf2000(z: Offset)
    ensures LocalDateValue(z, Int(2000), Int(0), Int(1), Int(0), Int(0)) == Int(EpochDay * MsPerDay - OffsetMs(z))
  {
    EpochDayIsJanuaryFirst2000();
  }

  /** The time value of local midnight `days` days after 2000-01-01; NaN for NaN or out of range. */
  function DayOffsetValue(days: JsNumber, z: Offset): (r: JsNumber)
    ensures r.Int? ==> InTimeRange(r.v) && days.Int?
  {
    if days.NaN? then NaN else TimeClip(Int((EpochDay + days.v) * MsPerDay - OffsetMs(z)))
  }

  /** The first and last day offsets whose local midnight is a valid time value. */
  function DayLow(z: Offset): int {
    -100_000_000 - EpochDay + (if z > 0 then 1 else 0)
  }

  function DayHigh(z: Offset): int {
    100_000_000 - EpochDay - (if z < 0 then 1 else 0)
  }

  lemma DayOffsetInRange(d: int, z: Offset)
    ensures DayOffsetValue(Int(d), z).Int? <==> DayLow(z) <= d <= DayHigh(z)
  {
    var k := EpochDay + d;
    var off := OffsetMs(z);
    assert -MsPerDay < off < MsPerDay;
    assert MaxTime == 100_000_000 * MsPerDay;
    if k <= -100_000_001 {
      assert k * MsPerDay <= -100_000_001 * MsPerDay;
    }
    if k >= 100_000_001 {
      assert k * MsPerDay >= 100_000_001 * MsPerDay;
    }
  }

  /** Local midnight of a day offset falls on the civil date that many days after 2000-01-01. */
  lemma DayOffsetLocalDate(d: int, z: Offset)
    requires DayOffsetValue(Int(d), z).Int?
    ensures LocalTime(DayOffsetValue(Int(d), z).v, z) == (EpochDay + d) * MsPerDay
    ensures LocalDate(DayOffsetValue(Int(d), z).v, z) == CivilFromDays(EpochDay + d)
  {
  }

  /** `setDate(getDate() + days)` on `new Date(2000, 0, 1)` lands on local midnight of the day offset. */
  lemma SetDateFromStart(days: JsNumber, z: Offset)
    ensures SetDateValue(Int(EpochDay * MsPerDay - OffsetMs(z)), Add(Int(1), days), z) == DayOffsetValue(days, z)
  {
    if days.Int? {
      StartOf2000Wall(z);
      DayOfJanuary2000(days.v);
    }
  }

  /** The wall clock of `new Date(2000, 0, 1)` is midnight of 2000-01-01. */
  lemma StartOf2000Wall(z: Offset)
    ensures var local := LocalTime(EpochDay * MsPerDay - OffsetMs(z), z);
            local == EpochDay * MsPerDay && TimeWithinDay(local) == 0 && DateOf(local) == Date(2000, 1, 1)
  {
    EpochDayIsJanuaryFirst2000();
    var local := EpochDay * MsPerDay;
    assert Day(local) == EpochDay && TimeWithinDay(local) == 0;
  }

  /** Day n of January 2000, counted on past the month's end, is n - 1 days after 2000-01-01. */
  lemma DayOfJanuary2000(n: int)
    ensures MakeDay(Int(2000), Int(0), Int(1 + n)) == Int(EpochDay + n)
  {
    EpochDayIsJanuaryFirst2000();
  }

  /** The local day of the month of `new Date(2000, 0, 1)` is 1. */
  lemma StartOf2000Date(z: Offset)
    ensures DateOf(LocalTime(EpochDay * MsPerDay - OffsetMs(z), z)) == Date(2000, 1, 1)
  {
    EpochDayIsJanuaryFirst2000();
    assert LocalTime(EpochDay * MsPerDay - OffsetMs(z), z) == EpochDay * MsPerDay;
  }

  /** `getDateFromDays(days)`: the en-US date ("M/D/Y") `days` days after 2000-01-01. */
  method GetDateFromDays(days: JsNumber, z: Offset) returns (r: string)
    ensures r == LocaleDateString(DayOffsetValue(days, z), z)
  {
    var startDate := new JsDate(z, Int(2000), Int(0), Int(1), Int(0), Int(0));
    StartOf2000(z);
    StartOf2000Date(z);
    startDate.SetDate(Add(startDate.GetDate(), days));
    SetDateFromStart(days, z);
    r := LocaleDateString(startDate.GetTime(), z);
  }

  /** Day 0 is 1/1/2000, whatever the host's offset. */
  lemma DayOffsetZero(z: Offset, expected: string)
    requires expected == "1/1/2000"
    ensures DayOffsetValue(Int(0), z).Int?
    ensures LocaleDateString(DayOffsetValue(Int(0), z), z) == expected
  {
    DayOffsetInRange(0, z);
    EpochDayIsJanuaryFirst2000();
    DayOffsetLocalDate(0, z);
    var t := DayOffsetValue(Int(0), z);
    LocaleDateStringOfDate(t, z, Date(2000, 1, 1));
    JanuaryFirst2000Text();
  }

  lemma JanuaryFirst2000Text()
    ensures NatToString(1) + ("/" + NatToString(1) + "/" + NatToString(EraYear(2000))) == "1/1/2000"
  {
    assert NatToString(1) == "1";
    assert NatToString(2000) == "2000" by {
      assert NatToString(200) == "200" by {
        assert NatToString(20) == "20";
      }
    }
  }

  /** One more day offset is the next calendar date: months and years roll over. */
  lemma DayOffsetNext(d: int, z: Offset)
    requires DayOffsetValue(Int(d), z).Int? && DayOffsetValue(Int(d + 1), z).Int?
    ensures ValidDate(LocalDate(DayOffsetValue(Int(d), z).v, z))
    ensures LocalDate(DayOffsetValue(Int(d + 1), z).v, z) == NextDay(LocalDate(DayOffsetValue(Int(d), z).v, z))
  {
    DayOffsetLocalDate(d, z);
    DayOffsetLocalDate(d + 1, z);
    CivilFromDaysNext(EpochDay + d);
  }

  /** `getIsoDateFromDays(days)`: `toISOString` of local midnight `days` days after 2000-01-01. */
  method GetIsoDateFromDays(days: JsNumber, z: Offset) returns (r: Option<string>)
    ensures r.None? <==> days.NaN? || !(DayLow(z) <= days.v <= DayHigh(z))
    ensures r.Some? ==> DayOffsetValue(days, z).Int? && r.value == IsoString(DayOffsetValue(days, z).v)
  {
    if days.NaN? {
      return None;
    }
    var isoStartDate := new JsDate(z, Int(2000), Int(0), Int(1), Int(0), Int(0));
    StartOf2000(z);
    StartOf2000Date(z);
    isoStartDate.SetDate(Add(isoStartDate.GetDate(), days));
    SetDateFromStart(days, z);
    DayOffsetInRange(days.v, z);
    var t := isoStartDate.GetTime();
    if t.NaN? {
      return None;
    }
    return Some(IsoString(t.v));
  }

  // ---------------------------------------------------------------------
  // differenceInDays
  // ---------------------------------------------------------------------

  /**
   * `Math.floor((date2 - new Date(2000, 0, 1)) / 86400000)` for a time value
   * date2. Within the time range the quotient is below 2^27 in magnitude, so
   * the double-precision division rounds no value across an integer and the
   * floor equals the integer floor division.
   */
  function DaysSince2000(date2: JsNumber, z: Offset): (r: JsNumber)
    ensures r.NaN? <==> date2.NaN?
    ensures date2.Int? ==> r == Int(Day(LocalTime(date2.v, z)) - EpochDay)
  {
    var date1 := LocalDateValue(z, Int(2000), Int(0), Int(1), Int(0), Int(0));
    StartOf2000(z);
    if date1.NaN? || date2.NaN? then NaN
    else
      assert date2.v - date1.v == LocalTime(date2.v, z) - EpochDay * MsPerDay;
      Int((date2.v - date1.v) / MsPerDay)
  }

  /**
   * `differenceInDays(s)` for the two shapes "YYYY-MM-DDTHH:mm" (read as local
   * time) and "YYYY-MM-DDTHH:mm:ss.sssZ" (UTC), the shapes the helpers pass it;
   * None for every other string. A parsed instant gives the number of its
   * host-local day counted from 2000-01-01.
   */
  function DifferenceInDays(s: string, z: Offset): (r: Option<JsNumber>)
    ensures r.None? <==> ParseDateTimeString(s, z).None?
    ensures r.Some? ==> r.value == DaysSince2000(ParseDateTimeString(s, z).value, z)
  {
    match ParseDateTimeString(s, z)
    case None => None
    case Some(t) => Some(DaysSince2000(t, z))
  }

  /** Instants before local 2000-01-01 give negative numbers. */
  lemma DaysSince2000BeforeStart(t: int, z: Offset)
    requires LocalTime(t, z) < EpochDay * MsPerDay
    ensures DaysSince2000(Int(t), z).v < 0
  {
  }

  /** `differenceInDays(getIsoDateFromDays(d)) == d` under a fixed-offset host zone. */
  lemma DifferenceInDaysOfIsoDate(d: int, z: Offset)
    requires DayLow(z) <= d <= DayHigh(z)
    ensures DayOffsetValue(Int(d), z).Int?
    ensures DifferenceInDays(IsoString(DayOffsetValue(Int(d), z).v), z) == Some(Int(d))
  {
    DayOffsetInRange(d, z);
    var t := DayOffsetValue(Int(d), z).v;
    IsoStringRoundTrip(t, z);
    DayOffsetLocalDate(d, z);
    DaysSince2000OfMidnight(d, t, z);
  }

  /** Local midnight of day offset d is d days after 2000-01-01. */
  lemma DaysSince2000OfMidnight(d: int, t: int, z: Offset)
    requires LocalTime(t, z) == (EpochDay + d) * MsPerDay
    ensures DaysSince2000(Int(t), z) == Int(d)
  {
    assert Day(LocalTime(t, z)) == EpochDay + d;
  }

  // ---------------------------------------------------------------------
  // dateStringToDayAndTime
  // ---------------------------------------------------------------------

  datatype DayAndTime = DayAndTime(day: JsNumber, time: JsNumber)

  /** A time value whose UTC year is written with four digits. */
  predicate FourDigitYear(t: int) {
    InTimeRange(t) && 0 <= DateOf(t).year <= 9999
  }

  /** The first 16 characters of `toISOString` for a four-digit year, with the hour and minute fields. */
  lemma IsoMinuteFields(t: int)
    requires FourDigitYear(t)
    ensures |IsoString(t)| == 24
    ensures var s := IsoString(t)[..16];
            && AllDigits(s[..4]) && MinuteLayout(s[4..])
            && Field2(s[4..], 7) == HourFromTime(t) && Field2(s[4..], 10) == MinFromTime(t)
  {
    IsoStringPieces(t);
    IsoTailFields(t);
    var full := IsoString(t);
    var s := full[..16];
    var r := IsoTail(t);
    assert IsAsciiDigit(full[0]) by {
      assert full[..4] == IsoYear(DateOf(t).year);
    }
    assert s[..4] == full[..4] == IsoYear(DateOf(t).year);
    var rest := s[4..];
    assert rest == r[..12];
    assert forall k :: 0 <= k < 12 ==> rest[k] == r[k];
  }

  /** The value of a four-digit string, digit by digit. */
  lemma FourDigitsValue(s: string)
    requires |s| == 4 && AllDigits(s)
    ensures DigitsValue(s) == 1000 * DigitValue(s[0]) + 100 * DigitValue(s[1]) + 10 * DigitValue(s[2]) + DigitValue(s[3])
  {
    assert s[..3][..2] == s[..2] && s[..2][..1] == s[..1] && s[..1][..0] == [];
    assert DigitsValue(s[..1]) == DigitValue(s[0]);
    assert DigitsValue(s[..2]) == 10 * DigitValue(s[0]) + DigitValue(s[1]);
    assert DigitsValue(s[..3]) == 10 * DigitsValue(s[..2]) + DigitValue(s[2]);
    assert DigitsValue(s) == 10 * DigitsValue(s[..3]) + DigitValue(s[3]);
  }

  /** "YYYY-MM-DDTHH:mm" splits at 'T' into the date and "HH:mm", and "HH:mm" at ':' into "HH" and "mm". */
  lemma MinuteStringSplit(s: string)
    requires |s| == 16 && AllDigits(s[..4]) && MinuteLayout(s[4..])
    ensures var p := Split(s, OneChar('T'));
            && |p| == 2 && p[1] == s[11..]
            && Split(p[1], OneChar(':')) == [s[11..13], s[14..16]]
            && AllDigits(s[11..13] + s[14..16])
            && DigitsValue(s[11..13] + s[14..16]) == 100 * Field2(s[4..], 7) + Field2(s[4..], 10)
  {
    MinuteStringAtT(s);
    MinuteStringClock(s);
  }

  lemma MinuteStringAtT(s: string)
    requires |s| == 16 && AllDigits(s[..4]) && MinuteLayout(s[4..])
    ensures Split(s, OneChar('T')) == [s[..10], s[11..]]
  {
    var rest := s[4..];
    assert forall k :: 0 <= k < 12 ==> s[4 + k] == rest[k];
    assert forall k :: 0 <= k < 4 ==> IsAsciiDigit(s[k]);
    var a, b := s[..10], s[11..];
    assert s == a + ['T'] + b;
    SplitTwo(a, b, 'T');
  }

  lemma MinuteStringClock(s: string)
    requires |s| == 16 && MinuteLayout(s[4..])
    ensures Split(s[11..], OneChar(':')) == [s[11..13], s[14..16]]
    ensures AllDigits(s[11..13] + s[14..16])
    ensures DigitsValue(s[11..13] + s[14..16]) == 100 * Field2(s[4..], 7) + Field2(s[4..], 10)
  {
    var rest := s[4..];
    assert forall k :: 0 <= k < 12 ==> s[4 + k] == rest[k];
    var h, m := s[11..13], s[14..16];
    assert s[13] == rest[9] == ':';
    assert s[11..] == h + [':'] + m;
    SplitTwo(h, m, ':');
    FourDigitsValue(h + m);
  }

  /**
   * `dateStringToDayAndTime(date)`. The empty string and 'Invalid date' give
   * {day: 0, time: 0}; otherwise `new Date(date)` (the parameter `parsed`) is
   * written with `toISOString`, which throws for an invalid date, and its
   * first 16 characters "YYYY-MM-DDTHH:mm" give the day through
   * `differenceInDays` and the time as the number "HHmm".
   */
  function DateStringToDayAndTime(date: string, parsed: JsNumber, z: Offset): (r: Outcome<DayAndTime>)
    requires parsed.Int? ==> FourDigitYear(parsed.v)
    ensures date == "" || date == "Invalid date" ==> r == Returns(DayAndTime(Int(0), Int(0)))
    ensures r == ThrowsRangeError <==> date != "" && date != "Invalid date" && parsed.NaN?
  {
    if date == "" || date == "Invalid date" then Returns(DayAndTime(Int(0), Int(0)))
    else if parsed.NaN? then ThrowsRangeError
    else
      IsoMinuteFields(parsed.v);
      MinuteStringSplit(IsoString(parsed.v)[..16]);
      IsoMinutePrefixParse(parsed.v, z, IsoString(parsed.v)[..16]);
      var dateTime := IsoString(parsed.v)[..16];
      var day := DifferenceInDays(dateTime, z);
      var time := ToNumber(Join(Split(Split(dateTime, OneChar('T'))[1], OneChar(':')), ""));
      Returns(DayAndTime(day.value, time))
  }

  /** A year of 0 to 9999 puts the day number within a few million days of 1970. */
  lemma FourDigitYearDays(n: int)
    requires 0 <= CivilFromDays(n).year <= 9999
    ensures -1_000_000 < n < 3_000_000
  {
    var z := n + EpochShift;
    YearOfEraBounds(z % 146097);
  }

  /** Truncating an instant to its minute stays within its day. */
  lemma TruncateToMinute(t: int)
    ensures 0 <= TimeWithinDay(t) - t % MsPerMinute < MsPerDay
    ensures t - t % MsPerMinute == Day(t) * MsPerDay + (TimeWithinDay(t) - t % MsPerMinute)
  {
    var q, r := Day(t), TimeWithinDay(t);
    assert t == q * MsPerDay + r;
    MinuteRemainder(t, q * 1440 + r / MsPerMinute, r % MsPerMinute);
  }

  /** Instants within one local day count the same days from 2000-01-01. */
  lemma DaysSince2000WithinDay(k: int, w: int, u: int, z: Offset)
    requires 0 <= w < MsPerDay && LocalTime(u, z) == k * MsPerDay + w
    ensures DaysSince2000(Int(u), z) == Int(k - EpochDay)
  {
    assert Day(k * MsPerDay + w) == k;
  }

  /** The instant of an ISO minute prefix read as local time counts the UTC days of the instant. */
  lemma TruncatedInstantDay(t: int, z: Offset)
    requires -1_000_000 < Day(t) < 3_000_000
    ensures InTimeRange(t - t % MsPerMinute - OffsetMs(z))
    ensures DaysSince2000(Int(t - t % MsPerMinute - OffsetMs(z)), z) == Int(Day(t) - EpochDay)
  {
    var u := t - t % MsPerMinute - OffsetMs(z);
    TruncateToMinute(t);
    var k, w := Day(t), TimeWithinDay(t) - t % MsPerMinute;
    assert LocalTime(u, z) == k * MsPerDay + w;
    DaysSince2000WithinDay(k, w, u, z);
  }

  /** The day of "YYYY-MM-DDTHH:mm" read as local time is the UTC day count from 2000-01-01. */
  lemma MinutePrefixDay(t: int, z: Offset)
    requires FourDigitYear(t)
    ensures |IsoString(t)| == 24
    ensures DifferenceInDays(IsoString(t)[..16], z) == Some(Int(Day(t) - EpochDay))
  {
    IsoMinutePrefixParse(t, z, IsoString(t)[..16]);
    FourDigitYearDays(Day(t));
    TruncatedInstantDay(t, z);
  }

  /** "HH:mm" with the colon removed reads as the number 100 * HH + mm. */
  lemma MinutePrefixTime(t: int)
    requires FourDigitYear(t)
    ensures |IsoString(t)| == 24
    ensures var s := IsoString(t)[..16];
            |Split(s, OneChar('T'))| >= 2
            && ToNumber(Join(Split(Split(s, OneChar('T'))[1], OneChar(':')), ""))
               == Int(100 * HourFromTime(t) + MinFromTime(t))
  {
    IsoMinuteFields(t);
    var s := IsoString(t)[..16];
    MinuteStringSplit(s);
    var hm := s[11..13] + s[14..16];
    assert Join([s[11..13], s[14..16]], "") == hm;
    ToNumberOfDigits(hm);
  }

  /**
   * For an instant whose UTC year has four digits, the day is the number of
   * UTC days since 2000-01-01 (the offset of the local-time parse cancels the
   * one of `new Date(2000, 0, 1)`), and the time is 100 * HH + mm in UTC.
   */
  lemma DayAndTimeOfInstant(date: string, t: int, z: Offset)
    requires date != "" && date != "Invalid date" && FourDigitYear(t)
    ensures DateStringToDayAndTime(date, Int(t), z)
            == Returns(DayAndTime(Int(Day(t) - EpochDay), Int(100 * HourFromTime(t) + MinFromTime(t))))
    ensures 0 <= 100 * HourFromTime(t) + MinFromTime(t) <= 2359
    ensures (100 * HourFromTime(t) + MinFromTime(t)) % 100 < 60
  {
    MinutePrefixDay(t, z);
    MinutePrefixTime(t);
    var s := IsoString(t)[..16];
    var day := DifferenceInDays(s, z);
    var time := ToNumber(Join(Split(Split(s, OneChar('T'))[1], OneChar(':')), ""));
    assert DateStringToDayAndTime(date, Int(t), z) == Returns(DayAndTime(day.value, time));
    TimeFieldsCompose(t);
    MilitaryBounds(HourFromTime(t), MinFromTime(t), 100 * HourFromTime(t) + MinFromTime(t));
  }

  lemma MilitaryBounds(h: int, m: int, v: int)
    requires 0 <= h < 24 && 0 <= m < 60 && v == 100 * h + m
    ensures 0 <= v <= 2359 && v % 100 == m
  {
  }

  // ---------------------------------------------------------------------
  // isValidDate
  // ---------------------------------------------------------------------

  /** `isValidDate(date)`: false for null, otherwise whether the time value is a number. */
  function IsValidDate(date: JsDate?): (r: bool)
    reads date
    ensures date == null ==> !r
    ensures date != null ==> (r <==> date.value.Int?)
  {
    date != null && !date.value.NaN?
  }

  // ---------------------------------------------------------------------
  // dateTimeFormatter and dateFormatter
  // ---------------------------------------------------------------------

  /** `s.slice(-2)`: the last two characters, or all of a shorter string. */
  function LastTwo(s: string): (r: string)
    ensures |r| == if |s| < 2 then |s| else 2
  {
    if |s| < 2 then s else s[|s| - 2..]
  }

  /** The last two digits of a year 0 or later read as the year modulo 100. */
  lemma LastTwoOfYear(y: nat)
    ensures var s := LastTwo(NatToString(y));
            s != [] && AllDigits(s) && DigitsValue(s) == y % 100
  {
    NatToStringCorrect(y);
    if y >= 10 {
      var u := NatToString(y / 10);
      assert NatToString(y) == u + [DigitChar(y % 10)];
      LastDigit(y / 10);
      TwoDigitsOfRemainder(y);
      assert LastTwo(NatToString(y)) == [u[|u| - 1], DigitChar(y % 10)];
      TwoDigitsCorrect(y % 100);
    }
  }

  /** The last character of `String(n)` is the digit of n modulo 10. */
  lemma LastDigit(n: nat)
    ensures |NatToString(n)| >= 1 && NatToString(n)[|NatToString(n)| - 1] == DigitChar(n % 10)
  {
  }

  /** The two digits of y modulo 100 are the tens and the units digit of y. */
  lemma TwoDigitsOfRemainder(y: nat)
    ensures TwoDigits(y % 100) == [DigitChar((y / 10) % 10), DigitChar(y % 10)]
  {
    var q, r := y / 100, y % 100;
    assert y == 100 * q + r;
    assert y / 10 == 10 * q + r / 10;
  }

  /** The two-character year text holds only digits and '-'. */
  lemma LastTwoNoSeparator(y: int, c: char)
    requires !IsAsciiDigit(c) && c != '-'
    ensures NoSeparator(LastTwo(IntToString(y)), OneChar(c))
  {
    NatToStringCorrect(if y < 0 then -y else y);
    var s := IntToString(y);
    assert forall i :: 0 <= i < |s| ==> IsAsciiDigit(s[i]) || s[i] == '-';
  }

  /** A string that starts with a digit is not "-". */
  lemma NotDash(a: string, b: string)
    requires |a| > 0 && IsAsciiDigit(a[0])
    ensures a + b != "-"
  {
    assert (a + b)[0] == a[0];
  }

  /**
   * `dateTimeFormatter(date)`: "-" for the empty string and for an invalid
   * date; otherwise "M/D/YY hh:mm AM" in local time, the year being the last
   * two characters of `String(getFullYear())`.
   */
  function DateTimeFormatter(date: string, parsed: JsNumber, z: Offset): (r: string)
    ensures r == "-" <==> date == "" || parsed.NaN?
  {
    if date == "" || parsed.NaN? then "-"
    else
      var d := LocalDate(parsed.v, z);
      var m := NatToString(d.month);
      NatToStringCorrect(d.month);
      var rest := "/" + NatToString(d.day) + "/" + LastTwo(IntToString(d.year)) + " " + LocaleTimeString(parsed.v, z);
      NotDash(m, rest);
      m + rest
  }

  /** `dateFormatter(date)`: "-" for the empty string, otherwise `toLocaleDateString()`, "Invalid Date" included. */
  function DateFormatter(date: string, parsed: JsNumber, z: Offset): (r: string)
    ensures date == "" ==> r == "-"
    ensures date != "" ==> r == LocaleDateString(parsed, z)
    ensures r == "-" <==> date == ""
  {
    if |date| > 0 then
      NotDashLocale(parsed, z);
      LocaleDateString(parsed, z)
    else "-"
  }

  lemma NotDashLocale(t: JsNumber, z: Offset)
    ensures LocaleDateString(t, z) != "-"
  {
    if t.NaN? {
      assert LocaleDateString(t, z) == "Invalid Date";
      assert |"Invalid Date"| != 1;
    } else {
      var d := LocalDate(t.v, z);
      NatToStringCorrect(d.month);
      NotDash(NatToString(d.month), "/" + NatToString(d.day) + "/" + NatToString(EraYear(d.year)));
    }
  }
}
