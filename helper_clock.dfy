/**
 * The helpers of plugins/helper.ts that combine a day with a time of day and
 * convert between zones: `convertDayAndTimeToTargetTimeZone`,
 * `utcTimeToTimezone`, `getDateFromUtcDaysWithTime`, `convertToDateTimeUTC`
 * and `localTimeToNumber`. Zones, the host's and the target, are fixed
 * offsets; strings that moment parses arrive already parsed.
 */
module HelperClock {
  import opened JsText
  import opened JsNumbers
  import opened Calendar
  import opened TimeValues
  import opened DateStrings
  import opened HelperText
  import opened HelperDays

  // ---------------------------------------------------------------------
  // Wall-clock arithmetic
  // ---------------------------------------------------------------------

  /** The fields of a wall clock w that is k days, h hours and m minutes after the epoch. */
  lemma WallClockFields(w: int, k: int, h: int, m: int)
    requires 0 <= h < 24 && 0 <= m < 60
    requires w == k * MsPerDay + h * MsPerHour + m * MsPerMinute
    ensures Day(w) == k && TimeWithinDay(w) == h * MsPerHour + m * MsPerMinute
    ensures HourFromTime(w) == h && MinFromTime(w) == m
    ensures SecFromTime(w) == 0 && MsFromTime(w) == 0
  {
    TimeFieldsOf(w, k, h, m, 0, 0);
  }

  /** One day later on the wall clock: the same hour and minute of the next day number. */
  lemma ShiftByDay(w: int)
    ensures Day(w + MsPerDay) == Day(w) + 1
    ensures HourFromTime(w + MsPerDay) == HourFromTime(w) && MinFromTime(w + MsPerDay) == MinFromTime(w)
  {
    assert (w + MsPerDay) / MsPerMinute == w / MsPerMinute + 1440;
  }

  /** One day later on the wall clock: the next civil date, at the same hour and minute. */
  lemma WallClockNextDay(w: int)
    ensures ValidDate(DateOf(w))
    ensures DateOf(w + MsPerDay) == NextDay(DateOf(w))
    ensures HourFromTime(w + MsPerDay) == HourFromTime(w) && MinFromTime(w + MsPerDay) == MinFromTime(w)
  {
    ShiftByDay(w);
    CivilFromDaysCorrect(Day(w));
    CivilFromDaysNext(Day(w));
  }

  /** A wall clock renders as its civil date, hour and minute. */
  lemma MomentFormatFields(w: int, k: int, h: int, m: int)
    requires 0 <= h < 24 && 0 <= m < 60
    requires w == k * MsPerDay + h * MsPerHour + m * MsPerMinute
    ensures ValidDate(CivilFromDays(k))
    ensures MomentFormat(w) == MomentDateTime(CivilFromDays(k), h, m)
  {
    WallClockFields(w, k, h, m);
    CivilFromDaysCorrect(k);
  }

  /** `moment.tz(date, zone).format('YYYY-MM-DDTHH:mm')`: the instant's wall clock in the zone, or "Invalid date". */
  function MomentTzFormat(t: JsNumber, target: Offset): (r: string)
    ensures t.NaN? ==> r == "Invalid date"
  {
    if t.NaN? then "Invalid date" else MomentFormat(LocalTime(t.v, target))
  }

  // ---------------------------------------------------------------------
  // Reading numbers out of split strings
  // ---------------------------------------------------------------------

  /** `Number(parts[i])`, where a missing part is `undefined` and becomes NaN. */
  function NumberAt(parts: seq<string>, i: nat): (r: JsNumber)
    ensures i >= |parts| ==> r == NaN
    ensures i < |parts| ==> r == ToNumber(parts[i])
  {
    if i < |parts| then ToNumber(parts[i]) else NaN
  }

  /** A digit string holds no separator other than a digit. */
  lemma DigitsNoSeparator(s: string, c: char)
    requires AllDigits(s) && !IsAsciiDigit(c)
    ensures NoSeparator(s, OneChar(c))
  {
  }

  /** A digit string holds neither ':' nor white space. */
  lemma DigitsNoColonOrSpace(s: string)
    requires AllDigits(s)
    ensures NoSeparator(s, ColonOrSpace)
  {
  }

  /** Three digit strings joined by '/' split back into their numbers. */
  lemma SlashParts(a: string, b: string, c: string)
    requires a != [] && b != [] && c != [] && AllDigits(a) && AllDigits(b) && AllDigits(c)
    ensures var p := Split(a + "/" + b + "/" + c, OneChar('/'));
            && |p| == 3
            && ToNumber(p[0]) == Int(DigitsValue(a)) && ToNumber(p[1]) == Int(DigitsValue(b))
            && ToNumber(p[2]) == Int(DigitsValue(c))
  {
    DigitsNoSeparator(a, '/');
    DigitsNoSeparator(b, '/');
    DigitsNoSeparator(c, '/');
    SplitThree(a, '/', b, '/', c, OneChar('/'));
    ToNumberOfDigits(a);
    ToNumberOfDigits(b);
    ToNumberOfDigits(c);
  }

  /** "M/D/Y" splits at '/' into its three numbers. */
  lemma SlashDateParts(m: nat, d: nat, y: nat)
    ensures var p := Split(NatToString(m) + "/" + NatToString(d) + "/" + NatToString(y), OneChar('/'));
            && |p| == 3
            && ToNumber(p[0]) == Int(m) && ToNumber(p[1]) == Int(d) && ToNumber(p[2]) == Int(y)
  {
    NatToStringCorrect(m);
    NatToStringCorrect(d);
    NatToStringCorrect(y);
    SlashParts(NatToString(m), NatToString(d), NatToString(y));
  }

  /** `toLocaleDateString()` splits at '/' back into the month, the day and the era year. */
  lemma LocaleDateStringParts(t: int, z: Offset)
    ensures var d := LocalDate(t, z);
            var p := Split(LocaleDateString(Int(t), z), OneChar('/'));
            && |p| == 3
            && ToNumber(p[0]) == Int(d.month) && ToNumber(p[1]) == Int(d.day)
            && ToNumber(p[2]) == Int(EraYear(d.year))
  {
    var d := LocalDate(t, z);
    var a, b, c := NatToString(d.month), NatToString(d.day), NatToString(EraYear(d.year));
    LocaleDateStringOfDate(Int(t), z, d);
    assert a + ("/" + b + "/" + c) == a + "/" + b + "/" + c;
    SlashDateParts(d.month, d.day, EraYear(d.year));
  }

  // ---------------------------------------------------------------------
  // convertDayAndTimeToTargetTimeZone
  // ---------------------------------------------------------------------

  /**
   * `convertDayAndTimeToTargetTimeZone(day, militaryTime, targetTimeZone)`:
   * null for a null or zero day; otherwise the "M/D/Y" text of
   * `getDateFromDays(day)` is split at '/' and read back as numbers
   * (`DateTimeOfParts`).
   */
  function ConvertDayAndTimeToTargetTimeZone(day: Option<JsNumber>, militaryTime: JsNumber,
                                             target: Offset, z: Offset): (r: Option<string>)
    ensures r.None? <==> day.None? || day.value == Int(0)
  {
    if day.None? || day.value == Int(0) then None
    else
      var startDate := LocaleDateString(DayOffsetValue(day.value, z), z);
      Some(DateTimeOfParts(Split(startDate, OneChar('/')), militaryTime, target, z))
  }

  /**
   * The rest of `convertDayAndTimeToTargetTimeZone`: month, day and year are
   * `Number` of the parts, the military time gives `Math.floor(t / 100)` hours
   * and `t % 100` minutes, `new Date(...)` reads them as host-local time, and
   * moment writes that instant's wall clock in the target zone.
   */
  function DateTimeOfParts(parts: seq<string>, militaryTime: JsNumber, target: Offset, z: Offset): (r: string)
    ensures militaryTime.NaN? || |parts| < 3 ==> r == "Invalid date"
  {
    var month, dayOfMonth, year := NumberAt(parts, 0), NumberAt(parts, 1), NumberAt(parts, 2);
    var hours := if militaryTime.NaN? then NaN else Int(militaryTime.v / 100);
    var minutes := if militaryTime.NaN? then NaN else Int(JsRem(militaryTime.v, 100));
    var localTime := LocalDateValue(z, year, Add(month, Int(-1)), dayOfMonth, hours, minutes);
    MomentTzFormat(localTime, target)
  }

  /** The instant at the given military time of local day 2000-01-01 + d. */
  function DayAndTimeInstant(d: int, t: int, z: Offset): int {
    (EpochDay + d) * MsPerDay + (t / 100) * MsPerHour + (t % 100) * MsPerMinute - OffsetMs(z)
  }

  /** The month, day and year that the date text of a day offset splits into, when that year has at least three digits. */
  lemma DayOffsetFields(d: int, z: Offset) returns (y: int, mo: int, dd: int)
    requires DayOffsetValue(Int(d), z).Int?
    requires CivilFromDays(EpochDay + d).year >= 100
    ensures var p := Split(LocaleDateString(DayOffsetValue(Int(d), z), z), OneChar('/'));
            && |p| == 3 && ToNumber(p[0]) == Int(mo) && ToNumber(p[1]) == Int(dd) && ToNumber(p[2]) == Int(y)
    ensures MakeDay(MakeFullYear(Int(y)), Int(mo - 1), Int(dd)) == Int(EpochDay + d)
  {
    var date := CivilFromDays(EpochDay + d);
    var v := DayOffsetValue(Int(d), z).v;
    DayOffsetLocalDate(d, z);
    LocaleDateStringParts(v, z);
    CivilFromDaysCorrect(EpochDay + d);
    MakeDayOfDate(date);
    y, mo, dd := date.year, date.month, date.day;
  }

  /** The conversion once the date text has been read back as a year, a month and a day of day offset d. */
  lemma DateTimeOfPartsValue(parts: seq<string>, t: int, target: Offset, z: Offset, y: int, mo: int, dd: int, d: int)
    requires IsMilitaryTime(t)
    requires |parts| == 3 && ToNumber(parts[0]) == Int(mo) && ToNumber(parts[1]) == Int(dd) && ToNumber(parts[2]) == Int(y)
    requires MakeDay(MakeFullYear(Int(y)), Int(mo - 1), Int(dd)) == Int(EpochDay + d)
    requires InTimeRange(DayAndTimeInstant(d, t, z))
    ensures DateTimeOfParts(parts, Int(t), target, z) == MomentTzFormat(Int(DayAndTimeInstant(d, t, z)), target)
  {
    LocalDateValueOfDay(y, mo, dd, EpochDay + d, t, z);
  }

  /** `new Date(y, m - 1, d, hours, minutes)` for a date whose day number is k. */
  lemma LocalDateValueOfDay(y: int, mo: int, dd: int, k: int, t: int, z: Offset)
    requires MakeDay(MakeFullYear(Int(y)), Int(mo - 1), Int(dd)) == Int(k) && IsMilitaryTime(t)
    requires InTimeRange(k * MsPerDay + (t / 100) * MsPerHour + (t % 100) * MsPerMinute - OffsetMs(z))
    ensures LocalDateValue(z, Int(y), Add(Int(mo), Int(-1)), Int(dd), Int(t / 100), Int(JsRem(t, 100)))
            == Int(k * MsPerDay + (t / 100) * MsPerHour + (t % 100) * MsPerMinute - OffsetMs(z))
  {
  }

  /**
   * For a valid military time on a day whose year has at least three digits,
   * the result is moment's rendering, in the target zone, of the instant that
   * is that time on that day in the host zone.
   */
  lemma ConvertDayAndTimeInstant(d: int, t: int, target: Offset, z: Offset)
    requires d != 0 && DayOffsetValue(Int(d), z).Int? && IsMilitaryTime(t)
    requires CivilFromDays(EpochDay + d).year >= 100
    requires InTimeRange(DayAndTimeInstant(d, t, z))
    ensures ConvertDayAndTimeToTargetTimeZone(Some(Int(d)), Int(t), target, z)
            == Some(MomentTzFormat(Int(DayAndTimeInstant(d, t, z)), target))
  {
    var y, mo, dd := DayOffsetFields(d, z);
    ConvertDayAndTimeOfDate(d, t, target, z, y, mo, dd);
  }

  /** The conversion once the day offset's date text is known to split into month, day and year. */
  lemma ConvertDayAndTimeOfDate(d: int, t: int, target: Offset, z: Offset, y: int, mo: int, dd: int)
    requires d != 0 && IsMilitaryTime(t)
    requires var p := Split(LocaleDateString(DayOffsetValue(Int(d), z), z), OneChar('/'));
             |p| == 3 && ToNumber(p[0]) == Int(mo) && ToNumber(p[1]) == Int(dd) && ToNumber(p[2]) == Int(y)
    requires MakeDay(MakeFullYear(Int(y)), Int(mo - 1), Int(dd)) == Int(EpochDay + d)
    requires InTimeRange(DayAndTimeInstant(d, t, z))
    ensures ConvertDayAndTimeToTargetTimeZone(Some(Int(d)), Int(t), target, z)
            == Some(MomentTzFormat(Int(DayAndTimeInstant(d, t, z)), target))
  {
    var p := Split(LocaleDateString(DayOffsetValue(Int(d), z), z), OneChar('/'));
    DateTimeOfPartsValue(p, t, target, z, y, mo, dd, d);
  }

  /** With the target zone equal to the host's, the result is the day offset's date at the military time. */
  lemma ConvertDayAndTimeSameZone(d: int, t: int, z: Offset)
    requires d != 0 && DayOffsetValue(Int(d), z).Int? && IsMilitaryTime(t)
    requires CivilFromDays(EpochDay + d).year >= 100
    requires InTimeRange(DayAndTimeInstant(d, t, z))
    ensures ValidDate(CivilFromDays(EpochDay + d))
    ensures ConvertDayAndTimeToTargetTimeZone(Some(Int(d)), Int(t), z, z)
            == Some(MomentDateTime(CivilFromDays(EpochDay + d), t / 100, t % 100))
  {
    ConvertDayAndTimeInstant(d, t, z, z);
    MomentTzFormatSameZone(DayAndTimeInstant(d, t, z), EpochDay + d, t / 100, t % 100, z);
  }

  /** An instant read and written in the same zone shows the wall clock it was built from. */
  lemma MomentTzFormatSameZone(v: int, k: int, h: int, m: int, z: Offset)
    requires 0 <= h < 24 && 0 <= m < 60
    requires v == k * MsPerDay + h * MsPerHour + m * MsPerMinute - OffsetMs(z)
    ensures ValidDate(CivilFromDays(k))
    ensures MomentTzFormat(Int(v), z) == MomentDateTime(CivilFromDays(k), h, m)
  {
    var w := LocalTime(v, z);
    assert w == k * MsPerDay + h * MsPerHour + m * MsPerMinute;
    MomentFormatFields(w, k, h, m);
  }

  // ---------------------------------------------------------------------
  // utcTimeToTimezone
  // ---------------------------------------------------------------------

  /**
   * `utcTimeToTimezone(utcTimeString, targetTimeZone)`: null for the empty
   * string; otherwise the instant moment parsed (`parsed`) is moved to the
   * target zone, a wall clock in the 17:00 hour is moved on by one day (the
   * minute test of the source holds for every minute), and the result is
   * written as "YYYY-MM-DDTHH:mm"; an unparsable string gives "Invalid date".
   */
  function UtcTimeToTimezone(utcTimeString: string, parsed: JsNumber, target: Offset): (r: Option<string>)
    ensures r.None? <==> utcTimeString == ""
    ensures utcTimeString != "" && parsed.NaN? ==> r == Some("Invalid date")
  {
    if |utcTimeString| == 0 then None
    else if parsed.NaN? then Some("Invalid date")
    else Some(MomentFormat(FivePmNextDay(parsed.v + OffsetMs(target))))
  }

  /** The wall clock after the 17:00 test: a wall clock in the 17:00 hour moves one day on. */
  function FivePmNextDay(wall: int): (r: int)
    ensures HourFromTime(wall) == 17 ==> r == wall + MsPerDay
    ensures HourFromTime(wall) != 17 ==> r == wall
  {
    if HourFromTime(wall) == 17 then wall + MsPerDay else wall
  }

  /**
   * The result shows the target zone's hour and minute; the date is the
   * target zone's date, or the next calendar date exactly when the hour is 17.
   */
  lemma UtcTimeToTimezoneFields(utcTimeString: string, t: int, target: Offset)
    requires utcTimeString != ""
    ensures var w := LocalTime(t, target);
            && ValidDate(DateOf(w)) && 0 <= HourFromTime(w) < 24 && 0 <= MinFromTime(w) < 60
            && UtcTimeToTimezone(utcTimeString, Int(t), target)
               == Some(MomentDateTime(if HourFromTime(w) == 17 then NextDay(DateOf(w)) else DateOf(w),
                                      HourFromTime(w), MinFromTime(w)))
  {
    var w := LocalTime(t, target);
    UtcTimeToTimezoneWall(utcTimeString, t, target);
    MomentFormatOfWall(w);
    if HourFromTime(w) == 17 {
      MomentFormatNextDay(w, FivePmNextDay(w));
    }
  }

  /** In the 17:00 hour the wall clock moves one day on: the next date, the same hour and minute. */
  lemma UtcTimeToTimezoneShifted(utcTimeString: string, t: int, target: Offset)
    requires utcTimeString != "" && HourFromTime(LocalTime(t, target)) == 17
    ensures var w := LocalTime(t, target);
            && ValidDate(DateOf(w)) && 0 <= MinFromTime(w) < 60
            && UtcTimeToTimezone(utcTimeString, Int(t), target)
               == Some(MomentDateTime(NextDay(DateOf(w)), 17, MinFromTime(w)))
  {
    var w := LocalTime(t, target);
    UtcTimeToTimezoneWall(utcTimeString, t, target);
    MomentFormatNextDay(w, FivePmNextDay(w));
  }

  /** A readable input is written as the wall clock of the target zone after the 17:00 test. */
  lemma UtcTimeToTimezoneWall(utcTimeString: string, t: int, target: Offset)
    requires utcTimeString != ""
    ensures UtcTimeToTimezone(utcTimeString, Int(t), target) == Some(MomentFormat(FivePmNextDay(LocalTime(t, target))))
  {
  }

  /** One day later, the wall clock shows the next date at the same hour and minute. */
  lemma MomentFormatNextDay(w: int, next: int)
    requires next == w + MsPerDay
    ensures ValidDate(DateOf(w)) && 0 <= HourFromTime(w) < 24 && 0 <= MinFromTime(w) < 60
    ensures MomentFormat(next) == MomentDateTime(NextDay(DateOf(w)), HourFromTime(w), MinFromTime(w))
  {
    WallClockNextDay(w);
    MomentFormatOfWall(next);
  }

  /** `format('YYYY-MM-DDTHH:mm')` of a wall clock shows its date, hour and minute. */
  lemma MomentFormatOfWall(w: int)
    ensures ValidDate(DateOf(w)) && 0 <= HourFromTime(w) < 24 && 0 <= MinFromTime(w) < 60
    ensures MomentFormat(w) == MomentDateTime(DateOf(w), HourFromTime(w), MinFromTime(w))
  {
    CivilFromDaysCorrect(Day(w));
  }

  // ---------------------------------------------------------------------
  // getDateFromUtcDaysWithTime
  // ---------------------------------------------------------------------

  /**
   * The hour `getDateFromUtcDaysWithTime` passes to `setHours`: a PM hour
   * below 12 gains 12, 12 AM becomes 0, every other hour stays.
   */
  function AdjustedHour(hours: JsNumber, meridiem: Option<string>): (r: JsNumber)
    ensures r.NaN? <==> hours.NaN?
    ensures meridiem != Some("AM") && meridiem != Some("PM") ==> r == hours
    ensures hours.Int? && hours.v > 12 ==> r == hours
  {
    if meridiem == Some("PM") && hours.Int? && hours.v < 12 then Int(hours.v + 12)
    else if meridiem == Some("AM") && hours == Int(12) then Int(0)
    else hours
  }

  /** On the 12-hour clock's hours and periods, the adjustment undoes `Hour12` and `DayPeriod`. */
  lemma AdjustedHourOfTwelveHourClock(h: int)
    requires 0 <= h < 24
    ensures AdjustedHour(Int(Hour12(h)), Some(DayPeriod(h))) == Int(h)
  {
  }

  /** The time `getDateFromUtcDaysWithTime` uses: '00:00 AM' for null and for blank text. */
  function EffectiveTimeOfDay(timeOfDay: Option<string>): (r: string)
    ensures timeOfDay.None? || Trim(timeOfDay.value) == "" ==> r == "00:00 AM"
    ensures timeOfDay.Some? && Trim(timeOfDay.value) != "" ==> r == timeOfDay.value
  {
    if timeOfDay.None? || Trim(timeOfDay.value) == "" then "00:00 AM" else timeOfDay.value
  }

  /**
   * The hour and minute `getDateFromUtcDaysWithTime` reads from its time:
   * the text is split at ':' and white space, the first two parts go through
   * `parseInt` (a missing minute is NaN), and the third is the meridiem.
   */
  function TwelveHourClock(timeOfDay: string): (r: (JsNumber, JsNumber))
    ensures NoSeparator(timeOfDay, ColonOrSpace) ==> r == (ParseInt(timeOfDay), NaN)
  {
    SplitWholeWhen(timeOfDay, ColonOrSpace);
    var parts := Split(timeOfDay, ColonOrSpace);
    var meridiem := if |parts| > 2 then Some(parts[2]) else None;
    (AdjustedHour(ParseInt(parts[0]), meridiem), if |parts| > 1 then ParseInt(parts[1]) else NaN)
  }

  /** "H:MM P" reads back as the adjusted hour and the minute. */
  lemma TwelveHourClockOf(hourText: string, mm: nat, period: string)
    requires hourText != [] && AllDigits(hourText) && mm < 100
    requires NoSeparator(period, ColonOrSpace)
    ensures TwelveHourClock(hourText + ":" + TwoDigits(mm) + " " + period)
            == (AdjustedHour(Int(DigitsValue(hourText)), Some(period)), Int(mm))
  {
    var m := TwoDigits(mm);
    DigitsNoColonOrSpace(hourText);
    DigitsNoColonOrSpace(m);
    SplitThree(hourText, ':', m, ' ', period, ColonOrSpace);
    ParseIntOfDigits(hourText);
    ParseIntOfDigits(m);
    TwoDigitsCorrect(mm);
  }

  /** "AM" and "PM" hold no separator. */
  lemma PeriodNoSeparator(h: int)
    ensures NoSeparator(DayPeriod(h), ColonOrSpace) && NoSeparator(DayPeriod(h), OneChar(' '))
  {
  }

  /**
   * The en-US "hh:mm AM" text of an instant splits at ':' and white space into
   * the two-digit 12-hour hour, the two-digit minute and the period, and reads
   * back, as `getDateFromUtcDaysWithTime` reads a time, as the local hour and minute.
   */
  lemma LocaleTimeStringParts(t: int, z: Offset)
    ensures var w := LocalTime(t, z);
            && 0 <= HourFromTime(w) < 24 && 0 <= MinFromTime(w) < 60
            && Split(LocaleTimeString(t, z), ColonOrSpace)
               == [TwoDigits(Hour12(HourFromTime(w))), TwoDigits(MinFromTime(w)), DayPeriod(HourFromTime(w))]
            && TwelveHourClock(LocaleTimeString(t, z)) == (Int(HourFromTime(w)), Int(MinFromTime(w)))
  {
    var w := LocalTime(t, z);
    TimeFieldsCompose(w);
    var h := HourFromTime(w);
    var a, b, p := TwoDigits(Hour12(h)), TwoDigits(MinFromTime(w)), DayPeriod(h);
    assert LocaleTimeString(t, z) == a + ":" + b + " " + p;
    DigitsNoColonOrSpace(a);
    DigitsNoColonOrSpace(b);
    PeriodNoSeparator(h);
    SplitThree(a, ':', b, ' ', p, ColonOrSpace);
    TwelveHourClockOf(a, MinFromTime(w), p);
    TwoDigitsCorrect(Hour12(h));
    AdjustedHourOfTwelveHourClock(h);
  }

  /**
   * `dateTimeFormatter` of a valid date splits at ' ' into "M/D/YY", "hh:mm" and
   * the period. The date part reads back as the local month, day and, for years
   * 0 and later, the year modulo 100; the time reads back as the local hour and minute.
   */
  lemma DateTimeFormatterFields(date: string, t: int, z: Offset)
    requires date != ""
    ensures var d, w := LocalDate(t, z), LocalTime(t, z);
            var p := Split(DateTimeFormatter(date, Int(t), z), OneChar(' '));
            && |p| == 3
            && TwelveHourClock(p[1] + " " + p[2]) == (Int(HourFromTime(w)), Int(MinFromTime(w)))
            && var q := Split(p[0], OneChar('/'));
               && |q| == 3 && ToNumber(q[0]) == Int(d.month) && ToNumber(q[1]) == Int(d.day)
               && (d.year >= 0 ==> ToNumber(q[2]) == Int(d.year % 100))
  {
    var d := LocalDate(t, z);
    var m, dd, yy := NatToString(d.month), NatToString(d.day), LastTwo(IntToString(d.year));
    assert DateTimeFormatter(date, Int(t), z) == m + ("/" + dd + "/" + yy + " " + LocaleTimeString(t, z));
    NatToStringCorrect(d.month);
    NatToStringCorrect(d.day);
    FormattedTextSplit(m, dd, yy, d.year, t, z);
    DateTextParts(m, dd, yy, d.month, d.day, d.year);
  }

  /** "M/D/YY hh:mm AM" splits at ' ' into the date, the clock and the period, and the time reads back. */
  lemma FormattedTextSplit(m: string, dd: string, yy: string, year: int, t: int, z: Offset)
    requires AllDigits(m) && AllDigits(dd) && yy == LastTwo(IntToString(year))
    ensures var w := LocalTime(t, z);
            var p := Split(m + ("/" + dd + "/" + yy + " " + LocaleTimeString(t, z)), OneChar(' '));
            && |p| == 3 && p[0] == m + "/" + dd + "/" + yy
            && TwelveHourClock(p[1] + " " + p[2]) == (Int(HourFromTime(w)), Int(MinFromTime(w)))
  {
    var w := LocalTime(t, z);
    LocaleTimeStringParts(t, z);
    var h := HourFromTime(w);
    var a, b, per := TwoDigits(Hour12(h)), TwoDigits(MinFromTime(w)), DayPeriod(h);
    assert LocaleTimeString(t, z) == a + ":" + b + " " + per;
    PeriodNoSeparator(h);
    LastTwoNoSeparator(year, ' ');
    FormattedPartsSplit(m, dd, yy, a, b, per);
  }

  /** "M/D/YY hh:mm P" splits at ' ' into the date, the clock and the period. */
  lemma FormattedPartsSplit(m: string, dd: string, yy: string, a: string, b: string, per: string)
    requires AllDigits(m) && AllDigits(dd) && NoSeparator(yy, OneChar(' '))
    requires AllDigits(a) && AllDigits(b) && NoSeparator(per, OneChar(' '))
    ensures var p := Split(m + ("/" + dd + "/" + yy + " " + (a + ":" + b + " " + per)), OneChar(' '));
            && |p| == 3 && p[0] == m + "/" + dd + "/" + yy
            && p[1] + " " + p[2] == a + ":" + b + " " + per
  {
    var x, c := m + "/" + dd + "/" + yy, a + [':'] + b;
    assert NoSeparator(x, OneChar(' ')) by {
      DateTextNoSpace(m, dd, yy);
    }
    assert NoSeparator(c, OneChar(' ')) by {
      ClockNoSpace(a, b);
    }
    SplitThree(x, ' ', c, ' ', per, OneChar(' '));
    FormattedTextShape(m, dd, yy, a, b, per);
    var p := Split(m + ("/" + dd + "/" + yy + " " + (a + ":" + b + " " + per)), OneChar(' '));
    assert p == [x, c, per];
    assert p[1] + " " + p[2] == c + " " + per;
  }

  /** "hh:mm" holds no space. */
  lemma ClockNoSpace(a: string, b: string)
    requires AllDigits(a) && AllDigits(b)
    ensures NoSeparator(a + [':'] + b, OneChar(' '))
  {
    DigitsNoSeparator(a, ' ');
    DigitsNoSeparator(b, ' ');
    NoSeparatorConcat(a, [':'], OneChar(' '));
    NoSeparatorConcat(a + [':'], b, OneChar(' '));
  }

  /** The formatter's text regrouped around its two spaces. */
  lemma FormattedTextShape(m: string, dd: string, yy: string, a: string, b: string, per: string)
    ensures m + ("/" + dd + "/" + yy + " " + (a + ":" + b + " " + per))
            == (m + "/" + dd + "/" + yy) + [' '] + (a + [':'] + b) + [' '] + per
    ensures (a + [':'] + b) + " " + per == a + ":" + b + " " + per
  {
  }

  /** "M/D/YY" holds no space. */
  lemma DateTextNoSpace(m: string, dd: string, yy: string)
    requires AllDigits(m) && AllDigits(dd) && NoSeparator(yy, OneChar(' '))
    ensures NoSeparator(m + "/" + dd + "/" + yy, OneChar(' '))
  {
    DigitsNoSeparator(m, ' ');
    DigitsNoSeparator(dd, ' ');
    NoSeparatorConcat(m, "/", OneChar(' '));
    NoSeparatorConcat(m + "/", dd, OneChar(' '));
    NoSeparatorConcat(m + "/" + dd, "/", OneChar(' '));
    NoSeparatorConcat(m + "/" + dd + "/", yy, OneChar(' '));
  }

  /** "M/D/YY" splits at '/' into the month, the day and the year modulo 100. */
  lemma DateTextParts(m: string, dd: string, yy: string, month: nat, day: nat, year: int)
    requires m == NatToString(month) && dd == NatToString(day) && yy == LastTwo(IntToString(year))
    ensures var q := Split(m + "/" + dd + "/" + yy, OneChar('/'));
            && |q| == 3 && ToNumber(q[0]) == Int(month) && ToNumber(q[1]) == Int(day)
            && (year >= 0 ==> ToNumber(q[2]) == Int(year % 100))
  {
    NatToStringCorrect(month);
    NatToStringCorrect(day);
    DigitsNoSeparator(m, '/');
    DigitsNoSeparator(dd, '/');
    LastTwoNoSeparator(year, '/');
    SplitThree(m, '/', dd, '/', yy, OneChar('/'));
    ToNumberOfDigits(m);
    ToNumberOfDigits(dd);
    if year >= 0 {
      LastTwoOfYear(year);
      ToNumberOfDigits(yy);
    }
  }

  /** The 12-hour text of a military time reads back as that time's hour and minute. */
  lemma TwelveHourClockOfMilitary(t: int)
    requires IsMilitaryTime(t)
    ensures TwelveHourClock(MilitaryToRegularTime(Int(t))) == (Int(t / 100), Int(t % 100))
  {
    MilitaryToRegularTimeShape(t);
    NatToStringCorrect(Hour12(t / 100));
    PeriodNoSeparator(t / 100);
    TwelveHourClockOf(NatToString(Hour12(t / 100)), t % 100, DayPeriod(t / 100));
    AdjustedHourOfTwelveHourClock(t / 100);
  }

  /** The default '00:00 AM' is midnight. */
  lemma DefaultTimeOfDay(defaultTime: string)
    requires defaultTime == "00:00 AM"
    ensures EffectiveTimeOfDay(None) == defaultTime
    ensures TwelveHourClock(defaultTime) == (Int(0), Int(0))
  {
    var zero := TwoDigits(0);
    assert zero == "00";
    assert defaultTime == zero + ":" + TwoDigits(0) + " " + "AM";
    assert NoSeparator("AM", ColonOrSpace);
    TwelveHourClockOf(zero, 0, "AM");
    assert DigitsValue(zero) == 0 by {
      TwoDigitsCorrect(0);
    }
  }

  /**
   * `getDateFromUtcDaysWithTime(days, timeOfDay)`: local midnight `days` days
   * after 2000-01-01, set to the time of day, printed as "MM/DD/Y".
   */
  method GetDateFromUtcDaysWithTime(days: JsNumber, timeOfDay: Option<string>, z: Offset) returns (r: string)
    ensures var clock := TwelveHourClock(EffectiveTimeOfDay(timeOfDay));
            r == LocaleDateStringTwoDigit(SetHoursValue(DayOffsetValue(days, z), clock.0, clock.1, z), z)
  {
    // Reading the time touches no date, so it is done first here.
    var (adjustedHours, minutes) := TwelveHourClock(EffectiveTimeOfDay(timeOfDay));
    var startDate := new JsDate(z, Int(2000), Int(0), Int(1), Int(0), Int(0));
    StartOf2000(z);
    StartOf2000Date(z);
    startDate.SetDate(Add(startDate.GetDate(), days));
    SetDateFromStart(days, z);
    startDate.SetHours(adjustedHours, minutes);
    r := LocaleDateStringTwoDigit(startDate.GetTime(), z);
  }

  /** Setting a valid hour and minute on local midnight of a day offset keeps its date. */
  lemma SetHoursKeepsDate(d: int, h: int, m: int, z: Offset)
    requires DayLow(z) <= d < DayHigh(z) && 0 <= h < 24 && 0 <= m < 60
    ensures DayOffsetValue(Int(d), z).Int?
    ensures var v := SetHoursValue(DayOffsetValue(Int(d), z), Int(h), Int(m), z);
            && v.Int? && LocalDate(v.v, z) == CivilFromDays(EpochDay + d)
            && LocaleDateStringTwoDigit(v, z) == LocaleDateStringTwoDigit(DayOffsetValue(Int(d), z), z)
  {
    DayOffsetInRange(d, z);
    DayOffsetInRange(d + 1, z);
    DayOffsetLocalDate(d, z);
    var k := EpochDay + d;
    WallClockFields(k * MsPerDay, k, 0, 0);
    WallClockFields(k * MsPerDay + h * MsPerHour + m * MsPerMinute, k, h, m);
    var v := SetHoursValue(DayOffsetValue(Int(d), z), Int(h), Int(m), z);
    var w := k * MsPerDay + h * MsPerHour + m * MsPerMinute;
    assert v == Int(w - OffsetMs(z));
    LocalDateOfWall(v.v, z, k, w);
  }

  /** The local date of an instant whose wall clock falls on day number k is that day's date. */
  lemma LocalDateOfWall(u: int, z: Offset, k: int, w: int)
    requires u == w - OffsetMs(z) && Day(w) == k
    ensures LocalDate(u, z) == CivilFromDays(k)
  {
    assert LocalTime(u, z) == w;
  }

  /**
   * Whatever time of day is used, "hh:mm P" with an hour below 24 (zero-padded
   * or not, so the default '00:00 AM' too) and a minute below 60, the printed
   * date is the day offset's date: the time never changes the day.
   */
  lemma GetDateFromUtcDaysWithTimeDate(d: int, timeOfDay: Option<string>, hh: string, mm: nat, period: string,
                                       z: Offset)
    requires DayLow(z) <= d < DayHigh(z)
    requires hh != [] && AllDigits(hh) && DigitsValue(hh) < 24 && mm < 60 && NoSeparator(period, ColonOrSpace)
    requires EffectiveTimeOfDay(timeOfDay) == hh + ":" + TwoDigits(mm) + " " + period
    ensures var clock := TwelveHourClock(EffectiveTimeOfDay(timeOfDay));
            LocaleDateStringTwoDigit(SetHoursValue(DayOffsetValue(Int(d), z), clock.0, clock.1, z), z)
            == LocaleDateStringTwoDigit(DayOffsetValue(Int(d), z), z)
  {
    var h := AdjustedHour(Int(DigitsValue(hh)), Some(period));
    assert h.Int? && 0 <= h.v < 24;
    assert TwelveHourClock(EffectiveTimeOfDay(timeOfDay)) == (h, Int(mm)) by {
      TwelveHourClockOf(hh, mm, period);
    }
    ClockKeepsDate(d, TwelveHourClock(EffectiveTimeOfDay(timeOfDay)), h.v, mm, z);
  }

  /** A clock of a valid hour and minute, set on local midnight of a day offset, keeps its printed date. */
  lemma ClockKeepsDate(d: int, clock: (JsNumber, JsNumber), h: int, m: int, z: Offset)
    requires DayLow(z) <= d < DayHigh(z) && clock == (Int(h), Int(m)) && 0 <= h < 24 && 0 <= m < 60
    ensures LocaleDateStringTwoDigit(SetHoursValue(DayOffsetValue(Int(d), z), clock.0, clock.1, z), z)
            == LocaleDateStringTwoDigit(DayOffsetValue(Int(d), z), z)
  {
    SetHoursKeepsDate(d, h, m, z);
  }

  // ---------------------------------------------------------------------
  // convertToDateTimeUTC
  // ---------------------------------------------------------------------

  /** The month, day and year `convertToDateTimeUTC` reads from "MM/DD/YYYY" with `Number`. */
  function DateNumbers(dateString: string): (r: (JsNumber, JsNumber, JsNumber))
    ensures NoSeparator(dateString, OneChar('/')) ==> r == (ToNumber(dateString), NaN, NaN)
  {
    SplitWholeWhen(dateString, OneChar('/'));
    var parts := Split(dateString, OneChar('/'));
    (NumberAt(parts, 0), NumberAt(parts, 1), NumberAt(parts, 2))
  }

  /** The hour, minute and meridiem `convertToDateTimeUTC` reads from "hh:mm A". */
  datatype TimeNumbers = TimeNumbers(hour: JsNumber, minute: JsNumber, meridiem: Option<string>)

  function ReadTimeNumbers(timeString: string): (r: TimeNumbers)
    ensures NoSeparator(timeString, OneChar(' ')) ==> r.meridiem.None?
    ensures NoSeparator(timeString, OneChar(' ')) && NoSeparator(timeString, OneChar(':'))
            ==> r == TimeNumbers(ToNumber(timeString), NaN, None)
  {
    SplitWholeWhen(timeString, OneChar(' '));
    SplitWholeWhen(timeString, OneChar(':'));
    var timeParts := Split(timeString, OneChar(' '));
    var clock := Split(timeParts[0], OneChar(':'));
    TimeNumbers(ToNumber(clock[0]), NumberAt(clock, 1),
                if |timeParts| > 1 then Some(timeParts[1]) else None)
  }

  /** The hour the source passes to the Date constructor: every PM hour gains 12, 12 PM included. */
  function PmShiftedHour(hour: JsNumber, meridiem: Option<string>): (r: JsNumber)
    ensures r.NaN? <==> hour.NaN?
    ensures meridiem != Some("PM") ==> r == hour
  {
    if meridiem == Some("PM") then Add(hour, Int(12)) else hour
  }

  /** `new Date(year, month - 1, day, hours, minute).toISOString().slice(0, 16)`; throws for an invalid date. */
  function UtcMinuteString(date: (JsNumber, JsNumber, JsNumber), hours: JsNumber, minute: JsNumber,
                           z: Offset): (r: Outcome<Option<string>>)
    ensures r.Returns? ==> r.value.Some? && |r.value.value| == 16
  {
    var combined := LocalDateValue(z, date.2, Add(date.0, Int(-1)), date.1, hours, minute);
    if combined.NaN? then ThrowsRangeError else Returns(Some(IsoString(combined.v)[..16]))
  }

  /**
   * `convertToDateTimeUTC(dateString, timeString)` as written: null when
   * either is empty or null; otherwise the host-local date and time, with
   * every PM hour shifted by 12, written in UTC as "YYYY-MM-DDTHH:mm".
   */
  function ConvertToDateTimeUtc(dateString: string, timeString: Option<string>, z: Offset): (r: Outcome<Option<string>>)
    ensures r == Returns(None) <==> dateString == "" || timeString.None? || timeString.value == ""
  {
    if dateString == "" || timeString.None? || timeString.value == "" then Returns(None)
    else
      var time := ReadTimeNumbers(timeString.value);
      UtcMinuteString(DateNumbers(dateString), PmShiftedHour(time.hour, time.meridiem), time.minute, z)
  }

  /** `convertToDateTimeUTC` with the 12-hour mapping of `getDateFromUtcDaysWithTime`: 12 AM is 0, 12 PM is 12. */
  function ConvertToDateTimeUtcCorrected(dateString: string, timeString: Option<string>, z: Offset): (r: Outcome<Option<string>>)
    ensures r == Returns(None) <==> dateString == "" || timeString.None? || timeString.value == ""
  {
    if dateString == "" || timeString.None? || timeString.value == "" then Returns(None)
    else
      var time := ReadTimeNumbers(timeString.value);
      UtcMinuteString(DateNumbers(dateString), AdjustedHour(time.hour, time.meridiem), time.minute, z)
  }

  /** "H:MM P" splits at ' ' and ':' into the numbers of H and MM and the period P. */
  lemma ReadTimeNumbersOf(h: string, m: string, p: string)
    requires h != [] && AllDigits(h) && m != [] && AllDigits(m) && NoSeparator(p, OneChar(' '))
    ensures ReadTimeNumbers(h + ":" + m + " " + p) == TimeNumbers(Int(DigitsValue(h)), Int(DigitsValue(m)), Some(p))
  {
    DigitsNoSeparator(h, ' ');
    DigitsNoSeparator(h, ':');
    DigitsNoSeparator(m, ' ');
    DigitsNoSeparator(m, ':');
    var clock := h + [':'] + m;
    NoSeparatorConcat(h, [':'], OneChar(' '));
    NoSeparatorConcat(h + [':'], m, OneChar(' '));
    assert h + ":" + m + " " + p == clock + [' '] + p;
    SplitTwo(clock, p, ' ');
    SplitTwo(h, m, ':');
    ToNumberOfDigits(h);
    ToNumberOfDigits(m);
  }

  /** The 12-hour text of a military time splits back into its hour, minute and period. */
  lemma ReadTimeNumbersOfMilitary(t: int)
    requires IsMilitaryTime(t)
    ensures ReadTimeNumbers(MilitaryToRegularTime(Int(t)))
            == TimeNumbers(Int(Hour12(t / 100)), Int(t % 100), Some(DayPeriod(t / 100)))
  {
    MilitaryToRegularTimeShape(t);
    NatToStringCorrect(Hour12(t / 100));
    TwoDigitsCorrect(t % 100);
    PeriodNoSeparator(t / 100);
    ReadTimeNumbersOf(NatToString(Hour12(t / 100)), TwoDigits(t % 100), DayPeriod(t / 100));
  }

  /** The hour of the day that a 12-hour clock names: 12 AM is midnight and 12 PM is noon. */
  function Hour24(h: int, period: string): (r: int)
    requires 1 <= h <= 12 && (period == "AM" || period == "PM")
    ensures 0 <= r < 24 && r % 12 == h % 12
    ensures r >= 12 <==> period == "PM"
  {
    if period == "AM" then h % 12 else h % 12 + 12
  }

  /** The adjustment of `getDateFromUtcDaysWithTime` turns a 12-hour clock into its hour of the day. */
  lemma AdjustedHourIsHour24(h: int, period: string)
    requires 1 <= h <= 12 && (period == "AM" || period == "PM")
    ensures AdjustedHour(Int(h), Some(period)) == Int(Hour24(h, period))
  {
  }

  /** The hour `convertToDateTimeUTC` builds is the hour of the day, plus 12 exactly for the 12 o'clock hours. */
  lemma PmShiftedHourOfTwelveHourClock(h: int, period: string)
    requires 1 <= h <= 12 && (period == "AM" || period == "PM")
    ensures PmShiftedHour(Int(h), Some(period)) == Int(Hour24(h, period) + if h == 12 then 12 else 0)
  {
  }

  /** A date "MM/DD/YYYY" and a time "hh:mm A", each field a digit string, padded or not. */
  datatype DateTimeText = DateTimeText(month: string, day: string, year: string,
                                       hour: string, minute: string, period: string)

  predicate DigitField(s: string) {
    s != [] && AllDigits(s)
  }

  /** Digit fields of a valid date from year 100 on, an hour from 1 to 12, a minute below 60, and "AM" or "PM". */
  predicate WellFormedText(x: DateTimeText) {
    && DigitField(x.month) && DigitField(x.day) && DigitField(x.year)
    && DigitField(x.hour) && DigitField(x.minute)
    && ValidDate(Date(DigitsValue(x.year), DigitsValue(x.month), DigitsValue(x.day)))
    && DigitsValue(x.year) >= 100
    && 1 <= DigitsValue(x.hour) <= 12 && DigitsValue(x.minute) < 60
    && (x.period == "AM" || x.period == "PM")
  }

  function DateText(x: DateTimeText): string {
    x.month + "/" + x.day + "/" + x.year
  }

  function TimeText(x: DateTimeText): string {
    x.hour + ":" + x.minute + " " + x.period
  }

  /** The instant a civil date and an hour and minute denote in the host zone. */
  function LocalInstant(d: Date, hour: int, minute: int, z: Offset): int
    requires ValidDate(d)
  {
    DaysFromCivil(d) * MsPerDay + hour * MsPerHour + minute * MsPerMinute - OffsetMs(z)
  }

  /** The host-local instant the texts name, with 12 AM read as midnight and 12 PM as noon. */
  function IntendedInstant(x: DateTimeText, z: Offset): int
    requires WellFormedText(x)
  {
    LocalInstant(Date(DigitsValue(x.year), DigitsValue(x.month), DigitsValue(x.day)),
                 Hour24(DigitsValue(x.hour), x.period), DigitsValue(x.minute), z)
  }

  /** What `convertToDateTimeUTC` reads from the two texts: the date's three numbers, the hour, the minute and the period. */
  lemma ReadDateTimeText(x: DateTimeText)
    requires DigitField(x.month) && DigitField(x.day) && DigitField(x.year)
    requires DigitField(x.hour) && DigitField(x.minute) && (x.period == "AM" || x.period == "PM")
    ensures DateText(x) != "" && TimeText(x) != ""
    ensures DateNumbers(DateText(x)) == (Int(DigitsValue(x.month)), Int(DigitsValue(x.day)), Int(DigitsValue(x.year)))
    ensures ReadTimeNumbers(TimeText(x)) == TimeNumbers(Int(DigitsValue(x.hour)), Int(DigitsValue(x.minute)), Some(x.period))
  {
    ReadDateText(x.month, x.day, x.year);
    ReadTimeText(x.hour, x.minute, x.period);
  }

  lemma ReadDateText(m: string, d: string, y: string)
    requires DigitField(m) && DigitField(d) && DigitField(y)
    ensures DateNumbers(m + "/" + d + "/" + y) == (Int(DigitsValue(m)), Int(DigitsValue(d)), Int(DigitsValue(y)))
  {
    SlashParts(m, d, y);
  }

  lemma ReadTimeText(h: string, m: string, p: string)
    requires DigitField(h) && DigitField(m) && (p == "AM" || p == "PM")
    ensures ReadTimeNumbers(h + ":" + m + " " + p) == TimeNumbers(Int(DigitsValue(h)), Int(DigitsValue(m)), Some(p))
  {
    assert NoSeparator(p, OneChar(' '));
    ReadTimeNumbersOf(h, m, p);
  }

  /** `UtcMinuteString` of a valid date (year 100 on) and an hour and minute is the ISO text of their instant. */
  lemma UtcMinuteStringOf(v: int, d: Date, hours: int, minute: int, z: Offset)
    requires ValidDate(d) && d.year >= 100
    requires v == DaysFromCivil(d) * MsPerDay + hours * MsPerHour + minute * MsPerMinute - OffsetMs(z)
    requires InTimeRange(v)
    ensures UtcMinuteString((Int(d.month), Int(d.day), Int(d.year)), Int(hours), Int(minute), z)
            == Returns(Some(IsoString(v)[..16]))
  {
    LocalDateValueOfDate(v, d, hours, minute, z);
  }

  /** `new Date(year, month - 1, day, hours, minute)` of a date from year 100 on is the instant of that local time. */
  lemma LocalDateValueOfDate(v: int, d: Date, hours: int, minute: int, z: Offset)
    requires ValidDate(d) && d.year >= 100
    requires v == DaysFromCivil(d) * MsPerDay + hours * MsPerHour + minute * MsPerMinute - OffsetMs(z)
    requires InTimeRange(v)
    ensures LocalDateValue(z, Int(d.year), Add(Int(d.month), Int(-1)), Int(d.day), Int(hours), Int(minute)) == Int(v)
  {
    assert Add(Int(d.month), Int(-1)) == Int(d.month - 1);
    assert MakeFullYear(Int(d.year)) == Int(d.year);
    MakeDayOfDate(d);
  }

  /**
   * The corrected conversion: a "MM/DD/YYYY" date and an "hh:mm A" time give
   * the UTC "YYYY-MM-DDTHH:mm" of that host-local date and time.
   */
  lemma ConvertToDateTimeUtcCorrectedOf(x: DateTimeText, z: Offset)
    requires WellFormedText(x) && InTimeRange(IntendedInstant(x, z))
    ensures ConvertToDateTimeUtcCorrected(DateText(x), Some(TimeText(x)), z)
            == Returns(Some(IsoString(IntendedInstant(x, z))[..16]))
  {
    ReadDateTimeText(x);
    var d := Date(DigitsValue(x.year), DigitsValue(x.month), DigitsValue(x.day));
    var h := Hour24(DigitsValue(x.hour), x.period);
    AdjustedHourIsHour24(DigitsValue(x.hour), x.period);
    UtcMinuteStringOf(IntendedInstant(x, z), d, h, DigitsValue(x.minute), z);
  }

  /** What the source passes to the Date constructor for the two texts. */
  lemma ConvertToDateTimeUtcReads(x: DateTimeText, hours: int, z: Offset)
    requires WellFormedText(x)
    requires hours == Hour24(DigitsValue(x.hour), x.period) + if DigitsValue(x.hour) == 12 then 12 else 0
    ensures ConvertToDateTimeUtc(DateText(x), Some(TimeText(x)), z)
            == UtcMinuteString((Int(DigitsValue(x.month)), Int(DigitsValue(x.day)), Int(DigitsValue(x.year))),
                               Int(hours), Int(DigitsValue(x.minute)), z)
  {
    var h := DigitsValue(x.hour);
    PmShiftedHourOfTwelveHourClock(h, x.period);
    assert PmShiftedHour(Int(h), Some(x.period)) == Int(hours);
    ReadDateTimeText(x);
  }

  /**
   * As written: the 12 o'clock hours, 12:mm AM and 12:mm PM, both come out
   * twelve hours late; every other time agrees with the corrected conversion.
   */
  lemma ConvertToDateTimeUtcAsWritten(x: DateTimeText, z: Offset)
    requires WellFormedText(x)
    requires InTimeRange(IntendedInstant(x, z) + if DigitsValue(x.hour) == 12 then 12 * MsPerHour else 0)
    ensures ConvertToDateTimeUtc(DateText(x), Some(TimeText(x)), z)
            == Returns(Some(IsoString(IntendedInstant(x, z)
                                      + (if DigitsValue(x.hour) == 12 then 12 * MsPerHour else 0))[..16]))
  {
    var late := if DigitsValue(x.hour) == 12 then 12 else 0;
    var shifted := Hour24(DigitsValue(x.hour), x.period) + late;
    ConvertToDateTimeUtcReads(x, shifted, z);
    var d := Date(DigitsValue(x.year), DigitsValue(x.month), DigitsValue(x.day));
    UtcMinuteStringOf(IntendedInstant(x, z) + late * MsPerHour, d, shifted, DigitsValue(x.minute), z);
  }

  /** Away from the 12 o'clock hours the conversion as written and the corrected one agree. */
  lemma ConvertToDateTimeUtcAgrees(x: DateTimeText, z: Offset)
    requires WellFormedText(x) && DigitsValue(x.hour) != 12
    requires InTimeRange(IntendedInstant(x, z))
    ensures ConvertToDateTimeUtc(DateText(x), Some(TimeText(x)), z)
            == ConvertToDateTimeUtcCorrected(DateText(x), Some(TimeText(x)), z)
  {
    ConvertToDateTimeUtcAsWritten(x, z);
    ConvertToDateTimeUtcCorrectedOf(x, z);
  }

  // ---------------------------------------------------------------------
  // localTimeToNumber
  // ---------------------------------------------------------------------

  /** A wall-clock hour and minute, as moment reads them from "hh:mm A". */
  datatype Clock = Clock(hour: int, minute: int)

  /**
   * `localTimeToNumber(localTime)`: null for null, undefined and ''; otherwise
   * `parseInt` of moment's 'HHmm' text, which is "Invalid date", and so NaN,
   * when moment could not read the time (`parsed` is None).
   */
  function LocalTimeToNumber(localTime: Option<string>, parsed: Option<Clock>): (r: Option<JsNumber>)
    requires parsed.Some? ==> 0 <= parsed.value.hour < 24 && 0 <= parsed.value.minute < 60
    ensures r.None? <==> localTime.None? || localTime.value == ""
  {
    if localTime.None? || localTime.value == "" then None
    else match parsed
      case None => Some(ParseInt("Invalid date"))
      case Some(c) => Some(ParseInt(TwoDigits(c.hour) + TwoDigits(c.minute)))
  }

  /** A read time is the number 100 * hour + minute; an unreadable one is NaN. */
  lemma LocalTimeToNumberValue(localTime: string, parsed: Option<Clock>)
    requires localTime != ""
    requires parsed.Some? ==> 0 <= parsed.value.hour < 24 && 0 <= parsed.value.minute < 60
    ensures parsed.Some? ==> LocalTimeToNumber(Some(localTime), parsed) == Some(Int(100 * parsed.value.hour + parsed.value.minute))
    ensures parsed.None? ==> LocalTimeToNumber(Some(localTime), parsed) == Some(NaN)
  {
    if parsed.Some? {
      ClockDigitsValue(parsed.value.hour, parsed.value.minute);
    } else {
      InvalidDateIsNaN("Invalid date");
    }
  }

  /** The 'HHmm' text of an hour and minute reads back as 100 * hour + minute. */
  lemma ClockDigitsValue(hour: int, minute: int)
    requires 0 <= hour < 24 && 0 <= minute < 60
    ensures ParseInt(TwoDigits(hour) + TwoDigits(minute)) == Int(100 * hour + minute)
  {
    var s := TwoDigits(hour) + TwoDigits(minute);
    ParseIntOfDigits(s);
    FourDigitsValue(s);
    assert s[0] == TwoDigits(hour)[0] && s[1] == TwoDigits(hour)[1];
    assert s[2] == TwoDigits(minute)[0] && s[3] == TwoDigits(minute)[1];
  }

  lemma InvalidDateIsNaN(s: string)
    requires s == "Invalid date"
    ensures ParseInt(s) == NaN
  {
    assert !IsSpace(s[0]) && TrimStart(s) == s;
    assert LeadingDigits(s) == [];
  }
}
