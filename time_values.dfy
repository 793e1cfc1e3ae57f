/**
 * ECMAScript time values and Date objects (ECMA-262 section 21.4): a time
 * value counts milliseconds since 1970-01-01T00:00Z, is NaN for an invalid
 * date, and lies within 8.64e15 ms of the epoch (section 21.4.1.1, "Time
 * Values and Time Range"). The host ("local") time zone is a fixed offset.
 */
module TimeValues {
  import opened JsNumbers
  import opened Calendar

  const MsPerMinute: int := 60000
  const MsPerHour: int := 3600000
  const MsPerDay: int := 86400000

  /** The largest magnitude a time value may have. */
  const MaxTime: int := 8_640_000_000_000_000

  /** A fixed UTC offset, in minutes east of Greenwich. */
  type Offset = m: int | -1440 < m < 1440

  function OffsetMs(z: Offset): int { z * 60_000 }

  predicate InTimeRange(t: int) { -MaxTime <= t <= MaxTime }

  /** TimeClip (section 21.4.1.31). */
  function TimeClip(t: JsNumber): (r: JsNumber)
    ensures r.Int? <==> t.Int? && InTimeRange(t.v)
    ensures r.Int? ==> r == t
  {
    if t.Int? && InTimeRange(t.v) then t else NaN
  }

  function Day(t: int): int { t / 86_400_000 }
  function TimeWithinDay(t: int): int { t % 86_400_000 }
  function HourFromTime(t: int): int { TimeWithinDay(t) / 3_600_000 }
  function MinFromTime(t: int): int { (t / 60_000) % 60 }
  function SecFromTime(t: int): int { (t / 1000) % 60 }
  function MsFromTime(t: int): int { t % 1000 }

  /** The civil date of a time value (YearFromTime, MonthFromTime + 1, DateFromTime). */
  function DateOf(t: int): Date { CivilFromDays(Day(t)) }

  /** LocalTime (section 21.4.1.25) for a fixed-offset host zone. */
  function LocalTime(t: int, z: Offset): int { t + OffsetMs(z) }

  /** UTC (section 21.4.1.26) for a fixed-offset host zone. */
  function Utc(t: JsNumber, z: Offset): JsNumber {
    if t.NaN? then NaN else Int(t.v - OffsetMs(z))
  }

  function Add(a: JsNumber, b: JsNumber): JsNumber {
    if a.NaN? || b.NaN? then NaN else Int(a.v + b.v)
  }

  /** MakeTime (section 21.4.1.27). */
  function MakeTime(hour: JsNumber, min: JsNumber, sec: JsNumber, ms: JsNumber): JsNumber {
    if hour.NaN? || min.NaN? || sec.NaN? || ms.NaN? then NaN
    else Int(hour.v * MsPerHour + min.v * MsPerMinute + sec.v * 1000 + ms.v)
  }

  /**
   * MakeDay (section 21.4.1.28): month is zero-based and may lie outside
   * 0..11 (it carries into the year); date counts on from the month's first day.
   */
  function MakeDay(year: JsNumber, month: JsNumber, date: JsNumber): JsNumber {
    if year.NaN? || month.NaN? || date.NaN? then NaN
    else Int(DaysFromCivil(Date(year.v + month.v / 12, month.v % 12 + 1, date.v)))
  }

  /** MakeDate (section 21.4.1.29). */
  function MakeDate(day: JsNumber, time: JsNumber): JsNumber {
    if day.NaN? || time.NaN? then NaN else Int(day.v * MsPerDay + time.v)
  }

  /** MakeFullYear (section 21.4.1.30): years 0 to 99 passed to the Date constructor mean 1900 to 1999. */
  function MakeFullYear(year: JsNumber): JsNumber {
    if year.Int? && 0 <= year.v <= 99 then Int(1900 + year.v) else year
  }

  /** The time value of `new Date(year, month, date, hours, minutes)` (section 21.4.2.1). */
  function LocalDateValue(z: Offset, year: JsNumber, month: JsNumber, date: JsNumber,
                          hours: JsNumber, minutes: JsNumber): JsNumber
  {
    TimeClip(Utc(MakeDate(MakeDay(MakeFullYear(year), month, date),
                          MakeTime(hours, minutes, Int(0), Int(0))), z))
  }

  /** The new time value after `setDate(date)` (section 21.4.4.20). */
  function SetDateValue(t: JsNumber, date: JsNumber, z: Offset): JsNumber {
    if t.NaN? || date.NaN? then NaN
    else
      var local := LocalTime(t.v, z);
      var d := DateOf(local);
      TimeClip(Utc(MakeDate(MakeDay(Int(d.year), Int(d.month - 1), date), Int(TimeWithinDay(local))), z))
  }

  /** The new time value after `setHours(hour, min)` (section 21.4.4.22). */
  function SetHoursValue(t: JsNumber, hour: JsNumber, min: JsNumber, z: Offset): JsNumber {
    if t.NaN? then NaN
    else
      var local := LocalTime(t.v, z);
      TimeClip(Utc(MakeDate(Int(Day(local)), MakeTime(hour, min, Int(SecFromTime(local)), Int(MsFromTime(local)))), z))
  }

  /** The 12-hour clock hour of a 24-hour hour: 0 and 12 are both 12. */
  function Hour12(h: int): (r: int)
    requires 0 <= h < 24
    ensures 1 <= r <= 12 && r % 12 == h % 12
  {
    if h % 12 == 0 then 12 else h % 12
  }

  /** The 12-hour clock's period of a 24-hour hour. */
  function DayPeriod(h: int): string {
    if h >= 12 then "PM" else "AM"
  }

  /** Day number of 2000-01-01, the origin of the application's day offsets. */
  const EpochDay: int := 10957

  lemma EpochDayIsJanuaryFirst2000()
    ensures DaysFromCivil(Date(2000, 1, 1)) == EpochDay
    ensures CivilFromDays(EpochDay) == Date(2000, 1, 1)
  {
    assert 1999 / 400 == 4 && 1999 % 400 == 399;
    assert YearStart(399) == 145731 && MonthStart(10) == 306;
    DaysFromCivilCorrect(Date(2000, 1, 1));
  }

  /** Within one local day, an instant's wall-clock fields recompose its time value. */
  lemma TimeFieldsCompose(t: int)
    ensures 0 <= HourFromTime(t) < 24 && 0 <= MinFromTime(t) < 60
    ensures 0 <= SecFromTime(t) < 60 && 0 <= MsFromTime(t) < 1000
    ensures t == Day(t) * MsPerDay + HourFromTime(t) * MsPerHour + MinFromTime(t) * MsPerMinute
                 + SecFromTime(t) * 1000 + MsFromTime(t)
  {
    var k, r := t / MsPerDay, t % MsPerDay;
    var h, r1 := r / MsPerHour, r % MsPerHour;
    var mi, r2 := r1 / MsPerMinute, r1 % MsPerMinute;
    var sec, ms := r2 / 1000, r2 % 1000;
    TimeFieldsOf(t, k, h, mi, sec, ms);
  }

  /** The fields of an instant given as days, hours, minutes, seconds and milliseconds. */
  lemma TimeFieldsOf(t: int, k: int, h: int, mi: int, sec: int, ms: int)
    requires 0 <= h < 24 && 0 <= mi < 60 && 0 <= sec < 60 && 0 <= ms < 1000
    requires t == k * MsPerDay + h * MsPerHour + mi * MsPerMinute + sec * 1000 + ms
    ensures Day(t) == k && HourFromTime(t) == h && MinFromTime(t) == mi
    ensures SecFromTime(t) == sec && MsFromTime(t) == ms
  {
    var secs := ((k * 24 + h) * 60 + mi) * 60 + sec;
    assert t == secs * 1000 + ms;
    assert t / 1000 == secs;
    assert t / MsPerMinute == (k * 24 + h) * 60 + mi;
  }

  /** MakeDay on a date's own year, zero-based month and day of the month is that date's day number. */
  lemma MakeDayOfDate(d: Date)
    requires ValidDate(d)
    ensures MakeDay(Int(d.year), Int(d.month - 1), Int(d.day)) == Int(DaysFromCivil(d))
  {
    assert Date(d.year + (d.month - 1) / 12, (d.month - 1) % 12 + 1, d.day) == d;
  }

  /**
   * `new Date(...)` objects: the source creates them and changes them in place
   * with `setDate` and `setHours`.
   */
  class JsDate {
    /** [[DateValue]]. */
    var value: JsNumber
    /** The host's local time zone. */
    const zone: Offset

    ghost predicate Valid()
      reads this
    {
      value.Int? ==> InTimeRange(value.v)
    }

    /** `new Date(year, month, date, hours, minutes)`. */
    constructor (zone: Offset, year: JsNumber, month: JsNumber, date: JsNumber, hours: JsNumber, minutes: JsNumber)
      ensures Valid() && this.zone == zone
      ensures value == LocalDateValue(zone, year, month, date, hours, minutes)
    {
      this.zone := zone;
      value := LocalDateValue(zone, year, month, date, hours, minutes);
    }

    /** `getTime()`. */
    function GetTime(): (t: JsNumber)
      reads this
      requires Valid()
      ensures t.Int? ==> InTimeRange(t.v)
    {
      value
    }

    /** `getDate()`: the local day of the month. */
    function GetDate(): (d: JsNumber)
      reads this
      ensures d.Int? ==> 1 <= d.v <= 31
    {
      if value.NaN? then NaN
      else
        CivilFromDaysCorrect(Day(LocalTime(value.v, zone)));
        Int(DateOf(LocalTime(value.v, zone)).day)
    }

    /** `setDate(date)`. */
    method SetDate(date: JsNumber)
      requires Valid()
      modifies this
      ensures Valid()
      ensures value == SetDateValue(old(value), date, zone)
    {
      value := SetDateValue(value, date, zone);
    }

    /** `setHours(hour, min)`. */
    method SetHours(hour: JsNumber, min: JsNumber)
      requires Valid()
      modifies this
      ensures Valid()
      ensures value == SetHoursValue(old(value), hour, min, zone)
    {
      value := SetHoursValue(value, hour, min, zone);
    }
  }
}
