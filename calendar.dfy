/**
 * Proleptic Gregorian calendar arithmetic: the day <-> civil date conversion
 * that ECMAScript Date objects rely on (ECMA-262 section 21.4.1, "Day Number
 * and Time within Day" through "Date Number").
 *
 * Day numbers count days since 1970-01-01. Internally a year is counted from
 * March 1st, so that the leap day is the last day of its year, and years are
 * grouped in 400-year eras of 146097 days.
 */
module Calendar {

  datatype Date = Date(year: int, month: int, day: int)

  predicate IsLeapYear(y: int) {
    y % 4 == 0 && (y % 100 != 0 || y % 400 == 0)
  }

  function DaysInMonth(y: int, m: int): (n: int)
    requires 1 <= m <= 12
    ensures 28 <= n <= 31
    ensures n == 29 <==> m == 2 && IsLeapYear(y)
  {
    if m == 2 then (if IsLeapYear(y) then 29 else 28)
    else if m == 4 || m == 6 || m == 9 || m == 11 then 30
    else 31
  }

  predicate ValidDate(d: Date) {
    1 <= d.month <= 12 && 1 <= d.day <= DaysInMonth(d.year, d.month)
  }

  /** Days from 0000-03-01 to 1970-01-01. */
  const EpochShift: int := 719468

  /** First day, within its year, of the March-based month mp (0 = March, 11 = February). */
  function MonthStart(mp: int): int
    requires 0 <= mp <= 12
  {
    (153 * mp + 2) / 5
  }

  /** Length of the March-based month mp; February (mp = 11) counts its leap day. */
  function MarchMonthLength(mp: int, leap: bool): int
    requires 0 <= mp <= 11
  {
    if mp == 11 then (if leap then 29 else 28)
    else if mp == 1 || mp == 3 || mp == 6 || mp == 8 then 30
    else 31
  }

  /** First day, within its 400-year era, of the March-based year yoe. */
  function YearStart(yoe: int): int
    requires 0 <= yoe <= 399
  {
    365 * yoe + yoe / 4 - yoe / 100
  }

  /** The March-based year yoe of an era holds the leap day of civil year yoe + 1. */
  predicate EraYearIsLeap(yoe: int) {
    IsLeapYear(yoe + 1)
  }

  function EraYearLength(yoe: int): int {
    if EraYearIsLeap(yoe) then 366 else 365
  }

  function MarchMonth(m: int): int
    requires 1 <= m <= 12
  {
    if m > 2 then m - 3 else m + 9
  }

  /** The March-based year that a civil (year, month) falls in. */
  function MarchYear(y: int, m: int): int {
    if m <= 2 then y - 1 else y
  }

  /** Day number of the first day of the March-based year y. */
  function MarchYearStart(y: int): int {
    (y / 400) * 146097 + YearStart(y % 400) - EpochShift
  }

  /**
   * Day number of a civil date. Only the month must be in range: the day of
   * the month may be any integer and counts on from the month's first day,
   * as ECMAScript MakeDay does with its date argument.
   */
  function DaysFromCivil(d: Date): int
    requires 1 <= d.month <= 12
  {
    MarchYearStart(MarchYear(d.year, d.month)) + MonthStart(MarchMonth(d.month)) + d.day - 1
  }

  /** Year of era of the day-of-era doe: century, then four-year group, then year. */
  function YearOfEra(doe: int): int
    requires 0 <= doe <= 146096
  {
    var c := if doe == 146096 then 3 else doe / 36524;
    var r := doe - 36524 * c;
    var q := r / 1461;
    var r2 := r - 1461 * q;
    var j := if r2 == 1460 then 3 else r2 / 365;
    100 * c + 4 * q + j
  }

  /** March-based month of the day-of-year doy. */
  function MonthOfYearDay(doy: int): (mp: int)
    requires 0 <= doy <= 365
    ensures 0 <= mp <= 11
  {
    (5 * doy + 2) / 153
  }

  /** Civil date of the day-of-era doe within the 400-year era era. */
  function CivilOfEraDay(era: int, doe: int): Date
    requires 0 <= doe <= 146096
  {
    var yoe := YearOfEra(doe);
    assert 0 <= yoe <= 399 && 0 <= doe - YearStart(yoe) <= 365 by { YearOfEraBounds(doe); }
    var doy := doe - YearStart(yoe);
    // mp is MonthOfYearDay(doy) and the day counts on from MonthStart(mp); both are
    // written out so that the solver meets plain arithmetic here
    var mp := (5 * doy + 2) / 153;
    var month := if mp < 10 then mp + 3 else mp - 9;
    Date(yoe + era * 400 + (if month <= 2 then 1 else 0), month, doy - (153 * mp + 2) / 5 + 1)
  }

  function CivilFromDays(n: int): Date {
    var z := n + EpochShift;
    CivilOfEraDay(z / 146097, z % 146097)
  }

  /** The civil date that follows d. */
  function NextDay(d: Date): (r: Date)
    requires ValidDate(d)
  {
    if d.day < DaysInMonth(d.year, d.month) then Date(d.year, d.month, d.day + 1)
    else if d.month < 12 then Date(d.year, d.month + 1, 1)
    else Date(d.year + 1, 1, 1)
  }

  // ---------------------------------------------------------------------
  // Era decomposition
  // ---------------------------------------------------------------------

  lemma YearStartDecomposed(c: int, q: int, j: int)
    requires 0 <= c <= 3 && 0 <= q <= 24 && 0 <= j <= 3
    ensures YearStart(100 * c + 4 * q + j) == 36524 * c + 1461 * q + 365 * j
  {
    var k := 100 * c + 4 * q + j;
    assert k / 4 == 25 * c + q;
    assert k / 100 == c;
  }

  lemma LeapDecomposed(c: int, q: int, j: int)
    requires 0 <= c <= 3 && 0 <= q <= 24 && 0 <= j <= 3
    ensures EraYearIsLeap(100 * c + 4 * q + j) <==> j == 3 && (q != 24 || c == 3)
  {
    var y := 100 * c + 4 * q + j + 1;
    assert y % 4 == 0 <==> j == 3 by {
      assert y == 4 * (25 * c + q) + (j + 1);
    }
    assert y % 100 == 0 <==> q == 24 && j == 3 by {
      assert y == 100 * c + (4 * q + j + 1);
    }
    assert y % 400 == 0 <==> c == 3 && q == 24 && j == 3;
  }

  lemma YearOfEraBounds(doe: int)
    requires 0 <= doe <= 146096
    ensures 0 <= YearOfEra(doe) <= 399
    ensures YearStart(YearOfEra(doe)) <= doe < YearStart(YearOfEra(doe)) + EraYearLength(YearOfEra(doe))
    ensures doe - YearStart(YearOfEra(doe)) <= 365
  {
    var c := if doe == 146096 then 3 else doe / 36524;
    var r := doe - 36524 * c;
    var q := r / 1461;
    var r2 := r - 1461 * q;
    var j := if r2 == 1460 then 3 else r2 / 365;
    assert 0 <= c <= 3;
    assert 0 <= r <= 36524;
    assert 0 <= q <= 24;
    assert q == 24 && c < 3 ==> r2 <= 1459;
    YearStartDecomposed(c, q, j);
    LeapDecomposed(c, q, j);
  }

  lemma YearOfEraUnique(yoe: int, doy: int)
    requires 0 <= yoe <= 399
    requires 0 <= doy < EraYearLength(yoe)
    ensures YearStart(yoe) + doy <= 146096
    ensures YearOfEra(YearStart(yoe) + doy) == yoe
  {
    var c, q, j := yoe / 100, (yoe % 100) / 4, yoe % 4;
    assert yoe == 100 * c + 4 * q + j;
    YearStartDecomposed(c, q, j);
    LeapDecomposed(c, q, j);
    YearOfEraOfParts(c, q, j, doy, YearStart(yoe) + doy);
  }

  /** The century, four-year group and year within it are read back from a day of the era. */
  lemma YearOfEraOfParts(c: int, q: int, j: int, doy: int, doe: int)
    requires 0 <= c <= 3 && 0 <= q <= 24 && 0 <= j <= 3
    requires 0 <= doy < 365 + (if j == 3 && (q != 24 || c == 3) then 1 else 0)
    requires doe == 36524 * c + 1461 * q + 365 * j + doy
    ensures 0 <= doe <= 146096 && YearOfEra(doe) == 100 * c + 4 * q + j
  {
    if doe == 146096 {
      LastDayOfEra(c, q, j, doy);
    } else {
      assert doe / 36524 == c;
      assert (doe - 36524 * c) / 1461 == q;
      var r2 := doe - 36524 * c - 1461 * q;
      assert r2 == 365 * j + doy;
      if r2 != 1460 {
        assert r2 / 365 == j;
      }
    }
  }

  /** Only the last leap year of an era reaches the era's final day. */
  lemma LastDayOfEra(c: int, q: int, j: int, doy: int)
    requires 0 <= c <= 3 && 0 <= q <= 24 && 0 <= j <= 3 && 0 <= doy <= 365
    requires 36524 * c + 1461 * q + 365 * j + doy == 146096
    ensures c == 3 && q == 24 && j == 3
  {
  }

  // ---------------------------------------------------------------------
  // Months within a March-based year
  // ---------------------------------------------------------------------

  lemma MonthOfYearDayBounds(doy: int, leap: bool)
    requires 0 <= doy < (if leap then 366 else 365)
    ensures 0 <= MonthOfYearDay(doy) <= 11
    ensures MonthStart(MonthOfYearDay(doy)) <= doy
    ensures doy < MonthStart(MonthOfYearDay(doy)) + MarchMonthLength(MonthOfYearDay(doy), leap)
  {
  }

  lemma MonthOfYearDayUnique(mp: int, leap: bool, dom: int)
    requires 0 <= mp <= 11 && 0 <= dom < MarchMonthLength(mp, leap)
    ensures 0 <= MonthStart(mp) + dom < (if leap then 366 else 365)
    ensures MonthOfYearDay(MonthStart(mp) + dom) == mp
  {
  }

  lemma MonthLengths(y: int, m: int)
    requires 1 <= m <= 12
    ensures MarchMonthLength(MarchMonth(m), EraYearIsLeap(MarchYear(y, m) % 400)) == DaysInMonth(y, m)
  {
    if m == 2 {
      LeapPeriodic(y);
    }
  }

  lemma LeapPeriodic(y: int)
    ensures EraYearIsLeap((y - 1) % 400) == IsLeapYear(y)
  {
    var k := (y - 1) % 400;
    var e := (y - 1) / 400;
    assert 0 <= k < 400 && y == 400 * e + k + 1;
    var x := k + 1;
    assert y == 4 * (100 * e + x / 4) + x % 4;
    assert y % 4 == x % 4;
    assert y == 100 * (4 * e + x / 100) + x % 100;
    assert y % 100 == x % 100;
    assert y == 400 * (e + x / 400) + x % 400;
    assert y % 400 == x % 400;
  }

  // ---------------------------------------------------------------------
  // Round trips between day numbers and civil dates
  // ---------------------------------------------------------------------

  lemma EraSplit(z: int, era: int, doe: int)
    requires 0 <= doe < 146097 && z == era * 146097 + doe
    ensures z / 146097 == era && z % 146097 == doe
  {
  }

  lemma YearSplit(y: int, era: int, yoe: int)
    requires 0 <= yoe < 400 && y == era * 400 + yoe
    ensures y / 400 == era && y % 400 == yoe
  {
  }

  /** The date of a day of an era, when that day is given as year, month and day within the era. */
  lemma CivilOfEraDayOf(era: int, yoe: int, mp: int, dom: int)
    requires 0 <= yoe <= 399 && 0 <= mp <= 11
    requires 0 <= dom < MarchMonthLength(mp, EraYearIsLeap(yoe))
    ensures 0 <= YearStart(yoe) + MonthStart(mp) + dom <= 146096
    ensures CivilOfEraDay(era, YearStart(yoe) + MonthStart(mp) + dom)
      == Date(era * 400 + yoe + (if mp >= 10 then 1 else 0), if mp < 10 then mp + 3 else mp - 9, dom + 1)
  {
    MonthOfYearDayUnique(mp, EraYearIsLeap(yoe), dom);
    var doy := MonthStart(mp) + dom;
    YearOfEraUnique(yoe, doy);
  }

  /** Every day of an era names a real calendar date, and that date names the day back. */
  lemma CivilOfEraDayCorrect(era: int, doe: int)
    requires 0 <= doe <= 146096
    ensures ValidDate(CivilOfEraDay(era, doe))
    ensures DaysFromCivil(CivilOfEraDay(era, doe)) == era * 146097 + doe - EpochShift
  {
    YearOfEraBounds(doe);
    var yoe := YearOfEra(doe);
    var doy := doe - YearStart(yoe);
    MonthOfYearDayBounds(doy, EraYearIsLeap(yoe));
    var mp := MonthOfYearDay(doy);
    var month := if mp < 10 then mp + 3 else mp - 9;
    var r := CivilOfEraDay(era, doe);
    assert r == Date(yoe + era * 400 + (if month <= 2 then 1 else 0), month, doy - MonthStart(mp) + 1);
    assert MarchMonth(month) == mp;
    YearSplit(MarchYear(r.year, r.month), era, yoe);
    MonthLengths(r.year, r.month);
  }

  /** Every day number names a real calendar date, and that date names the day number back. */
  lemma CivilFromDaysCorrect(n: int)
    ensures ValidDate(CivilFromDays(n))
    ensures DaysFromCivil(CivilFromDays(n)) == n
  {
    var z := n + EpochShift;
    CivilOfEraDayCorrect(z / 146097, z % 146097);
  }

  /** A valid civil date survives the trip to its day number and back. */
  lemma DaysFromCivilCorrect(d: Date)
    requires ValidDate(d)
    ensures CivilFromDays(DaysFromCivil(d)) == d
  {
    var y := MarchYear(d.year, d.month);
    var era, yoe := y / 400, y % 400;
    var mp := MarchMonth(d.month);
    MonthLengths(d.year, d.month);
    CivilOfEraDayOf(era, yoe, mp, d.day - 1);
    var doe := YearStart(yoe) + MonthStart(mp) + (d.day - 1);
    CivilFromDaysOfEra(DaysFromCivil(d), era, doe);
    MarchInverse(d.year, d.month);
  }

  /** A day number that lies doe days into era era is read back through that era and day. */
  lemma CivilFromDaysOfEra(n: int, era: int, doe: int)
    requires 0 <= doe < 146097 && n + EpochShift == era * 146097 + doe
    ensures CivilFromDays(n) == CivilOfEraDay(era, doe)
  {
    EraSplit(n + EpochShift, era, doe);
  }

  lemma MarchInverse(year: int, month: int)
    requires 1 <= month <= 12
    ensures var mp := MarchMonth(month);
      && (if mp < 10 then mp + 3 else mp - 9) == month
      && MarchYear(year, month) + (if mp >= 10 then 1 else 0) == year
  {
  }

  lemma MarchYearStep(y: int)
    ensures MarchYearStart(y + 1) == MarchYearStart(y) + EraYearLength(y % 400)
  {
    var e, k := y / 400, y % 400;
    if k < 399 {
      assert (y + 1) / 400 == e && (y + 1) % 400 == k + 1;
      var x := k + 1;
      assert x % 400 != 0;
      assert (x / 4 - k / 4 == 1) <==> x % 4 == 0;
      assert (x / 100 - k / 100 == 1) <==> x % 100 == 0;
    } else {
      assert (y + 1) / 400 == e + 1 && (y + 1) % 400 == 0;
      assert EraYearIsLeap(399);
    }
  }

  /** The last day of February is followed by March 1st, which starts a new March-based year. */
  lemma FebruaryEndStep(y: int)
    ensures DaysFromCivil(Date(y, 3, 1)) == DaysFromCivil(Date(y, 2, DaysInMonth(y, 2))) + 1
  {
    MarchYearStep(y - 1);
    LeapPeriodic(y);
  }

  /** The last day of a month other than February and December is followed by the 1st of the next. */
  lemma MonthEndStep(y: int, m: int)
    requires 1 <= m < 12 && m != 2
    ensures DaysFromCivil(Date(y, m + 1, 1)) == DaysFromCivil(Date(y, m, DaysInMonth(y, m))) + 1
  {
    assert MarchYear(y, m + 1) == MarchYear(y, m);
    if m == 1 {
    } else if m == 3 {
    } else if m == 4 {
    } else if m == 5 {
    } else if m == 6 {
    } else if m == 7 {
    } else if m == 8 {
    } else if m == 9 {
    } else if m == 10 {
    } else {
    }
  }

  /** December 31st is followed by January 1st of the next year, within one March-based year. */
  lemma DecemberEndStep(y: int)
    ensures DaysFromCivil(Date(y + 1, 1, 1)) == DaysFromCivil(Date(y, 12, 31)) + 1
  {
    assert MarchYear(y + 1, 1) == MarchYear(y, 12);
  }

  /** One step of the calendar: the day after d is one day number further on. */
  lemma NextDayStep(d: Date)
    requires ValidDate(d)
    ensures ValidDate(NextDay(d))
    ensures DaysFromCivil(NextDay(d)) == DaysFromCivil(d) + 1
  {
    var m := d.month;
    if d.day < DaysInMonth(d.year, m) {
    } else if m == 2 {
      FebruaryEndStep(d.year);
    } else if m < 12 {
      MonthEndStep(d.year, m);
    } else {
      DecemberEndStep(d.year);
    }
  }

  /** Adding one to a day number moves its civil date to the next calendar day. */
  lemma CivilFromDaysNext(n: int)
    ensures ValidDate(CivilFromDays(n))
    ensures CivilFromDays(n + 1) == NextDay(CivilFromDays(n))
  {
    var d := CivilFromDays(n);
    CivilFromDaysCorrect(n);
    NextDayStep(d);
    DaysFromCivilCorrect(NextDay(d));
  }

  /** DaysFromCivil is one-to-one on valid dates. */
  lemma DaysFromCivilInjective(a: Date, b: Date)
    requires ValidDate(a) && ValidDate(b)
    ensures DaysFromCivil(a) == DaysFromCivil(b) <==> a == b
  {
    DaysFromCivilCorrect(a);
    DaysFromCivilCorrect(b);
  }
}
