/** Day numbers and civil dates of the proleptic Gregorian calendar. Day 0 is 1970-01-01. */
module Calendar {
  import opened Bytes
  import opened Decimals

  datatype Civil = Civil(year: int, month: int, day: int)

  predicate Leap(year: int) {
    year % 4 == 0 && (year % 100 != 0 || year % 400 == 0)
  }

  function DaysInMonth(year: int, month: int): int {
    match month
    case 1 => 31
    case 3 => 31
    case 5 => 31
    case 7 => 31
    case 8 => 31
    case 10 => 31
    case 12 => 31
    case 4 => 30
    case 6 => 30
    case 9 => 30
    case 11 => 30
    case 2 => if Leap(year) then 29 else 28
    case _ => 0
  }

  predicate ValidDate(c: Civil) {
    1 <= c.month <= 12 && 1 <= c.day <= DaysInMonth(c.year, c.month)
  }

  // ---- conversions ---------------------------------------------------------

  /** The era of a day or a year, by truncating division. */
  function Era(z: int, length: int): int
    requires length > 0
  {
    Div0(if z >= 0 then z else z - (length - 1), length)
  }

  /** The year of a 400-year era, counted from 1 March, in which a day of the era falls. */
  function YearOfEra(day: int): int {
    (day - day / 1460 + day / 36_524 - day / 146_096) / 365
  }

  /** The days of an era before a year of it. */
  function YearStart(year: int): int {
    365 * year + year / 4 - year / 100
  }

  /** The days of a year counted from 1 March before a month of it, March being 0. */
  function MonthStart(mp: int): int {
    (153 * mp + 2) / 5
  }

  function MonthOf(mp: int): int {
    if mp < 10 then mp + 3 else mp - 9
  }

  function CivilFromDays(days: int): Civil {
    var z := days + 719_468;
    var era := Era(z, 146_097);
    var dayOfEra := z - era * 146_097;
    var yearOfEra := YearOfEra(dayOfEra);
    var dayOfYear := dayOfEra - YearStart(yearOfEra);
    var mp := (5 * dayOfYear + 2) / 153;
    var day := dayOfYear - MonthStart(mp) + 1;
    var month := MonthOf(mp);
    var year := yearOfEra + era * 400;
    Civil(if month <= 2 then year + 1 else year, month, day)
  }

  function DaysFromCivil(c: Civil): int {
    var y := if c.month <= 2 then c.year - 1 else c.year;
    var era := Era(y, 400);
    var yearOfEra := y - era * 400;
    var dayOfYear := MonthStart(if c.month > 2 then c.month - 3 else c.month + 9) + c.day - 1;
    era * 146_097 + (YearStart(yearOfEra) + dayOfYear) - 719_468
  }

  lemma SmallYears(c: Civil)
    requires ValidDate(c) && 0 <= c.year <= 9999
    ensures var y := if c.month <= 2 then c.year - 1 else c.year;
            -1 <= Era(y, 400) <= 24 && 0 <= y - Era(y, 400) * 400 < 400
    ensures 1 <= c.day <= 31
  {
  }

  /** The same conversion in 32-bit arithmetic, used when date text is read: with a year of
      at most four digits no step overflows. */
  function ParsedDays(c: Civil): (days: i32)
    requires ValidDate(c) && 0 <= c.year <= 9999
    ensures days == DaysFromCivil(c)
  {
    SmallYears(c);
    var year: i32 := if c.month <= 2 then c.year - 1 else c.year;
    var era: i32 := Era(year, 400);
    var yearOfEra: i32 := year - era * 400;
    var monthShift: i32 := if c.month > 2 then c.month - 3 else c.month + 9;
    var product: i32 := 153 * monthShift;
    var dayOfYear: i32 := (product + 2) / 5 + c.day - 1;
    var dayOfEra: i32 := yearOfEra * 365 + yearOfEra / 4 - yearOfEra / 100 + dayOfYear;
    var eraDays: i32 := era * 146_097;
    eraDays + dayOfEra - 719_468
  }

  // ---- years of an era -----------------------------------------------------

  lemma EraIsFloor(z: int, length: int)
    requires length == 400 || length == 146_097
    ensures Era(z, length) == z / length
  {
  }

  /** A day of a year that begins on 1 March; the 366th exists when February has 29 days. */
  predicate DayOfYear(yearOfEra: int, day: int) {
    0 <= day <= 364 || (day == 365 && Leap(yearOfEra + 1))
  }

  /** Every day of an era is a day of one of its years. */
  lemma YearExists(dayOfEra: int) returns (year: int, day: int)
    requires 0 <= dayOfEra < 146_097
    ensures 0 <= year < 400 && DayOfYear(year, day) && dayOfEra == YearStart(year) + day
  {
    var century := if dayOfEra == 146_096 then 3 else dayOfEra / 36_524;
    var inCentury := dayOfEra - 36_524 * century;
    var four := inCentury / 1461;
    var inFour := inCentury - 1461 * four;
    var one := if inFour == 1460 then 3 else inFour / 365;
    year, day := 100 * century + 4 * four + one, inFour - 365 * one;
    assert year / 4 == 25 * century + four && year / 100 == century;
  }

  lemma YearFound(year: int, day: int)
    requires 0 <= year < 400 && DayOfYear(year, day)
    ensures YearOfEra(YearStart(year) + day) == year
  {
    hide DayOfYear, YearOfEra;
    var century, four, one := year / 100, year % 100 / 4, year % 4;
    assert year == 100 * century + 4 * four + one && year / 4 == 25 * century + four;
    Quotients(century, four, one, day);
  }

  lemma Quotients(century: int, four: int, one: int, day: int)
    requires 0 <= century < 4 && 0 <= four < 25 && 0 <= one < 4 && DayOfYear(100 * century + 4 * four + one, day)
    ensures YearOfEra(36_524 * century + 1461 * four + 365 * one + day) == 100 * century + 4 * four + one
  {
    var d := 36_524 * century + 1461 * four + 365 * one + day;
    var over := if 24 * century + four + 365 * one + day >= 1460 then 1 else 0;
    var last := if d == 146_096 then 1 else 0;
    LastDayOfCentury(century, four, one, day);
    assert d / 1460 == 25 * century + four + over;
    assert d / 36_524 == century + last && d / 146_096 == last;
    assert 0 <= day - over <= 364;
  }

  /** Only the last century of an era has a day more than 36524. */
  lemma LastDayOfCentury(century: int, four: int, one: int, day: int)
    requires 0 <= century < 4 && 0 <= four < 25 && 0 <= one < 4 && DayOfYear(100 * century + 4 * four + one, day)
    ensures 1461 * four + 365 * one + day <= 36_524 && 0 <= day && (day == 365 ==> one == 3)
    ensures 1461 * four + 365 * one + day == 36_524 ==> century == 3
  {
    assert (day == 365 ==> one == 3);
    if 1461 * four + 365 * one + day == 36_524 {
      assert four == 24 && one == 3 && day == 365;
    }
  }

  // ---- months of a year ----------------------------------------------------

  /** Months from March on, with February last: the day found lies in its month. */
  lemma MonthFound(yearOfEra: int, dayOfYear: int)
    requires DayOfYear(yearOfEra, dayOfYear)
    ensures var mp := (5 * dayOfYear + 2) / 153;
            && 0 <= mp < 12
            && 1 <= dayOfYear - MonthStart(mp) + 1 <= DaysInMonth(if mp < 10 then yearOfEra else yearOfEra + 1, MonthOf(mp))
  {
  }

  lemma MonthReads(yearOfEra: int, mp: int, day: int)
    requires 0 <= mp < 12 && 1 <= day <= DaysInMonth(if mp < 10 then yearOfEra else yearOfEra + 1, MonthOf(mp))
    ensures var dayOfYear := MonthStart(mp) + day - 1;
            DayOfYear(yearOfEra, dayOfYear) && (5 * dayOfYear + 2) / 153 == mp
  {
  }

  lemma ModShift(x: int, k: int, m: int)
    requires m == 4 || m == 100 || m == 400
    ensures (x + m * k) % m == x % m
  {
    assert x + m * k == m * (x / m + k) + x % m;
  }

  lemma LeapPeriodic(year: int, era: int)
    ensures Leap(year + 400 * era) == Leap(year)
  {
    ModShift(year, 100 * era, 4);
    ModShift(year, 4 * era, 100);
    ModShift(year, era, 400);
  }

  // ---- the conversions undo each other -------------------------------------

  /** A day number split into its era, year and day of the year. */
  lemma SplitDays(days: int) returns (era: int, year: int, day: int)
    ensures 0 <= year < 400 && DayOfYear(year, day)
    ensures days + 719_468 == era * 146_097 + YearStart(year) + day
    ensures Era(days + 719_468, 146_097) == era && YearOfEra(days + 719_468 - era * 146_097) == year
  {
    hide YearOfEra, DayOfYear, Era;
    EraIsFloor(days + 719_468, 146_097);
    era := (days + 719_468) / 146_097;
    year, day := YearExists(days + 719_468 - era * 146_097);
    YearFound(year, day);
  }

  /** Every day number is a valid date, and converting the date back gives the number. */
  lemma DaysRoundTrip(days: int)
    ensures ValidDate(CivilFromDays(days)) && DaysFromCivil(CivilFromDays(days)) == days
  {
    hide YearOfEra, YearStart, Era, Leap, MonthStart;
    var era, year, day := SplitDays(days);
    MonthFound(year, day);
    LeapPeriodic(year, era);
    LeapPeriodic(year + 1, era);
    EraIsFloor(year + era * 400, 400);
  }

  /** Converting a valid date to its day number and back gives the date. */
  lemma CivilRoundTrip(c: Civil)
    requires ValidDate(c)
    ensures CivilFromDays(DaysFromCivil(c)) == c
  {
    hide YearOfEra, YearStart, Era, Leap, MonthStart;
    var y := if c.month <= 2 then c.year - 1 else c.year;
    var mp := if c.month > 2 then c.month - 3 else c.month + 9;
    var era := y / 400;
    EraIsFloor(y, 400);
    LeapPeriodic(y - era * 400, era);
    LeapPeriodic(y - era * 400 + 1, era);
    MonthReads(y - era * 400, mp, c.day);
    DayInEra(era, y - era * 400, MonthStart(mp) + c.day - 1);
    YearFound(y - era * 400, MonthStart(mp) + c.day - 1);
  }

  lemma DayInEra(era: int, year: int, day: int)
    requires 0 <= year < 400 && DayOfYear(year, day)
    ensures Era(era * 146_097 + YearStart(year) + day, 146_097) == era
  {
    hide Era;
    EraIsFloor(era * 146_097 + YearStart(year) + day, 146_097);
    assert 0 <= YearStart(year) + day < 146_097;
  }

  // ---- the calendar itself -------------------------------------------------

  /** The date after a date. */
  function NextDay(c: Civil): Civil {
    if c.day < DaysInMonth(c.year, c.month) then Civil(c.year, c.month, c.day + 1)
    else if c.month < 12 then Civil(c.year, c.month + 1, 1)
    else Civil(c.year + 1, 1, 1)
  }

  /** The days before 1 March of a year, era included. */
  function Before(year: int): int {
    Era(year, 400) * 146_097 + YearStart(year - Era(year, 400) * 400)
  }

  /** A year from March to February has the leap day of the February in it. */
  lemma YearLength(year: int)
    ensures Before(year + 1) == Before(year) + (if Leap(year + 1) then 366 else 365)
  {
    hide Leap, Era;
    EraIsFloor(year, 400);
    EraIsFloor(year + 1, 400);
    var era, y := year / 400, year % 400;
    LeapPeriodic(y + 1, era);
    YearOfEraLength(y);
    assert (year + 1) / 400 == if y == 399 then era + 1 else era;
  }

  lemma YearOfEraLength(y: int)
    requires 0 <= y < 400
    ensures (if y == 399 then 146_097 else YearStart(y + 1)) == YearStart(y) + (if Leap(y + 1) then 366 else 365)
  {
  }

  lemma NextDayNumber(c: Civil)
    requires ValidDate(c)
    ensures ValidDate(NextDay(c)) && DaysFromCivil(NextDay(c)) == DaysFromCivil(c) + 1
  {
    hide Leap, Era, YearStart;
    YearLength(c.year - 1);
  }

  /** Day 0 is 1970-01-01 and each day number is followed by the next date of the calendar. */
  lemma DaysFollowCalendar(days: int)
    ensures CivilFromDays(0) == Civil(1970, 1, 1)
    ensures CivilFromDays(days + 1) == NextDay(CivilFromDays(days))
  {
    hide CivilFromDays, DaysFromCivil, NextDay;
    DaysRoundTrip(days);
    NextDayNumber(CivilFromDays(days));
    CivilRoundTrip(NextDay(CivilFromDays(days)));
    EpochDay();
    CivilRoundTrip(Civil(1970, 1, 1));
  }

  lemma EpochDay()
    ensures ValidDate(Civil(1970, 1, 1)) && DaysFromCivil(Civil(1970, 1, 1)) == 0
  {
  }
}
