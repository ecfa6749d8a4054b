/**
 * Calendar arithmetic on UTC time values (integer milliseconds since
 * 1970-01-01T00:00:00Z): the leap-year rule and hours per year of the
 * scheduler, the day numbering of ECMA-262 (section 21.4.1, DayFromYear and
 * TimeFromYear), `Date.UTC(year, 0, 1, 0, 0, 0)`, `hourOfYearToDate`, and
 * the split of a time value into calendar fields that `toISOString` prints.
 */
module Calendar {

  /** `HOURS_IN_YEAR`: 365 * 24. */
  const HoursInCommonYear := 8760
  /** `HOURS_IN_LEAP_YEAR`: 366 * 24. */
  const HoursInLeapYear := 8784

  const MsPerSecond := 1000
  const MsPerMinute := 60000
  const MsPerHour := 3600000
  const MsPerDay := 86400000

  /**
   * `isLeapYear(year)`. JavaScript's `%` truncates toward zero where Dafny's
   * is Euclidean, but the two remainders are zero for the same years, and
   * the rule only compares remainders with zero (`LeapRuleInJs`).
   */
  predicate IsLeapYear(year: int): (leap: bool)
    ensures leap ==> year % 4 == 0
    ensures year % 4 == 0 && year % 100 != 0 ==> leap
    ensures year % 100 == 0 ==> (leap <==> year % 400 == 0)
  {
    (year % 4 == 0 && year % 100 != 0) || year % 400 == 0
  }

  /** JavaScript's `a % b` for a positive `b`: the remainder takes the sign of `a`. */
  function JsRem(a: int, b: int): (r: int)
    requires b > 0
    ensures -b < r < b
    ensures a >= 0 ==> r == a % b
  {
    if a >= 0 then a % b else -((-a) % b)
  }

  /**
   * `isLeapYear` with JavaScript's truncating `%` decides the same years as
   * the rule with Dafny's `%`, negative years included.
   */
  lemma LeapRuleInJs(year: int)
    ensures IsLeapYear(year) <==>
              (JsRem(year, 4) == 0 && JsRem(year, 100) != 0) || JsRem(year, 400) == 0
  {
    NegatedRemZero(year);
  }

  /** `-a` is a multiple of 4, 100 or 400 exactly when `a` is. */
  lemma NegatedRemZero(a: int)
    ensures (-a) % 4 == 0 <==> a % 4 == 0
    ensures (-a) % 100 == 0 <==> a % 100 == 0
    ensures (-a) % 400 == 0 <==> a % 400 == 0
  {
    NegatedMultipleOf4(a);
    NegatedMultipleOf100(a);
    NegatedMultipleOf400(a);
  }

  // One lemma per divisor: each goal, with its divisor a literal, is small;
  // the three together in one context are not.

  lemma NegatedMultipleOf4(a: int)
    ensures (-a) % 4 == 0 <==> a % 4 == 0
  {
  }

  lemma NegatedMultipleOf100(a: int)
    ensures (-a) % 100 == 0 <==> a % 100 == 0
  {
  }

  lemma NegatedMultipleOf400(a: int)
    ensures (-a) % 400 == 0 <==> a % 400 == 0
  {
  }

  function DaysInYear(year: int): nat {
    if IsLeapYear(year) then 366 else 365
  }

  /**
   * `isLeapYear(year) ? HOURS_IN_LEAP_YEAR : HOURS_IN_YEAR`: the whole hours
   * of the year, one day's worth more in a leap year.
   */
  function HoursInYear(year: int): (h: nat)
    ensures h == 24 * DaysInYear(year)
    ensures h == HoursInLeapYear <==> IsLeapYear(year)
    ensures h == HoursInCommonYear || h == HoursInLeapYear
  {
    if IsLeapYear(year) then HoursInLeapYear else HoursInCommonYear
  }

  /** The four cases of the Gregorian rule. */
  lemma LeapYearExamples()
    ensures IsLeapYear(2000) && !IsLeapYear(1900) && IsLeapYear(2024) && !IsLeapYear(2023)
    ensures HoursInYear(2000) == 8784 && HoursInYear(1900) == 8760
  {
  }

  /**
   * DayFromYear of ECMA-262: the number of days from 1970-01-01 to January 1
   * of `y` (negative before 1970). Dafny's `/` by a positive constant is the
   * floor the standard asks for.
   */
  function DayFromYear(y: int): int {
    365 * (y - 1970) + (y - 1969) / 4 - (y - 1901) / 100 + (y - 1601) / 400
  }

  /** Year `y` has `DaysInYear(y)` days: 366 when it is a leap year, else 365. */
  lemma {:induction false} YearLength(y: int)
    ensures DayFromYear(y + 1) - DayFromYear(y) == DaysInYear(y)
  {
    var a, b, c := y - 1969, y - 1901, y - 1601;
    FloorStep4(a, y);
    FloorStep100(b, y);
    FloorStep400(c, y);
    LeapDays(y);
  }

  /** The extra day of a leap year, counted by the three remainders of the rule. */
  lemma LeapDays(y: int)
    ensures DaysInYear(y) == 365 + (if y % 4 == 0 then 1 else 0) - (if y % 100 == 0 then 1 else 0)
                                  + (if y % 400 == 0 then 1 else 0)
  {
    if y % 400 == 0 {
      CenturyOfCycle(y);
    }
    if y % 100 == 0 {
      QuadOfCentury(y);
    }
  }

  lemma CenturyOfCycle(y: int)
    requires y % 400 == 0
    ensures y % 100 == 0
  {
    var k := 4 * (y / 400);
    assert y == 100 * k;
  }

  lemma QuadOfCentury(y: int)
    requires y % 100 == 0
    ensures y % 4 == 0
  {
    var k := 25 * (y / 100);
    assert y == 4 * k;
  }

  /*
   * Each count of leap-rule years in DayFromYear moves on exactly when `y`
   * is a multiple of its period.
   */

  lemma FloorStep4(a: int, y: int)
    requires a == y - 1969
    ensures (a + 1) / 4 - a / 4 == if y % 4 == 0 then 1 else 0
  {
    var q, r := a / 4, a % 4;
    assert a == 4 * q + r && 0 <= r < 4;
    if r == 3 {
      assert a + 1 == 4 * (q + 1);
      assert y == 4 * (q + 493);
    } else {
      assert a + 1 == 4 * q + (r + 1);
      assert y == 4 * (q + 492) + (r + 1);
    }
  }

  lemma FloorStep100(a: int, y: int)
    requires a == y - 1901
    ensures (a + 1) / 100 - a / 100 == if y % 100 == 0 then 1 else 0
  {
    var q, r := a / 100, a % 100;
    assert a == 100 * q + r && 0 <= r < 100;
    if r == 99 {
      assert a + 1 == 100 * (q + 1);
      assert y == 100 * (q + 20);
    } else {
      assert a + 1 == 100 * q + (r + 1);
      assert y == 100 * (q + 19) + (r + 1);
    }
  }

  lemma FloorStep400(a: int, y: int)
    requires a == y - 1601
    ensures (a + 1) / 400 - a / 400 == if y % 400 == 0 then 1 else 0
  {
    var q, r := a / 400, a % 400;
    assert a == 400 * q + r && 0 <= r < 400;
    if r == 399 {
      assert a + 1 == 400 * (q + 1);
      assert y == 400 * (q + 5);
    } else {
      assert a + 1 == 400 * q + (r + 1);
      assert y == 400 * (q + 4) + (r + 1);
    }
  }

  /** The Gregorian calendar repeats every 400 years, which hold 146097 days. */
  lemma GregorianCycle(y: int)
    ensures IsLeapYear(y + 400) == IsLeapYear(y)
    ensures DayFromYear(y + 400) - DayFromYear(y) == 146097
  {
    var a, b, c := y - 1969, y - 1901, y - 1601;
    assert (a + 400) / 4 == a / 4 + 100;
    assert (b + 400) / 100 == b / 100 + 4;
    assert (c + 400) / 400 == c / 400 + 1;
    assert (y + 400) % 4 == y % 4 && (y + 400) % 100 == y % 100 && (y + 400) % 400 == y % 400;
  }

  /** Day numbers of January 1 grow by at least 365 per year. */
  lemma {:induction false} DayFromYearGrows(a: int, b: int)
    requires a <= b
    ensures DayFromYear(a) + 365 * (b - a) <= DayFromYear(b)
    decreases b - a
  {
    if a < b {
      DayFromYearGrows(a, b - 1);
      YearLength(b - 1);
    }
  }

  /** TimeFromYear of ECMA-262: midnight UTC on January 1 of `y`. */
  function StartOfYearUtc(y: int): int {
    MsPerDay * DayFromYear(y)
  }

  /**
   * From one New Year to the next there are exactly the hours the scheduler
   * counts for the year.
   */
  lemma YearSpan(y: int)
    ensures StartOfYearUtc(y + 1) - StartOfYearUtc(y) == HoursInYear(y) * MsPerHour
  {
    YearLength(y);
  }

  /**
   * `Date.UTC(year, 0, 1, 0, 0, 0)` as ECMA-262 (section 21.4.3.4) defines
   * it: a year from 0 to 99 is read as 1900 + year.
   */
  function DateUtcNewYear(year: int): (t: int)
    ensures 0 <= year <= 99 ==> t == StartOfYearUtc(1900 + year)
    ensures !(0 <= year <= 99) ==> t == StartOfYearUtc(year)
  {
    var yr := if 0 <= year <= 99 then 1900 + year else year;
    MsPerDay * DayFromYear(yr)
  }

  /** `hourOfYearToDate(hourOfYear, year)` exactly as written. */
  function HourOfYearToDateAsWritten(hourOfYear: int, year: int): (t: int)
    ensures 0 <= year <= 99 && hourOfYear >= 0 ==> StartOfYearUtc(1900 + year) <= t
    ensures !(0 <= year <= 99) && 0 <= hourOfYear < HoursInYear(year) ==>
              StartOfYearUtc(year) <= t < StartOfYearUtc(year + 1)
  {
    YearSpan(year);
    DateUtcNewYear(year) + hourOfYear * 60 * 60 * 1000
  }

  /**
   * For a two-digit year the written code anchors the hours in the
   * twentieth century: hour 0 of year 50 is 1950-01-01, and the last hour
   * it accepts for year 0 (a leap year by `isLeapYear`, while 1900 is not)
   * lies past the end of 1900.
   */
  lemma TwoDigitYearMisplaced()
    ensures HourOfYearToDateAsWritten(0, 50) == StartOfYearUtc(1950)
    ensures HourOfYearToDateAsWritten(0, 50) != StartOfYearUtc(50)
    ensures HoursInYear(0) == HoursInLeapYear
    ensures HourOfYearToDateAsWritten(HoursInYear(0) - 1, 0) >= StartOfYearUtc(1901)
  {
    DayFromYearGrows(50, 1950);
  }

  /**
   * `hourOfYearToDate(hourOfYear, year)` anchored at January 1 of `year`
   * itself: the instant `hourOfYear` hours into the year, which stays inside
   * the year whenever the hour is one the year has. It agrees with the
   * written code for every year outside 0 to 99.
   */
  function HourOfYearToDate(hourOfYear: nat, year: int): (t: int)
    ensures hourOfYear < HoursInYear(year) ==> StartOfYearUtc(year) <= t < StartOfYearUtc(year + 1)
    ensures !(0 <= year <= 99) ==> t == HourOfYearToDateAsWritten(hourOfYear, year)
    ensures OnTheHour(t)
  {
    YearSpan(year);
    var t := StartOfYearUtc(year) + hourOfYear * MsPerHour;
    HoursOnTheHour(24 * DayFromYear(year) + hourOfYear);
    t
  }

  lemma HoursOnTheHour(k: int)
    ensures OnTheHour(k * MsPerHour)
  {
  }

  /** An instant at a whole hour of UTC. */
  predicate OnTheHour(t: int) {
    t % MsPerHour == 0
  }

  /** Different hours of one year give different instants. */
  lemma HourOfYearToDateInjective(h1: nat, h2: nat, year: int)
    ensures HourOfYearToDate(h1, year) == HourOfYearToDate(h2, year) <==> h1 == h2
  {
  }

  // ---------------------------------------------------------------------
  // Calendar fields of a time value

  function DaysInMonth(year: int, month: int): (n: nat)
    requires 1 <= month <= 12
    ensures 28 <= n <= 31
  {
    if month == 2 then (if IsLeapYear(year) then 29 else 28)
    else if month == 4 || month == 6 || month == 9 || month == 11 then 30
    else 31
  }

  /** Days of the year before the first of `month` (13 stands for year end). */
  function DaysBeforeMonth(year: int, month: int): (n: nat)
    requires 1 <= month <= 13
    decreases month
  {
    if month == 1 then 0 else DaysBeforeMonth(year, month - 1) + DaysInMonth(year, month - 1)
  }

  /** The twelve months add up to the year. */
  lemma MonthsFillYear(year: int)
    ensures DaysBeforeMonth(year, 13) == DaysInYear(year)
  {
    assert DaysBeforeMonth(year, 3) == 59 + (if IsLeapYear(year) then 1 else 0);
    assert DaysBeforeMonth(year, 7) == 181 + (if IsLeapYear(year) then 1 else 0);
    assert DaysBeforeMonth(year, 10) == 273 + (if IsLeapYear(year) then 1 else 0);
  }

  lemma {:induction false} DaysBeforeMonthGrows(year: int, a: int, b: int)
    requires 1 <= a <= b <= 13
    ensures DaysBeforeMonth(year, a) + 28 * (b - a) <= DaysBeforeMonth(year, b)
    decreases b - a
  {
    if a < b {
      DaysBeforeMonthGrows(year, a, b - 1);
    }
  }

  datatype DateTime = DateTime(year: int, month: int, day: int, hour: int, minute: int, second: int, ms: int)

  /** Fields that name an existing UTC instant. */
  predicate ValidDateTime(f: DateTime) {
    1 <= f.month <= 12 && 1 <= f.day <= DaysInMonth(f.year, f.month)
    && 0 <= f.hour < 24 && 0 <= f.minute < 60 && 0 <= f.second < 60 && 0 <= f.ms < 1000
  }

  /** MakeDay(year, month - 1, day) of ECMA-262: the day number of the date. */
  function DayNumber(f: DateTime): int
    requires 1 <= f.month <= 12
  {
    DayFromYear(f.year) + DaysBeforeMonth(f.year, f.month) + f.day - 1
  }

  /** MakeTime(hour, minute, second, ms) of ECMA-262: milliseconds into the day. */
  function TimeOfDay(f: DateTime): int {
    f.hour * MsPerHour + f.minute * MsPerMinute + f.second * MsPerSecond + f.ms
  }

  /** MakeDate(MakeDay(…), MakeTime(…)): the time value the fields name. */
  function Compose(f: DateTime): int
    requires 1 <= f.month <= 12
  {
    DayNumber(f) * MsPerDay + TimeOfDay(f)
  }

  /** YearFromTime of ECMA-262 on day numbers: the year that holds day `d`. */
  function YearOfDay(d: int, y: int): (r: int)
    ensures DayFromYear(r) <= d < DayFromYear(r + 1)
    decreases if d >= DayFromYear(y) then 0 else 1,
              if d >= DayFromYear(y) then d - DayFromYear(y) else DayFromYear(y) - d
  {
    YearsAscend(y);
    if d >= DayFromYear(y + 1) then YearOfDay(d, y + 1)
    else if d < DayFromYear(y) then YearOfDay(d, y - 1)
    else y
  }

  lemma YearsAscend(y: int)
    ensures DayFromYear(y - 1) < DayFromYear(y) < DayFromYear(y + 1)
  {
    YearLength(y);
    YearLength(y - 1);
  }

  /** MonthFromTime of ECMA-262 on the day of the year. */
  function MonthOfDay(year: int, dayOfYear: int, m: int): (r: int)
    requires 1 <= m <= 12 && DaysBeforeMonth(year, m) <= dayOfYear < DaysInYear(year)
    ensures m <= r <= 12
    ensures DaysBeforeMonth(year, r) <= dayOfYear < DaysBeforeMonth(year, r + 1)
    decreases 12 - m
  {
    MonthsFillYear(year);
    if m == 12 || dayOfYear < DaysBeforeMonth(year, m + 1) then m
    else MonthOfDay(year, dayOfYear, m + 1)
  }

  /**
   * The UTC calendar fields of a time value (what `getUTCFullYear`,
   * `getUTCMonth` + 1, `getUTCDate`, … return): valid fields that compose
   * back to the same instant.
   */
  function Decompose(t: int): (f: DateTime)
    ensures ValidDateTime(f)
    ensures Compose(f) == t
    ensures StartOfYearUtc(f.year) <= t < StartOfYearUtc(f.year + 1)
  {
    var day, msOfDay := t / MsPerDay, t % MsPerDay;
    var year := YearOfDay(day, 1970);
    var dayOfYear := day - DayFromYear(year);
    DayOffsetBelow(day, year);
    var month := MonthOfDay(year, dayOfYear, 1);
    var date := dayOfYear - DaysBeforeMonth(year, month) + 1;
    var hour, inHour := msOfDay / MsPerHour, msOfDay % MsPerHour;
    var minute, inMinute := inHour / MsPerMinute, inHour % MsPerMinute;
    ClockSplit(msOfDay);
    InstantInYear(t, year);
    DateTime(year, month, date, hour, minute, inMinute / MsPerSecond, inMinute % MsPerSecond)
  }

  /** A day of year `y` lies a whole number of days, fewer than the year has, after its New Year. */
  lemma DayOffsetBelow(d: int, y: int)
    requires DayFromYear(y) <= d < DayFromYear(y + 1)
    ensures 0 <= d - DayFromYear(y) < DaysInYear(y)
  {
    YearLength(y);
  }

  /** The hour, minute, second and millisecond fields of a time of day. */
  lemma ClockSplit(ms: int)
    requires 0 <= ms < MsPerDay
    ensures var hour, inHour := ms / MsPerHour, ms % MsPerHour;
      var minute, inMinute := inHour / MsPerMinute, inHour % MsPerMinute;
      0 <= hour < 24 && 0 <= minute < 60 && 0 <= inMinute / MsPerSecond < 60
      && hour * MsPerHour + minute * MsPerMinute + inMinute / MsPerSecond * MsPerSecond + inMinute % MsPerSecond == ms
  {
  }

  /** An instant whose day lies in year `y` lies between its New Year and the next. */
  lemma InstantInYear(t: int, y: int)
    requires DayFromYear(y) <= t / MsPerDay < DayFromYear(y + 1)
    ensures StartOfYearUtc(y) <= t < StartOfYearUtc(y + 1)
  {
  }

  /**
   * An instant between New Year of `a` and New Year of `b` falls in a year
   * from `a` to `b - 1`.
   */
  lemma InstantYearBetween(t: int, a: int, b: int)
    requires StartOfYearUtc(a) <= t < StartOfYearUtc(b)
    ensures a <= Decompose(t).year < b
  {
    YearBetween(t, Decompose(t).year, a, b);
  }

  lemma YearBetween(t: int, y: int, a: int, b: int)
    requires StartOfYearUtc(y) <= t < StartOfYearUtc(y + 1)
    requires StartOfYearUtc(a) <= t < StartOfYearUtc(b)
    ensures a <= y < b
  {
    if y < a {
      DayFromYearGrows(y + 1, a);
    } else if y >= b {
      DayFromYearGrows(b, y);
    }
  }

  lemma YearOfDayUnique(d: int, a: int, b: int)
    requires DayFromYear(a) <= d < DayFromYear(a + 1)
    requires DayFromYear(b) <= d < DayFromYear(b + 1)
    ensures a == b
  {
    if a < b {
      DayFromYearGrows(a + 1, b);
    } else if b < a {
      DayFromYearGrows(b + 1, a);
    }
  }

  lemma MonthOfDayUnique(year: int, dayOfYear: int, a: int, b: int)
    requires 1 <= a <= 12 && 1 <= b <= 12
    requires DaysBeforeMonth(year, a) <= dayOfYear < DaysBeforeMonth(year, a + 1)
    requires DaysBeforeMonth(year, b) <= dayOfYear < DaysBeforeMonth(year, b + 1)
    ensures a == b
  {
    if a < b {
      LaterMonthStartsLater(year, a, b);
    } else if b < a {
      LaterMonthStartsLater(year, b, a);
    }
  }

  /** A later month of the same year starts no earlier than the end of an earlier one. */
  lemma LaterMonthStartsLater(year: int, a: int, b: int)
    requires 1 <= a < b <= 12
    ensures DaysBeforeMonth(year, a + 1) <= DaysBeforeMonth(year, b)
  {
    DaysBeforeMonthGrows(year, a + 1, b);
  }

  /** A day number and a time of day are recovered from the instant. */
  lemma SplitInstant(d1: int, r1: int, d2: int, r2: int)
    requires 0 <= r1 < MsPerDay && 0 <= r2 < MsPerDay
    requires d1 * MsPerDay + r1 == d2 * MsPerDay + r2
    ensures d1 == d2 && r1 == r2
  {
  }

  /** The date fields are recovered from the day number. */
  lemma DateFromDayNumber(f: DateTime, g: DateTime)
    requires ValidDateTime(f) && ValidDateTime(g) && DayNumber(f) == DayNumber(g)
    ensures f.year == g.year && f.month == g.month && f.day == g.day
  {
    YearFromDayNumber(f, g);
    MonthFromDayNumber(f, g);
  }

  lemma YearFromDayNumber(f: DateTime, g: DateTime)
    requires ValidDateTime(f) && ValidDateTime(g) && DayNumber(f) == DayNumber(g)
    ensures f.year == g.year
  {
    YearOfDayNumber(f);
    YearOfDayNumber(g);
  }

  lemma YearOfDayNumber(f: DateTime)
    requires ValidDateTime(f)
    ensures YearOfDay(DayNumber(f), 1970) == f.year
  {
    DayNumberInYear(f);
    YearOfDayIs(DayNumber(f), f.year);
  }

  /** The year that holds day `d` is the only year whose days include `d`. */
  lemma YearOfDayIs(d: int, y: int)
    requires DayFromYear(y) <= d < DayFromYear(y + 1)
    ensures YearOfDay(d, 1970) == y
  {
    YearOfDayUnique(d, YearOfDay(d, 1970), y);
  }

  lemma DayNumberInYear(f: DateTime)
    requires ValidDateTime(f)
    ensures DayFromYear(f.year) <= DayNumber(f) < DayFromYear(f.year + 1)
  {
    DayInYear(f);
    DayOffsetInYear(f.year, DayNumber(f) - DayFromYear(f.year));
  }

  lemma DayOffsetInYear(y: int, off: int)
    requires 0 <= off < DaysInYear(y)
    ensures DayFromYear(y) <= DayFromYear(y) + off < DayFromYear(y + 1)
  {
    YearLength(y);
  }

  lemma MonthFromDayNumber(f: DateTime, g: DateTime)
    requires ValidDateTime(f) && ValidDateTime(g) && DayNumber(f) == DayNumber(g) && f.year == g.year
    ensures f.month == g.month && f.day == g.day
  {
    DayInYear(f);
    DayInYear(g);
    var doy := DayNumber(f) - DayFromYear(f.year);
    MonthOfDayUnique(f.year, doy, f.month, g.month);
  }

  lemma DayInYear(f: DateTime)
    requires ValidDateTime(f)
    ensures DaysBeforeMonth(f.year, f.month) <= DayNumber(f) - DayFromYear(f.year) < DaysBeforeMonth(f.year, f.month + 1)
    ensures DayNumber(f) - DayFromYear(f.year) < DaysInYear(f.year)
  {
    MonthsFillYear(f.year);
    DaysBeforeMonthGrows(f.year, f.month + 1, 13);
  }

  /** The clock fields are recovered from the time of day. */
  lemma ClockFromTimeOfDay(f: DateTime, g: DateTime)
    requires ValidDateTime(f) && ValidDateTime(g) && TimeOfDay(f) == TimeOfDay(g)
    ensures f.hour == g.hour && f.minute == g.minute && f.second == g.second && f.ms == g.ms
  {
  }

  /** Different valid fields name different instants. */
  lemma ComposeInjective(f: DateTime, g: DateTime)
    requires ValidDateTime(f) && ValidDateTime(g) && Compose(f) == Compose(g)
    ensures f == g
  {
    SplitInstant(DayNumber(f), TimeOfDay(f), DayNumber(g), TimeOfDay(g));
    DateFromDayNumber(f, g);
    ClockFromTimeOfDay(f, g);
  }

  /**
   * Valid fields are exactly the fields of the instant they compose to: the
   * split of a time value into fields and `Compose` are inverse bijections.
   */
  lemma DecomposeCompose(f: DateTime)
    requires ValidDateTime(f)
    ensures Decompose(Compose(f)) == f
  {
    ComposeInjective(f, Decompose(Compose(f)));
  }
}
