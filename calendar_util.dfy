/** CalendarUtil: the leap-year rule, the day and whole-year counts between
    two dates of the proleptic Gregorian calendar that java.time uses
    (ISO 8601:2004, section 3.2.1), and the ranges of the random day and
    date generators. */
module CalendarUtil {
  import opened Wrappers

  datatype Month =
    | January | February | March | April | May | June
    | July | August | September | October | November | December

  /** Month.getValue. */
  function MonthValue(m: Month): (v: int)
    ensures 1 <= v <= 12
  {
    match m
    case January => 1   case February => 2  case March => 3
    case April => 4     case May => 5       case June => 6
    case July => 7      case August => 8    case September => 9
    case October => 10  case November => 11 case December => 12
  }

  /** Month.of for the values it accepts. */
  function MonthOf(v: int): (m: Month)
    requires 1 <= v <= 12
    ensures MonthValue(m) == v
  {
    if v == 1 then January else if v == 2 then February else if v == 3 then March
    else if v == 4 then April else if v == 5 then May else if v == 6 then June
    else if v == 7 then July else if v == 8 then August else if v == 9 then September
    else if v == 10 then October else if v == 11 then November else December
  }

  lemma MonthOfValue(m: Month)
    ensures MonthOf(MonthValue(m)) == m
  {
  }

  /** Month.minLength: the length in a common year. */
  function MinLength(m: Month): int {
    match m
    case February => 28
    case April | June | September | November => 30
    case _ => 31
  }

  /** Month.length(leapYear). */
  function LengthOfMonth(m: Month, leap: bool): (n: int)
    ensures 28 <= n <= 31
    ensures n == MinLength(m) || (leap && m == February && n == 29)
  {
    if leap && m == February then 29 else MinLength(m)
  }

  /** The year range of LocalDate. */
  const MinYear := -999_999_999
  const MaxYear := 999_999_999

  /** The leap-year rule of the proleptic Gregorian calendar, as
      IsoChronology.isLeapYear and LocalDate apply it to every year. */
  predicate IsoLeapYear(year: int) {
    year % 4 == 0 && (year % 100 != 0 || year % 400 == 0)
  }

  /** A LocalDate value: year, month and day of month. */
  datatype Date = Date(year: int, month: Month, day: int)

  /** What LocalDate.of accepts. */
  predicate ValidDate(d: Date) {
    MinYear <= d.year <= MaxYear && 1 <= d.day <= LengthOfMonth(d.month, IsoLeapYear(d.year))
  }

  /** LocalDate.isAfter: compares year, then month, then day. A date is
      never after itself, and the year decides unless it is the same. */
  function IsAfter(a: Date, b: Date): (after: bool)
    ensures after ==> a != b
    ensures a.year != b.year ==> (after <==> a.year > b.year)
    ensures a.year == b.year && a.month == b.month ==> (after <==> a.day > b.day)
  {
    a.year > b.year ||
    (a.year == b.year && (MonthValue(a.month) > MonthValue(b.month) ||
      (a.month == b.month && a.day > b.day)))
  }

  lemma IsAfterIsStrictTotal(a: Date, b: Date)
    ensures !(IsAfter(a, b) && IsAfter(b, a))
    ensures a == b || IsAfter(a, b) || IsAfter(b, a)
  {
    if a.year == b.year && MonthValue(a.month) == MonthValue(b.month) {
      MonthOfValue(a.month);
      MonthOfValue(b.month);
    }
  }

  // Day numbers

  /** Days from 0000-01-01 to the first day of `year` (negative before year
      0): 365 per year plus one per leap year in between. */
  function YearStart(year: int): int {
    365 * year + Multiples(year, 4) - Multiples(year, 100) + Multiples(year, 400)
  }

  /** The number of multiples of k in [0, year), negated for the multiples
      in [year, 0) when year is negative. */
  function Multiples(year: int, k: int): int
    requires k > 0
  {
    (year + k - 1) / k
  }

  function YearLength(year: int): int {
    if IsoLeapYear(year) then 366 else 365
  }

  /** An independent reference for YearStart: add up the year lengths one
      year at a time from year 0. */
  ghost function YearStartByCounting(year: int): int
    decreases if year < 0 then -year else year
  {
    if year == 0 then 0
    else if year > 0 then YearStartByCounting(year - 1) + YearLength(year - 1)
    else YearStartByCounting(year + 1) - YearLength(year)
  }

  /** (x + 1) / k exceeds x / k exactly when k divides x + 1. */
  lemma FloorStep(x: int, k: int)
    requires k > 0
    ensures (x + 1) / k - x / k == if (x + 1) % k == 0 then 1 else 0
  {
    var q, r := x / k, x % k;
    assert x == q * k + r && 0 <= r < k;
    if r == k - 1 {
      DivUnique(x + 1, k, q + 1, 0);
    } else {
      DivUnique(x + 1, k, q, r + 1);
    }
  }

  lemma DivUnique(x: int, k: int, q: int, r: int)
    requires k > 0 && x == q * k + r && 0 <= r < k
    ensures x / k == q && x % k == r
  {
    var q', r' := x / k, x % k;
    assert q * k + r == q' * k + r';
    var d := q - q';
    assert d * k == r' - r by {
      assert d * k == q * k - q' * k;
    }

  }

  /** A year is leap exactly when the next year starts 366 days after it;
      this is what comparing the year's last day number with 366 decides. */
  lemma YearStartStep(year: int)
    ensures YearStart(year + 1) == YearStart(year) + YearLength(year)
    ensures YearStart(year + 1) - YearStart(year) == 366 <==> IsoLeapYear(year)
  {
    MultiplesStep(year, 4);
    MultiplesStep(year, 100);
    MultiplesStep(year, 400);
    DivisorsChain(year);
  }

  /** A multiple of 400 is a multiple of 100, which is a multiple of 4. */
  lemma DivisorsChain(year: int)
    ensures year % 400 == 0 ==> year % 100 == 0
    ensures year % 100 == 0 ==> year % 4 == 0
  {
    if year % 400 == 0 {
      DivUnique(year, 100, year / 400 * 4, 0);
    }
    if year % 100 == 0 {
      DivUnique(year, 4, year / 100 * 25, 0);
    }
  }

  /** One more year adds one multiple of k exactly when k divides the year. */
  lemma MultiplesStep(year: int, k: int)
    requires k > 0
    ensures Multiples(year + 1, k) == Multiples(year, k) + if year % k == 0 then 1 else 0
  {
    FloorStep(year + k - 1, k);
    ModShift(year, k);
  }

  /** Adding the modulus does not change the remainder. */
  lemma ModShift(x: int, k: int)
    requires k > 0
    ensures (x + k) % k == x % k
  {
    DivUnique(x + k, k, x / k + 1, x % k);
  }

  lemma {:induction false} YearStartCounts(year: int)
    ensures YearStart(year) == YearStartByCounting(year)
    decreases if year < 0 then -year else year
  {
    if year > 0 {
      YearStartCounts(year - 1);
      YearStartStep(year - 1);
    } else if year < 0 {
      YearStartCounts(year + 1);
      YearStartStep(year);
    }
  }

  /** Later years start later, by at least 365 days a year. */
  lemma {:induction false} YearStartGrows(y1: int, y2: int)
    requires y1 <= y2
    ensures YearStart(y2) >= YearStart(y1) + 365 * (y2 - y1)
    decreases y2 - y1
  {
    if y1 < y2 {
      YearStartGrows(y1, y2 - 1);
      YearStartStep(y2 - 1);
    }
  }

  // isLeapYear asks java.util.Calendar, whose default GregorianCalendar
  // follows the Julian calendar before its cutover in October 1582.

  /** The year in which GregorianCalendar switches from the Julian to the
      Gregorian calendar: 4 October 1582 is followed by 15 October. */
  const GregorianCutoverYear := 1582

  /** The years a GregorianCalendar holds whole: it keeps its time as a
      long count of milliseconds from 1970, which reaches from December
      292,269,055 BC to August 292,278,994 AD. Outside these years the
      calendar's arithmetic wraps, and the leap rules below say nothing
      about what isLeapYear returns there. */
  const CalendarMinYear := -292_269_053
  const CalendarMaxYear := 292_278_993

  /** Days from the start of the Julian year 0 to the first day of `year`:
      365 per year plus one per multiple of 4 in between. */
  function JulianYearStart(year: int): int {
    365 * year + Multiples(year, 4)
  }

  /** Calendar.getActualMaximum(DAY_OF_YEAR) of a GregorianCalendar set to
      `year`: a Julian year before the cutover, the cutover year without the
      ten days it skips, a Gregorian year after it. */
  function CalendarDaysInYear(year: int): int {
    if year < GregorianCutoverYear then JulianYearStart(year + 1) - JulianYearStart(year)
    else if year == GregorianCutoverYear then 365 - 10
    else YearStart(year + 1) - YearStart(year)
  }

  /** isLeapYear: the calendar year has 366 days. That is the Julian rule up
      to the cutover year and the Gregorian rule after it. It models
      isLeapYear for the years CalendarMinYear to CalendarMaxYear only. */
  function IsLeapYear(year: int): (leap: bool)
    ensures leap <==> if year <= GregorianCutoverYear then year % 4 == 0 else IsoLeapYear(year)
    ensures year > GregorianCutoverYear ==> (leap <==> IsoLeapYear(year))
  {
    MultiplesStep(year, 4);
    YearStartStep(year);
    CalendarDaysInYear(year) == 366
  }

  lemma LeapYearExamples()
    ensures IsLeapYear(2016) && IsLeapYear(2008) && IsLeapYear(2000) && IsLeapYear(2012)
    ensures !IsLeapYear(2009) && !IsLeapYear(1900)
    ensures IsLeapYear(1500) && !IsoLeapYear(1500) && !IsLeapYear(1582) && IsLeapYear(4)
  {
  }

  /** Days of the year before the first day of month `m`. */
  function DaysBeforeMonth(m: Month, leap: bool): int {
    var common := match m
      case January => 0     case February => 31   case March => 59
      case April => 90      case May => 120       case June => 151
      case July => 181      case August => 212    case September => 243
      case October => 273   case November => 304  case December => 334;
    if leap && MonthValue(m) > 2 then common + 1 else common
  }

  /** The months tile the year in order. */
  lemma MonthsTileYear(m1: Month, m2: Month, leap: bool)
    ensures MonthValue(m1) < MonthValue(m2) ==>
      DaysBeforeMonth(m1, leap) + LengthOfMonth(m1, leap) <= DaysBeforeMonth(m2, leap)
    ensures DaysBeforeMonth(m1, leap) + LengthOfMonth(m1, leap) <= if leap then 366 else 365
  {
  }

  /** The day number of a date: days since 0000-01-01. java.time counts from
      1970-01-01, which is day 719528 here; differences are the same. */
  function DayNumber(d: Date): int {
    YearStart(d.year) + DaysBeforeMonth(d.month, IsoLeapYear(d.year)) + d.day - 1
  }

  lemma EpochDay()
    ensures DayNumber(Date(1970, January, 1)) == 719528
  {
  }

  /** Day numbers follow the calendar order. */
  lemma DayNumberOrder(a: Date, b: Date)
    requires ValidDate(a) && ValidDate(b)
    ensures IsAfter(b, a) <==> DayNumber(a) < DayNumber(b)
    ensures a == b <==> DayNumber(a) == DayNumber(b)
  {
    if a.year < b.year {
      EarlierYearFirst(a, b);
    } else if b.year < a.year {
      EarlierYearFirst(b, a);
    } else {
      SameYearOrder(a, b);
    }
  }

  /** A valid date falls inside its year. */
  lemma DayOfYearBounds(d: Date)
    requires ValidDate(d)
    ensures YearStart(d.year) <= DayNumber(d) < YearStart(d.year) + YearLength(d.year)
  {
    MonthsTileYear(d.month, d.month, IsoLeapYear(d.year));
  }

  lemma EarlierYearFirst(a: Date, b: Date)
    requires ValidDate(a) && ValidDate(b) && a.year < b.year
    ensures DayNumber(a) < DayNumber(b)
  {
    DayOfYearBounds(a);
    DayOfYearBounds(b);
    YearStartStep(a.year);
    YearStartGrows(a.year + 1, b.year);
  }

  lemma SameYearOrder(a: Date, b: Date)
    requires ValidDate(a) && ValidDate(b) && a.year == b.year
    ensures IsAfter(b, a) <==> DayNumber(a) < DayNumber(b)
    ensures a == b <==> DayNumber(a) == DayNumber(b)
  {
    MonthsTileYear(a.month, b.month, IsoLeapYear(a.year));
    MonthsTileYear(b.month, a.month, IsoLeapYear(b.year));
    if MonthValue(a.month) == MonthValue(b.month) {
      MonthOfValue(a.month);
      MonthOfValue(b.month);
    }
  }

  // getDaysBetween

  const TwoTo31 := 0x8000_0000
  const TwoTo32 := 0x1_0000_0000

  /** The (int) cast of a long: the value of the low 32 bits, read as two's
      complement. */
  function ToInt(x: int): (r: int)
    ensures -TwoTo31 <= r < TwoTo31
    ensures (x - r) % TwoTo32 == 0
    ensures -TwoTo31 <= x < TwoTo31 ==> r == x
  {
    (x + TwoTo31) % TwoTo32 - TwoTo31
  }

  /** getDaysBetween: ChronoUnit.DAYS.between (the difference of the day
      numbers) cast to int. */
  function DaysBetween(startDate: Date, endDate: Date): (days: int)
    ensures -TwoTo31 <= days < TwoTo31
    ensures (DayNumber(endDate) - DayNumber(startDate) - days) % TwoTo32 == 0
  {
    ToInt(DayNumber(endDate) - DayNumber(startDate))
  }

  /** Within the int range the result is the signed number of days, and it
      is positive exactly when the end date is after the start date. */
  lemma DaysBetweenCounts(startDate: Date, endDate: Date)
    requires ValidDate(startDate) && ValidDate(endDate)
    requires -TwoTo31 <= DayNumber(endDate) - DayNumber(startDate) < TwoTo31
    ensures DaysBetween(startDate, endDate) == DayNumber(endDate) - DayNumber(startDate)
    ensures DaysBetween(startDate, endDate) > 0 <==> IsAfter(endDate, startDate)
    ensures DaysBetween(startDate, endDate) == 0 <==> startDate == endDate
  {
    DayNumberOrder(startDate, endDate);
  }

  /** Swapping the dates negates the result, with int negation (which wraps
      at -2^31); within the int range it is plain negation. */
  lemma DaysBetweenAntisymmetric(a: Date, b: Date)
    ensures DaysBetween(a, b) == ToInt(-DaysBetween(b, a))
    ensures DaysBetween(b, a) != -TwoTo31 ==> DaysBetween(a, b) == -DaysBetween(b, a)
    ensures DaysBetween(a, a) == 0
  {
    var x := DayNumber(b) - DayNumber(a);
    var r := DaysBetween(b, a);
    assert (-x - r) % TwoTo32 == 0;
    var q := (-x - r) / TwoTo32;
    assert x == -r - q * TwoTo32;
    ModTwoTo32(x, -r, -q);
  }

  /** Two values congruent modulo 2^32 cast to the same int. */
  lemma ModTwoTo32(x: int, y: int, q: int)
    requires x == y + q * TwoTo32
    ensures ToInt(x) == ToInt(y)
  {
    var a, b := x + TwoTo31, y + TwoTo31;
    assert a == b + q * TwoTo32;
    DivUnique(a, TwoTo32, b / TwoTo32 + q, b % TwoTo32);
  }

  lemma DaysBetweenExamples()
    ensures DaysBetween(Date(1945, December, 12), Date(1945, December, 15)) == 3
    ensures DaysBetween(Date(1945, December, 15), Date(1945, December, 12)) == -3
    ensures DaysBetween(Date(2024, September, 14), Date(2024, September, 14)) == 0
    ensures DaysBetween(Date(2016, January, 1), Date(2017, January, 1)) == 366
    ensures DaysBetween(Date(1950, May, 12), Date(2022, March, 29)) == 26254
  {
  }

  /** Dates more than 2^31 - 1 days apart do not get their day count: the
      cast keeps only the low 32 bits. */
  lemma DaysBetweenFarApart()
    ensures DayNumber(Date(MaxYear, December, 31)) - DayNumber(Date(MinYear, January, 1)) == 730484999633
    ensures DaysBetween(Date(MinYear, January, 1), Date(MaxYear, December, 31)) == 340559313
  {
  }

  // getFullYearsBetween

  /** LocalDate.getProlepticMonth: months since year 0. */
  function ProlepticMonth(d: Date): int {
    d.year * 12 + MonthValue(d.month) - 1
  }

  /** Period.between(startDate, endDate) for startDate not after endDate,
      in total months: the month difference, less one when the end day of
      month is before the start day of month. */
  function WholeMonthsBetween(startDate: Date, endDate: Date): (months: int)
    requires !IsAfter(startDate, endDate)
    ensures months >= 0
  {
    var totalMonths := ProlepticMonth(endDate) - ProlepticMonth(startDate);
    if totalMonths > 0 && endDate.day < startDate.day then totalMonths - 1 else totalMonths
  }

  /** getFullYearsBetween: Period.between(...).getYears() on the ordered
      pair, negated when the start is after the end. The months are never
      negative there, so Java's truncating division is floor division. */
  function FullYearsBetween(startDate: Date, endDate: Date): (years: int)
    ensures IsAfter(startDate, endDate) ==> years <= 0
    ensures !IsAfter(startDate, endDate) ==> years >= 0
  {
    if IsAfter(startDate, endDate) then -(WholeMonthsBetween(endDate, startDate) / 12)
    else WholeMonthsBetween(startDate, endDate) / 12
  }

  /** The start date moved by a number of whole years, as a (year, month,
      day) triple; it need not be a valid date (29 February). */
  function Anniversary(d: Date, years: int): Date {
    Date(d.year + years, d.month, d.day)
  }

  /** The result is the number of anniversaries of the start date that are
      not after the end date: the r-th one is not after it, the (r+1)-th
      is. */
  lemma FullYearsCountsAnniversaries(startDate: Date, endDate: Date)
    requires ValidDate(startDate) && ValidDate(endDate) && !IsAfter(startDate, endDate)
    ensures var r := FullYearsBetween(startDate, endDate);
      && r >= 0
      && !IsAfter(Anniversary(startDate, r), endDate)
      && IsAfter(Anniversary(startDate, r + 1), endDate)
  {
    var r := FullYearsBetween(startDate, endDate);
    var tm := WholeMonthsBetween(startDate, endDate);
    var ps, pe := ProlepticMonth(startDate), ProlepticMonth(endDate);
    // compare (proleptic month, day) pairs by a single key
    assert Key(Anniversary(startDate, r)) == (ps + 12 * r) * 32 + startDate.day;
    assert Key(Anniversary(startDate, r + 1)) == (ps + 12 * r + 12) * 32 + startDate.day;
    assert 12 * r <= tm < 12 * r + 12;
    assert (ps + tm) * 32 + startDate.day <= Key(endDate);
    assert (ps + tm + 1) * 32 + startDate.day > Key(endDate);
    KeyOrder(Anniversary(startDate, r), endDate);
    KeyOrder(Anniversary(startDate, r + 1), endDate);
  }

  /** One number per (year, month, day) triple with day in 1..31. */
  function Key(d: Date): int {
    ProlepticMonth(d) * 32 + d.day
  }

  lemma KeyOrder(a: Date, b: Date)
    requires 1 <= a.day <= 31 && 1 <= b.day <= 31
    ensures IsAfter(a, b) <==> Key(a) > Key(b)
  {
    if ProlepticMonth(a) == ProlepticMonth(b) {
      assert a.year == b.year && MonthValue(a.month) == MonthValue(b.month) by {
        DivUnique(ProlepticMonth(a), 12, a.year, MonthValue(a.month) - 1);
        DivUnique(ProlepticMonth(b), 12, b.year, MonthValue(b.month) - 1);
      }
      MonthOfValue(a.month);
      MonthOfValue(b.month);
    } else if ProlepticMonth(a) > ProlepticMonth(b) {
      assert a.year > b.year || (a.year == b.year && MonthValue(a.month) > MonthValue(b.month));
    } else {
      assert b.year > a.year || (a.year == b.year && MonthValue(b.month) > MonthValue(a.month));
    }
  }

  /** Swapping the dates negates the count. */
  lemma FullYearsAntisymmetric(a: Date, b: Date)
    ensures FullYearsBetween(a, b) == -FullYearsBetween(b, a)
  {
    IsAfterIsStrictTotal(a, b);
  }

  lemma FullYearsExamples()
    ensures FullYearsBetween(Date(1945, December, 12), Date(1948, December, 12)) == 3
    ensures FullYearsBetween(Date(1948, December, 12), Date(1945, December, 12)) == -3
    ensures FullYearsBetween(Date(2005, January, 12), Date(2017, March, 26)) == 12
    ensures FullYearsBetween(Date(2005, January, 12), Date(2017, October, 31)) == 12
    ensures FullYearsBetween(Date(2020, February, 29), Date(2021, February, 28)) == 0
  {
  }

  // Random days and dates; the draw of java.util.Random is an arbitrary
  // choice.

  /** The month for a roll of nextInt(12): Month.of(roll + 1). */
  function MonthOfRoll(roll: int): (m: Month)
    requires 0 <= roll < 12
    ensures MonthValue(m) == roll + 1
  {
    MonthOf(roll + 1)
  }

  /** getRandomMonth: Month.of(nextInt(12) + 1). Every roll is a month
      number Month.of accepts, so no DateTimeException is possible. */
  method RandomMonth() returns (month: Month)
    ensures exists roll :: 0 <= roll < 12 && month == MonthOfRoll(roll)
  {
    var roll :| 0 <= roll < 12;
    month := MonthOfRoll(roll);
  }

  /** getRandomDayOfMonth(month): nextInt(minLength) + 1, so never 29
      February. */
  method RandomDayOfMonth(month: Month) returns (day: int)
    ensures 1 <= day <= MinLength(month)
    ensures day <= LengthOfMonth(month, false) && day <= LengthOfMonth(month, true)
  {
    var roll :| 0 <= roll < MinLength(month);
    day := roll + 1;
  }

  /** The largest day getRandomDayOfMonth(month, year) can draw: 29 for
      February of a year isLeapYear accepts, the common length otherwise. */
  function RandomDayBound(month: Month, year: int): (bound: int)
    ensures bound == LengthOfMonth(month, IsLeapYear(year))
    ensures GregorianCutoverYear < year <= CalendarMaxYear ==> bound == LengthOfMonth(month, IsoLeapYear(year))
  {
    if IsLeapYear(year) && month == February then 29 else MinLength(month)
  }

  /** getRandomDayOfMonth(month, year): 1..29 for February of a leap year,
      otherwise as above; never past the end of the month in that year as
      java.util.Calendar counts it. */
  method RandomDayOfMonthInYear(month: Month, year: int) returns (day: int)
    ensures IsLeapYear(year) && month == February ==> 1 <= day <= 29
    ensures !(IsLeapYear(year) && month == February) ==> 1 <= day <= MinLength(month)
    ensures 1 <= day <= RandomDayBound(month, year)
  {
    if IsLeapYear(year) && month == February {
      var roll :| 1 <= roll < 30;
      day := roll;
    } else {
      var roll :| 0 <= roll < MinLength(month);
      day := roll + 1;
    }
  }

  /** LocalDate.of(year, month, dayOfMonth): a DateTimeException unless the
      year is in range and the day exists in that month of the proleptic
      Gregorian calendar. */
  function LocalDateOf(year: int, month: Month, day: int): (r: Result<Date, JavaException>)
    ensures r.Ok? <==> ValidDate(Date(year, month, day))
    ensures r.Ok? ==> r.value == Date(year, month, day)
    ensures r.Err? ==> r.error == DateTimeException
  {
    if ValidDate(Date(year, month, day)) then Ok(Date(year, month, day)) else Err(DateTimeException)
  }

  /** getRandomDate(year) as written: a random month, a random day of it
      bounded by isLeapYear, then LocalDate.of. Outside the LocalDate range
      it always fails. Within the years GregorianCalendar holds, it never
      fails after the cutover year, and before it fails only when the
      Julian and the Gregorian leap rules disagree. */
  method RandomDate(year: int) returns (r: Result<Date, JavaException>)
    requires -TwoTo31 <= year < TwoTo31
    ensures r.Err? ==> r.error == DateTimeException
    ensures !(MinYear <= year <= MaxYear) ==> r.Err?
    ensures GregorianCutoverYear < year <= CalendarMaxYear ==> r.Ok?
    ensures r.Err? && CalendarMinYear <= year <= CalendarMaxYear ==> IsLeapYear(year) && !IsoLeapYear(year)
    ensures r.Ok? ==> ValidDate(r.value) && r.value.year == year
    ensures r.Ok? ==> !IsAfter(Date(year, January, 1), r.value) && !IsAfter(r.value, Date(year, December, 31))
  {
    var month := RandomMonth();
    var day := RandomDayOfMonthInYear(month, year);
    r := LocalDateOf(year, month, day);
    if GregorianCutoverYear < year <= CalendarMaxYear {
      assert IsLeapYear(year) == IsoLeapYear(year);
      assert ValidDate(Date(year, month, day));
    }
    if r.Err? && CalendarMinYear <= year <= CalendarMaxYear {
      LongerMonth(month, IsoLeapYear(year), IsLeapYear(year));
    }
    if r.Ok? {
      YearBounds(r.value);
    }
  }

  /** A month is longer under one leap flag than under another only when it
      is February and the first flag says leap. */
  lemma LongerMonth(m: Month, leap1: bool, leap2: bool)
    requires LengthOfMonth(m, leap1) < LengthOfMonth(m, leap2)
    ensures m == February && leap2 && !leap1
  {
  }

  /** A date lies between the first and the last day of its year. */
  lemma YearBounds(d: Date)
    requires 1 <= d.day <= 31
    ensures !IsAfter(Date(d.year, January, 1), d) && !IsAfter(d, Date(d.year, December, 31))
  {
  }

  /** getRandomDate(1500) can throw: Calendar counts 1500 as a Julian leap
      year, so the day drawn for February may be 29, and LocalDate.of
      rejects 1500-02-29 because 1500 is not a Gregorian leap year. The
      same holds for every year up to 1582 divisible by 100 but not by
      400. */
  lemma RandomDateCanFail()
    ensures MinYear <= 1500 <= MaxYear
    ensures RandomDayBound(February, 1500) == 29
    ensures LocalDateOf(1500, February, 29) == Err(DateTimeException)
  {
  }

  /** getRandomDayOfMonth(month, year) with the leap test of LocalDate
      (Year.isLeap): never past the end of the month in the proleptic
      Gregorian calendar. */
  method RandomDayOfMonthInIsoYear(month: Month, year: int) returns (day: int)
    ensures 1 <= day <= LengthOfMonth(month, IsoLeapYear(year))
  {
    var roll :| 0 <= roll < LengthOfMonth(month, IsoLeapYear(year));
    day := roll + 1;
  }

  /** getRandomDate(year) as intended: a valid date of that year for every
      year in the LocalDate range, a DateTimeException for every other. */
  method RandomValidDate(year: int) returns (r: Result<Date, JavaException>)
    requires -TwoTo31 <= year < TwoTo31
    ensures r.Err? <==> !(MinYear <= year <= MaxYear)
    ensures r.Err? ==> r.error == DateTimeException
    ensures r.Ok? ==> ValidDate(r.value) && r.value.year == year
    ensures r.Ok? ==> !IsAfter(Date(year, January, 1), r.value) && !IsAfter(r.value, Date(year, December, 31))
  {
    var month := RandomMonth();
    var day := RandomDayOfMonthInIsoYear(month, year);
    r := LocalDateOf(year, month, day);
  }
}
