/**
 Conversion between Unix time and Gregorian dates, the order of dates, and the two day-of-week formulas.
 */
module Calendar {

  /** The fields of the firmware's date record. */
  datatype Date = Date(year: int, month: int, day: int, dayOfWeek: int,
                       hours: int, minutes: int, seconds: int, milliseconds: int)

  predicate LeapYear(y: int) {
    y % 4 == 0 && (y % 100 != 0 || y % 400 == 0)
  }

  function DaysInMonth(y: int, m: int): int {
    if m == 2 then (if LeapYear(y) then 29 else 28)
    else if m == 4 || m == 6 || m == 9 || m == 11 then 30
    else 31
  }

  predicate ValidDay(y: int, m: int, d: int) {
    1 <= m <= 12 && 1 <= d <= DaysInMonth(y, m)
  }

  predicate ValidDate(x: Date) {
    && ValidDay(x.year, x.month, x.day)
    && 0 <= x.hours < 24 && 0 <= x.minutes < 60 && 0 <= x.seconds < 60 && 0 <= x.milliseconds < 1000
  }

  // ---- days since the epoch ----

  /** January and February count as months 13 and 14 of the year before. */
  function ShiftedYear(y: int, m: int): int {
    if m <= 2 then y - 1 else y
  }

  function ShiftedMonth(m: int): int {
    if m <= 2 then m + 12 else m
  }

  function YearDays(y: int): int {
    365 * y + y / 4 - y / 100 + y / 400
  }

  function MonthDays(m: int): int {
    30 * m + 3 * (m + 1) / 5
  }

  function DayNumber(y: int, m: int, d: int): int {
    YearDays(ShiftedYear(y, m)) + MonthDays(ShiftedMonth(m)) + d - 719561
  }

  function UnixTime(x: Date): int {
    86400 * DayNumber(x.year, x.month, x.day) + 3600 * x.hours + 60 * x.minutes + x.seconds
  }

  // ---- and back ----

  function CenturyTerm(t: int): int {
    (4 * t + 102032) / 146097 + 15
  }

  function JulianDays(t: int): int {
    t + 2442113 + CenturyTerm(t) - CenturyTerm(t) / 4
  }

  function JulianYear(t: int): int {
    (20 * JulianDays(t) - 2442) / 7305
  }

  function DayOfJulianYear(t: int): int {
    JulianDays(t) - 365 * JulianYear(t) - JulianYear(t) / 4
  }

  function MonthTerm(t: int): int {
    DayOfJulianYear(t) * 1000 / 30601
  }

  function DayOfMonth(t: int): int {
    DayOfJulianYear(t) - MonthTerm(t) * 30 - MonthTerm(t) * 601 / 1000
  }

  function YearOf(t: int): int {
    if MonthTerm(t) <= 13 then JulianYear(t) - 4716 else JulianYear(t) - 4715
  }

  function MonthOf(t: int): int {
    if MonthTerm(t) <= 13 then MonthTerm(t) - 1 else MonthTerm(t) - 13
  }

  /** The century the shifted year falls in, and the range of the day within the shifted year. */
  lemma CenturyFound(t: int)
    requires t >= 0
    ensures 100 * (CenturyTerm(t) + 4) <= JulianYear(t) - 4716 < 100 * (CenturyTerm(t) + 5)
  {
  }

  lemma DayOfJulianYearRange(t: int)
    requires t >= 0
    ensures 123 <= DayOfJulianYear(t) <= 488
    ensures DayOfJulianYear(t) == 488 ==> LeapYear(JulianYear(t) - 4715)
  {
    hide CenturyTerm, JulianDays, JulianYear, LeapYear;
    JulianYearIs(t);
    JulianRange(JulianDays(t), JulianYear(t));
    if DayOfJulianYear(t) == 488 {
      LastDay(JulianDays(t), JulianYear(t));
      CenturyFound(t);
      CenturyEnd(t, CenturyTerm(t), JulianDays(t), JulianYear(t));
    }
  }

  lemma JulianYearIs(t: int)
    ensures JulianYear(t) == (20 * JulianDays(t) - 2442) / 7305
    ensures JulianDays(t) == t + 2442113 + CenturyTerm(t) - CenturyTerm(t) / 4
    ensures 4 * t + 102032 < 146097 * (CenturyTerm(t) - 14)
  {
    hide JulianDays;
    assert JulianDays(t) == t + 2442113 + CenturyTerm(t) - CenturyTerm(t) / 4 by { JulianDaysIs(t); }
    CenturyTermIs(t);
    hide CenturyTerm;
  }

  lemma JulianDaysIs(t: int)
    ensures JulianDays(t) == t + 2442113 + CenturyTerm(t) - CenturyTerm(t) / 4
  {
    hide CenturyTerm;
  }

  lemma CenturyTermIs(t: int)
    ensures 4 * t + 102032 < 146097 * (CenturyTerm(t) - 14)
  {
  }

  lemma JulianRange(j: int, y: int)
    requires y == (20 * j - 2442) / 7305
    ensures 123 <= j - 365 * y - y / 4 <= 488
  {
    assert 20 * (y / 4) == 5 * y - 5 * (y % 4);
  }

  /** The day 488 comes only at the end of every fourth year. */
  lemma LastDay(j: int, y: int)
    requires y == (20 * j - 2442) / 7305 && j - 365 * y - y / 4 == 488
    ensures y % 4 == 3 && 20 * j == 7305 * y + 9745
  {
    assert 20 * (y / 4) == 5 * y - 5 * (y % 4);
  }

  /** If that year is the last one of a century, the next one is a multiple of 400. */
  lemma CenturyEnd(t: int, c: int, j: int, y: int)
    requires j == t + 2442113 + c - c / 4 && 4 * t + 102032 < 146097 * (c - 14)
    requires y % 4 == 3 && 20 * j == 7305 * y + 9745 && 100 * (c + 4) <= y - 4716 < 100 * (c + 5)
    ensures LeapYear(y - 4715)
  {
    FourYears(y);
    if (y - 4715) % 100 == 0 {
      NextCentury(y - 4715, c + 4);
      assert c % 4 == 3 by {
        hide LeapYear;
        assert 4 * (c / 4) + 2 < c;
      }
      FourCenturies(c);
    }
  }

  lemma FourYears(y: int)
    requires y % 4 == 3
    ensures (y - 4715) % 4 == 0
  {
    assert y - 4715 == 4 * (y / 4 - 1178);
  }

  lemma NextCentury(y: int, c: int)
    requires y % 100 == 0 && 100 * c < y <= 100 * (c + 1)
    ensures y == 100 * (c + 1)
  {
    assert y == 100 * (y / 100);
  }

  lemma FourCenturies(c: int)
    requires c % 4 == 3
    ensures 100 * (c + 5) % 400 == 0
  {
    assert 100 * (c + 5) == 400 * (c / 4 + 2);
  }

  lemma MonthAndDay(t: int)
    requires t >= 0
    ensures 4 <= MonthTerm(t) <= 15
    ensures MonthTerm(t) * 601 / 1000 == 3 * MonthTerm(t) / 5
  {
    DayOfJulianYearRange(t);
  }

  lemma ValidDayFound(t: int)
    requires t >= 0
    ensures ValidDay(YearOf(t), MonthOf(t), DayOfMonth(t))
  {
    DayOfJulianYearRange(t);
    MonthAndDay(t);
    MonthBounds(DayOfJulianYear(t), MonthTerm(t));
  }

  lemma MonthBounds(d: int, e: int)
    requires 4 <= e <= 15 && e == d * 1000 / 30601
    ensures 1 <= d - 30 * e - 3 * e / 5
    ensures d - 30 * e - 3 * e / 5 <= (if e == 15 then d - 459 else if e == 5 || e == 7 || e == 10 || e == 12 then 30 else 31)
  {
  }

  /** Counting back the days of the date found for a day number gives that number. */
  lemma DayNumberFound(t: int)
    requires t >= 0
    ensures DayNumber(YearOf(t), MonthOf(t), DayOfMonth(t)) == t
  {
    CenturyFound(t);
    MonthAndDay(t);
    var y, e := JulianYear(t) - 4716, MonthTerm(t);
    assert ShiftedYear(YearOf(t), MonthOf(t)) == y && ShiftedMonth(MonthOf(t)) == e - 1;
    assert y / 100 == CenturyTerm(t) + 4;
    assert y / 400 == CenturyTerm(t) / 4 + 1;
    assert y / 4 == JulianYear(t) / 4 - 1179;
  }

  // ---- the day number is the true count of days ----

  /** The day after a valid day, by the Gregorian rules alone. */
  function NextDay(y: int, m: int, d: int): (int, int, int) {
    if d < DaysInMonth(y, m) then (y, m, d + 1) else if m < 12 then (y, m + 1, 1) else (y + 1, 1, 1)
  }

  function Fourths(y: int): int {
    y / 4
  }

  function Hundredths(y: int): int {
    y / 100
  }

  function FourHundredths(y: int): int {
    y / 400
  }

  lemma FourthsNext(y: int)
    ensures Fourths(y) == Fourths(y - 1) + if y % 4 == 0 then 1 else 0
  {
  }

  lemma HundredthsNext(y: int)
    ensures Hundredths(y) == Hundredths(y - 1) + if y % 100 == 0 then 1 else 0
  {
  }

  lemma FourHundredthsNext(y: int)
    ensures FourHundredths(y) == FourHundredths(y - 1) + if y % 400 == 0 then 1 else 0
  {
  }

  lemma YearDaysByParts(y: int)
    ensures YearDays(y) == 365 * y + Fourths(y) - Hundredths(y) + FourHundredths(y)
  {
  }

  function LeapDays(y: int): int {
    if LeapYear(y) then 1 else 0
  }

  lemma MultipleOf100(y: int)
    requires y % 100 == 0
    ensures y % 4 == 0
  {
    assert y == 4 * (25 * (y / 100));
  }

  lemma MultipleOf400(y: int)
    requires y % 400 == 0
    ensures y % 100 == 0
  {
    assert y == 100 * (4 * (y / 400));
  }

  lemma LeapDaysByParts(y: int)
    ensures LeapDays(y) == (if y % 4 == 0 then 1 else 0) - (if y % 100 == 0 then 1 else 0) + if y % 400 == 0 then 1 else 0
  {
    if y % 400 == 0 {
      MultipleOf400(y);
    }
    if y % 100 == 0 {
      MultipleOf100(y);
    }
  }

  lemma YearLength(y: int)
    ensures YearDays(y) == YearDays(y - 1) + (if LeapYear(y) then 366 else 365)
    ensures YearDays(1969) == 719162
  {
    YearDays1969();
    hide YearDays, Fourths, Hundredths, FourHundredths, LeapYear;
    YearDaysByParts(y);
    YearDaysByParts(y - 1);
    FourthsNext(y);
    HundredthsNext(y);
    FourHundredthsNext(y);
    LeapDaysByParts(y);
  }

  lemma YearDays1969()
    ensures YearDays(1969) == 719162
  {
  }

  /** 1 January 1970 is day 0, and each calendar day is one more than the day before it. */
  lemma DayNumberCountsDays(y: int, m: int, d: int)
    requires ValidDay(y, m, d)
    ensures DayNumber(1970, 1, 1) == 0
    ensures var n := NextDay(y, m, d); ValidDay(n.0, n.1, n.2) && DayNumber(n.0, n.1, n.2) == DayNumber(y, m, d) + 1
  {
    YearLength(y);
    hide YearDays;
  }

  lemma DayWithinYear(y: int, m: int, d: int)
    requires ValidDay(y, m, d)
    ensures DayNumber(y, 1, 1) <= DayNumber(y, m, d) < DayNumber(y + 1, 1, 1)
  {
    YearLength(y);
    hide YearDays;
  }

  lemma YearsInOrder(y: int, z: int)
    requires y <= z
    ensures DayNumber(y, 1, 1) <= DayNumber(z, 1, 1)
  {
  }

  predicate DayBefore(y: int, m: int, d: int, y': int, m': int, d': int) {
    y < y' || (y == y' && (m < m' || (m == m' && d < d')))
  }

  lemma DayNumberMonotone(y: int, m: int, d: int, y': int, m': int, d': int)
    requires ValidDay(y, m, d) && ValidDay(y', m', d') && DayBefore(y, m, d, y', m', d')
    ensures DayNumber(y, m, d) < DayNumber(y', m', d')
  {
    hide DayNumber, ValidDay;
    if y < y' {
      DayWithinYear(y, m, d);
      YearsInOrder(y + 1, y');
      DayWithinYear(y', m', d');
    } else {
      DayWithinMonths(y, m, d, m', d');
    }
  }

  lemma DayWithinMonths(y: int, m: int, d: int, m': int, d': int)
    requires ValidDay(y, m, d) && ValidDay(y, m', d') && DayBefore(y, m, d, y, m', d')
    ensures DayNumber(y, m, d) < DayNumber(y, m', d')
  {
    hide YearDays;
    YearLength(y);
  }

  // ---- whole dates ----

  /** The date a Unix time falls on; times before the epoch count as the epoch. */
  function DateOf(time: int): Date {
    var t := if time < 1 then 0 else time;
    var n := t / 86400;
    Date(YearOf(n), MonthOf(n), DayOfMonth(n), DayOfWeek(YearOf(n), MonthOf(n), DayOfMonth(n)),
         t / 3600 % 24, t / 60 % 60, t % 60, 0)
  }

  /** A date rebuilt from a time is valid, not before 1970, and gives back the same time. */
  lemma TimeSurvives(t: int)
    requires t >= 0
    ensures ValidDate(DateOf(t)) && DateOf(t).year >= 1970
    ensures UnixTime(DateOf(t)) == t
  {
    var n := t / 86400;
    ValidDayFound(n);
    DayNumberFound(n);
    ClockParts(t);
    if YearOf(n) < 1970 {
      DayNumberMonotone(YearOf(n), MonthOf(n), DayOfMonth(n), 1970, 1, 1);
      assert false;
    }
  }

  lemma ClockParts(t: int)
    requires t >= 0
    ensures 86400 * (t / 86400) + 3600 * (t / 3600 % 24) + 60 * (t / 60 % 60) + t % 60 == t
  {
    assert t / 60 / 60 == t / 3600;
    assert t / 3600 / 24 == t / 86400;
  }

  lemma Epoch()
    ensures ValidDay(1970, 1, 1) && DayNumber(1970, 1, 1) == 0
  {
  }

  lemma QuotientIs(t: int, d: int, q: int, r: int)
    requires 0 <= r < d && t == q * d + r
    ensures t / d == q && t % d == r
  {
    if t / d < q {
      Product(t / d + 1, q, d);
    } else if t / d > q {
      Product(q + 1, t / d, d);
    }
  }

  lemma Product(p: int, q: int, d: int)
    requires p <= q && d > 0
    ensures p * d <= q * d
  {
  }

  lemma ClockFound(n: int, h: int, m: int, s: int)
    requires 0 <= h < 24 && 0 <= m < 60 && 0 <= s < 60
    ensures var t := 86400 * n + 3600 * h + 60 * m + s;
            t / 86400 == n && t / 3600 % 24 == h && t / 60 % 60 == m && t % 60 == s
  {
    var t := 86400 * n + 3600 * h + 60 * m + s;
    QuotientIs(t, 86400, n, 3600 * h + 60 * m + s);
    QuotientIs(t, 3600, 24 * n + h, 60 * m + s);
    QuotientIs(24 * n + h, 24, n, h);
    QuotientIs(t, 60, 60 * (24 * n + h) + m, s);
    QuotientIs(60 * (24 * n + h) + m, 60, 24 * n + h, m);
  }

  /** A valid date from 1970 on is found again from its time, with the day of the week filled in and no milliseconds. */
  lemma DateSurvives(x: Date)
    requires ValidDate(x) && x.year >= 1970
    ensures UnixTime(x) >= 0
    ensures DateOf(UnixTime(x)) == x.(milliseconds := 0, dayOfWeek := DayOfWeek(x.year, x.month, x.day))
  {
    hide YearOf, MonthOf, DayOfMonth, DayOfWeek, DayNumber, LeapYear, DaysInMonth;
    Epoch();
    var n := DayNumber(x.year, x.month, x.day);
    if DayBefore(1970, 1, 1, x.year, x.month, x.day) {
      DayNumberMonotone(1970, 1, 1, x.year, x.month, x.day);
    }
    ClockFound(n, x.hours, x.minutes, x.seconds);
    ValidDayFound(n);
    DayNumberFound(n);
    var y, m, d := YearOf(n), MonthOf(n), DayOfMonth(n);
    if DayBefore(y, m, d, x.year, x.month, x.day) {
      DayNumberMonotone(y, m, d, x.year, x.month, x.day);
    } else if DayBefore(x.year, x.month, x.day, y, m, d) {
      DayNumberMonotone(x.year, x.month, x.day, y, m, d);
    }
  }

  // ---- comparison ----

  function Sign(n: int): int {
    if n < 0 then -1 else if n > 0 then 1 else 0
  }

  function CompareDateTime(x: Date, y: Date): int {
    if x.year < y.year then -1
    else if x.year > y.year then 1
    else if x.month < y.month then -1
    else if x.month > y.month then 1
    else if x.day < y.day then -1
    else if x.day > y.day then 1
    else if x.hours < y.hours then -1
    else if x.hours > y.hours then 1
    else if x.minutes < y.minutes then -1
    else if x.minutes > y.minutes then 1
    else if x.seconds < y.seconds then -1
    else if x.seconds > y.seconds then 1
    else if x.milliseconds < y.milliseconds then -1
    else if x.milliseconds > y.milliseconds then 1
    else 0
  }

  /** Valid dates are ordered as their times in milliseconds are. */
  lemma DateOrderIsTimeOrder(x: Date, y: Date)
    requires ValidDate(x) && ValidDate(y)
    ensures CompareDateTime(x, y) == Sign((1000 * UnixTime(x) + x.milliseconds) - (1000 * UnixTime(y) + y.milliseconds))
  {
    if DayBefore(x.year, x.month, x.day, y.year, y.month, y.day) {
      DayNumberMonotone(x.year, x.month, x.day, y.year, y.month, y.day);
    } else if DayBefore(y.year, y.month, y.day, x.year, x.month, x.day) {
      DayNumberMonotone(y.year, y.month, y.day, x.year, x.month, x.day);
    }
  }

  /** A total order on any dates, valid or not, that looks at every field but the day of the week. */
  lemma DateOrderIsTotal(x: Date, y: Date, z: Date)
    ensures CompareDateTime(x, y) == -CompareDateTime(y, x)
    ensures CompareDateTime(x, y) <= 0 && CompareDateTime(y, z) <= 0 ==> CompareDateTime(x, z) <= 0
    ensures CompareDateTime(x, y) == 0 <==> x == y.(dayOfWeek := x.dayOfWeek)
  {
  }

  // ---- day of the week ----

  function ZellerSum(y: int, m: int, d: int): int {
    d + 26 * (m + 1) / 10 + y % 100 + y % 100 / 4 + 5 * (y / 100) + y / 100 / 4
  }

  /** Monday is 1 and Sunday is 7. The year is 16 bits wide, so taking one from the year 0 wraps. */
  function DayOfWeek(y: int, m: int, d: int): int {
    (ZellerSum(if m <= 2 then (y - 1) % 0x1_0000 else y, ShiftedMonth(m), d) + 5) % 7 + 1
  }

  lemma ZellerCountsDays(y: int, m: int, d: int)
    requires 3 <= m <= 14
    ensures (ZellerSum(y, m, d) + 5) % 7 == (YearDays(y) + MonthDays(m) + d - 719561 + 3) % 7
  {
    hide ZellerSum, YearDays, MonthDays, Fourths, Hundredths, FourHundredths;
    YearDaysByParts(y);
    ZellerByParts(y, m, d);
    SevenMore(ZellerSum(y, m, d) + 5, 17 * Hundredths(y) + 52 * y + 4 * m - 102795);
  }

  lemma SevenMore(x: int, q: int)
    ensures (x + 7 * q) % 7 == x % 7
  {
  }

  lemma ZellerByParts(y: int, m: int, d: int)
    requires 3 <= m <= 14
    ensures ZellerSum(y, m, d)
         == d + MonthDays(m) - 28 * m + 2 + y + Fourths(y) - 120 * Hundredths(y) + FourHundredths(y)
  {
    YearByCenturies(y);
    MonthByTenths(m);
    hide Fourths, FourHundredths, MonthDays;
    assert y % 100 == y - 100 * Hundredths(y);
  }

  lemma YearByCenturies(y: int)
    ensures y % 100 / 4 == Fourths(y) - 25 * Hundredths(y) && y / 100 / 4 == FourHundredths(y)
  {
    Centuries(y);
  }

  lemma MonthByTenths(m: int)
    requires 3 <= m <= 14
    ensures 26 * (m + 1) / 10 == MonthDays(m) - 28 * m + 2
  {
  }

  /** The weekday formula counts days from Thursday 1 January 1970, but not for the two months it wraps. */
  lemma DayOfWeekCountsDays(y: int, m: int, d: int)
    requires 0 <= y < 0x1_0000 && ValidDay(y, m, d)
    ensures DayOfWeek(y, m, d) == (DayNumber(y, m, d) + 3) % 7 + 1 <==> y >= 1 || m > 2
  {
    hide ZellerSum, YearDays, MonthDays;
    if y >= 1 || m > 2 {
      ZellerCountsDays(ShiftedYear(y, m), ShiftedMonth(m), d);
      Unwrapped(y, m, d);
    } else {
      ZellerCountsDays(0xffff, ShiftedMonth(m), d);
      WrappedYear(MonthDays(m + 12) + d);
    }
  }

  lemma Unwrapped(y: int, m: int, d: int)
    requires 0 <= y < 0x1_0000 && (y >= 1 || m > 2)
    ensures DayOfWeek(y, m, d) == (ZellerSum(ShiftedYear(y, m), ShiftedMonth(m), d) + 5) % 7 + 1
  {
    hide ZellerSum;
    assert y >= 1 ==> (y - 1) % 0x1_0000 == y - 1;
  }

  lemma WrappedYear(k: int)
    ensures (YearDays(0xffff) + k - 719561 + 3) % 7 != (YearDays(-1) + k - 719561 + 3) % 7
  {
    assert YearDays(0xffff) == YearDays(-1) + 7 * 3419504 + 4;
  }

  // The C operators, which round towards zero.
  function Quotient(a: int, b: int): int
    requires b > 0
  {
    if a >= 0 then a / b else -(-a / b)
  }

  function Remainder(a: int, b: int): int
    requires b > 0
  {
    a - b * Quotient(a, b)
  }

  /** The second weekday formula; years below 100 are taken as years from 2000. */
  function Dow1(day: int, month: int, year: int): int {
    var y := if year < 100 then year + 2000 else year;
    var m := if month < 3 then month + 12 else month;
    var z := if month < 3 then y - 1 else y;
    Remainder(day + Quotient(13 * m - 27, 5) + z + Quotient(z, 4) - Quotient(z, 100) + Quotient(z, 400) + 6, 7)
  }

  lemma Centuries(y: int)
    ensures y / 4 == 25 * (y / 100) + y % 100 / 4 && y / 400 == y / 100 / 4
  {
  }

  lemma Dow1Sum(y: int, m: int, d: int)
    requires y >= 0 && 3 <= m <= 14 && d >= 1
    ensures Remainder(d + Quotient(13 * m - 27, 5) + y + Quotient(y, 4) - Quotient(y, 100) + Quotient(y, 400) + 6, 7)
         == (ZellerSum(y, m, d) + 5) % 7
  {
    hide ZellerSum, Quotient, Remainder, MonthDays, Fourths, Hundredths, FourHundredths;
    YearQuotients(y);
    MonthByFifths(m);
    ZellerByParts(y, m, d);
    var s := d + Quotient(13 * m - 27, 5) + y + Quotient(y, 4) - Quotient(y, 100) + Quotient(y, 400) + 6;
    SevenMore(ZellerSum(y, m, d) + 5, 17 * Hundredths(y) - 1);
    RemainderPositive(s);
  }

  lemma YearQuotients(y: int)
    requires y >= 0
    ensures Quotient(y, 4) == Fourths(y) && Quotient(y, 100) == Hundredths(y) && Quotient(y, 400) == FourHundredths(y)
    ensures 0 <= Hundredths(y) <= Fourths(y) <= y && 0 <= FourHundredths(y)
  {
  }

  lemma MonthByFifths(m: int)
    requires 3 <= m <= 14
    ensures Quotient(13 * m - 27, 5) == MonthDays(m) - 28 * m - 6 >= 2
  {
  }

  lemma RemainderPositive(s: int)
    requires s >= 0
    ensures Remainder(s, 7) == s % 7
  {
  }

  /** The two weekday formulas agree up to where they start counting: Monday is 0 here. */
  lemma WeekdayFormulasAgree(d: int, m: int, y: int)
    requires 0 <= y < 0x1_0000
    requires var z := if y < 100 then y + 2000 else y; ValidDay(z, m, d)
    ensures var z := if y < 100 then y + 2000 else y;
            Dow1(d, m, y) == DayOfWeek(z, m, d) - 1 == (DayNumber(z, m, d) + 3) % 7
  {
    hide DayNumber, DayOfWeek, ZellerSum, Remainder, Quotient, LeapYear, DaysInMonth;
    var z := if y < 100 then y + 2000 else y;
    DayOfWeekCountsDays(z, m, d);
    Unwrapped(z, m, d);
    Dow1Sum(ShiftedYear(z, m), ShiftedMonth(m), d);
  }
}
