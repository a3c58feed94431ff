/**
 The date record and the two conversions that work on it, with the integer widths of the firmware.
 */
module CalendarClock {
  import opened Calendar

  const WORD := 0x1_0000_0000

  /** What a 32-bit unsigned variable keeps of a result. */
  function Word(x: int): int {
    x % WORD
  }

  lemma WordOfSum(a: int, b: int)
    ensures Word(Word(a) + b) == Word(a + b)
  {
    assert a + b == Word(a) + b + WORD * (a / WORD);
  }

  lemma WordOfMultiple(a: int, q: int)
    ensures Word(a + WORD * q) == Word(a)
  {
  }

  lemma WordOfProduct(a: int)
    ensures Word(Word(a) * 86400) == Word(a * 86400)
  {
    var q, r := a / WORD, a % WORD;
    WordOfMultiple(r * 86400, q * 86400);
    assert a * 86400 == r * 86400 + WORD * (q * 86400);
  }

  lemma WordShifted(a: int, k: int)
    ensures Word(a) == Word(a + k) <==> Word(k) == 0
  {
    assert a + k == Word(a) + Word(k) + WORD * (a / WORD + k / WORD);
  }

  method DateOfDay(t: int) returns (c: int, e: int, f: int)
    requires 0 <= t <= WORD / 86400
    ensures c == YearOf(t) && e == MonthOf(t) && f == DayOfMonth(t)
  {
    hide *;
    NothingWraps(t);
    var a := Word(Word(4 * t + 102032) / 146097 + 15);
    var b := Word(t + 2442113 + a - a / 4);
    c := Word(20 * b - 2442) / 7305;
    var d := Word(b - 365 * c - c / 4);
    e := Word(d * 1000) / 30601;
    f := Word(d - e * 30 - e * 601 / 1000);
    if e <= 13 {
      c := Word(c - 4716);
      e := Word(e - 1);
    } else {
      c := Word(c - 4715);
      e := Word(e - 13);
    }
  }

  class DateTime {
    var year: int
    var month: int
    var day: int
    var dayOfWeek: int
    var hours: int
    var minutes: int
    var seconds: int
    var milliseconds: int

    function Value(): Date
      reads this
    {
      Date(year, month, day, dayOfWeek, hours, minutes, seconds, milliseconds)
    }

    /** The year and the milliseconds are 16 bits wide, the other fields 8. */
    predicate InWidth()
      reads this
    {
      && 0 <= year < 0x1_0000 && 0 <= milliseconds < 0x1_0000
      && 0 <= month < 0x100 && 0 <= day < 0x100 && 0 <= dayOfWeek < 0x100
      && 0 <= hours < 0x100 && 0 <= minutes < 0x100 && 0 <= seconds < 0x100
    }

    /** For every 32-bit time no intermediate result wraps. */
    method ConvertUnixTimeToDate(time: int)
      requires time < WORD
      modifies this
      ensures Value() == DateOf(time)
      ensures InWidth()
    {
      hide YearOf, MonthOf, DayOfMonth, DayOfWeek;
      var t := if time < 1 then 0 else time;
      milliseconds := 0;
      seconds := t % 60;
      t := t / 60;
      minutes := t % 60;
      t := t / 60;
      hours := t % 24;
      t := t / 24;
      ClockQuotients(if time < 1 then 0 else time);
      var c, e, f := DateOfDay(t);
      year := c % 0x1_0000;
      month := e % 0x100;
      day := f % 0x100;
      dayOfWeek := DayOfWeek(year, month, day);
      FieldsFit(t);
    }

    /** Exact modulo the word size, and so exact for the dates whose time fits in a word. */
    method ConvertDateToUnixTime() returns (t: int)
      requires InWidth()
      ensures 0 <= t < WORD
      ensures t == Word(UnixTime(Value())) <==> year >= 1 || month > 2
      ensures ValidDate(Value()) && year >= 1970 && UnixTime(Value()) < WORD ==> t == UnixTime(Value())
    {
      hide Word, UnixTime, DateOf, ValidDate;
      var y, m, d := year, month, day;
      if m <= 2 {
        m := m + 12;
        y := Word(y - 1);
      }
      t := Word(365 * y + y / 4 - y / 100 + y / 400);
      t := Word(t + (30 * m + 3 * (m + 1) / 5 + d));
      t := Word(t - 719561);
      t := Word(t * 86400);
      t := Word(t + (3600 * hours + 60 * minutes + seconds));
      TimeInWords(Value(), y, m);
      if ValidDate(Value()) && year >= 1970 {
        TimeNotNegative(Value());
        WordOfSmall(UnixTime(Value()));
      }
    }
  }

  lemma ClockQuotients(t: int)
    requires t >= 0
    ensures t / 60 / 60 == t / 3600 && t / 60 / 60 / 24 == t / 86400
  {
    var m, h := t / 60, t / 60 / 60;
    assert t == 60 * m + t % 60 && m == 60 * h + m % 60;
    QuotientIs(t, 3600, h, 60 * (m % 60) + t % 60);
    HoursInDays(t, h);
  }

  lemma HoursInDays(t: int, h: int)
    requires 0 <= t - 3600 * h < 3600
    ensures h / 24 == t / 86400
  {
    QuotientIs(t, 86400, h / 24, 3600 * (h % 24) + (t - 3600 * h));
  }

  lemma TimeNotNegative(x: Date)
    requires ValidDate(x) && x.year >= 1970
    ensures UnixTime(x) >= 0
  {
    hide *;
    DateSurvives(x);
  }

  lemma TimeInWords(x: Date, y: int, m: int)
    requires m == if x.month <= 2 then x.month + 12 else x.month
    requires y == if x.month <= 2 then Word(x.year - 1) else x.year
    requires 0 <= x.year < WORD
    ensures var days := Word(Word(365 * y + y / 4 - y / 100 + y / 400) + (30 * m + 3 * (m + 1) / 5 + x.day));
            var t := Word(Word(Word(days - 719561) * 86400) + (3600 * x.hours + 60 * x.minutes + x.seconds));
            0 <= t < WORD && (t == Word(UnixTime(x)) <==> x.year >= 1 || x.month > 2)
  {
    var s := 3600 * x.hours + 60 * x.minutes + x.seconds;
    WrapsAddUp(y, 30 * m + 3 * (m + 1) / 5 + x.day, s);
    assert YearDays(y) == 365 * y + y / 4 - y / 100 + y / 400;
    assert MonthDays(m) == 30 * m + 3 * (m + 1) / 5;
    YearZeroWraps(MonthDays(m) + x.day - 719561, s);
    assert Word(-1) == WORD - 1;
    WordOfSmall(x.year - 1);
    hide YearDays, MonthDays, Word;
  }

  lemma WordOfSmall(x: int)
    ensures 0 <= x < WORD ==> Word(x) == x
  {
  }

  lemma TermsInRange(n: int)
    requires 0 <= n <= WORD / 86400
    ensures 15 <= CenturyTerm(n) && 0 <= 4 * n + 102032 < WORD - 15
    ensures 2442000 <= JulianDays(n) <= 2600000
    ensures 6600 <= JulianYear(n) <= 6900
    ensures 123 <= DayOfJulianYear(n) <= 488
    ensures 4 <= MonthTerm(n) <= 15
    ensures 1 <= DayOfMonth(n) <= 31
  {
    assert 15 <= CenturyTerm(n) <= 25;
    assert 2442000 <= JulianDays(n) <= 2600000;
    hide CenturyTerm, JulianDays;
    assert 6600 <= JulianYear(n) <= 6900;
    hide JulianYear;
    DayOfJulianYearRange(n);
    MonthAndDay(n);
    ValidDayFound(n);
    hide DayOfJulianYear, MonthTerm, DayOfMonth;
  }

  /** Every intermediate result of the conversion to a date is below 2^32, so a 32-bit variable keeps it whole. */
  lemma NothingWraps(n: int)
    requires 0 <= n <= WORD / 86400
    ensures Word(Word(4 * n + 102032) / 146097 + 15) == CenturyTerm(n)
    ensures Word(n + 2442113 + CenturyTerm(n) - CenturyTerm(n) / 4) == JulianDays(n)
    ensures Word(20 * JulianDays(n) - 2442) / 7305 == JulianYear(n)
    ensures Word(JulianDays(n) - 365 * JulianYear(n) - JulianYear(n) / 4) == DayOfJulianYear(n)
    ensures Word(DayOfJulianYear(n) * 1000) / 30601 == MonthTerm(n)
    ensures Word(DayOfJulianYear(n) - MonthTerm(n) * 30 - MonthTerm(n) * 601 / 1000) == DayOfMonth(n)
    ensures MonthTerm(n) <= 13 ==> Word(JulianYear(n) - 4716) == YearOf(n) && Word(MonthTerm(n) - 1) == MonthOf(n)
    ensures MonthTerm(n) > 13 ==> Word(JulianYear(n) - 4715) == YearOf(n) && Word(MonthTerm(n) - 13) == MonthOf(n)
  {
    TermsInRange(n);
    hide Word;
    WordOfSmall(4 * n + 102032);
    WordOfSmall(CenturyTerm(n));
    WordOfSmall(JulianDays(n));
    WordOfSmall(20 * JulianDays(n) - 2442);
    WordOfSmall(DayOfJulianYear(n));
    WordOfSmall(DayOfJulianYear(n) * 1000);
    WordOfSmall(DayOfMonth(n));
    WordOfSmall(JulianYear(n) - 4716);
    WordOfSmall(JulianYear(n) - 4715);
    WordOfSmall(MonthTerm(n) - 1);
    WordOfSmall(MonthTerm(n) - 13);
  }

  lemma FieldsFit(n: int)
    requires 0 <= n <= WORD / 86400
    ensures 0 <= YearOf(n) < 0x1_0000 && 0 <= MonthOf(n) < 0x100 && 0 <= DayOfMonth(n) < 0x100
    ensures 1 <= DayOfWeek(YearOf(n), MonthOf(n), DayOfMonth(n)) <= 7
  {
    TermsInRange(n);
    hide CenturyTerm, JulianDays, JulianYear, DayOfJulianYear, MonthTerm, DayOfMonth, ZellerSum;
  }

  lemma WrapsAddUp(y: int, k: int, s: int)
    ensures Word(Word(Word(Word(Word(YearDays(y)) + k) - 719561) * 86400) + s) == Word(86400 * (YearDays(y) + k - 719561) + s)
  {
    hide Word, YearDays;
    var x := YearDays(y);
    WordOfSum(x, k);
    WordOfSum(x + k, -719561);
    WordOfProduct(x + k - 719561);
    WordOfSum((x + k - 719561) * 86400, s);
  }

  /** In January and February of the year 0 the shifted year wraps to 2^32 - 1, and the days no longer match. */
  lemma YearZeroWraps(k: int, s: int)
    ensures Word(86400 * (YearDays(WORD - 1) + k) + s) != Word(86400 * (YearDays(-1) + k) + s)
  {
    hide Word, YearDays;
    YearDaysAtWrap();
    var shift := 86400 * 1568704592610;
    WordShifted(86400 * (YearDays(-1) + k) + s, shift);
    ShiftIsNoWord();
  }

  lemma YearDaysAtWrap()
    ensures YearDays(WORD - 1) == 1568704592244 && YearDays(-1) == -366
  {
  }

  lemma ShiftIsNoWord()
    ensures Word(86400 * 1568704592610) != 0
  {
  }
}
