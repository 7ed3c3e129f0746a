/** Dates in closed form: what splitting and joining time values comes to in plain numbers, without tables of
    months or years. */
module CivilDays {
  import opened Bytes
  import opened Calendar
  import opened TimeValue

  // ----- days -----

  /** Days from 1 January 1970, months counted from January as 0 and days from 0.  Years are taken to start in
      March, so that the leap day comes last and the months before any month have (153 m + 2) / 5 days. */
  function CivilDay(year: int, month: int, day: int): int {
    var y := if month >= 2 then year else year - 1;
    365 * y + y / 4 - y / 100 + y / 400 + (153 * ((month + 10) % 12) + 2) / 5 + day - 719468
  }

  /** The calendar by years and months is the closed form, for every year, month and day. */
  lemma DayIsCivil(year: int, month: int, day: int)
    requires 0 <= month < 12
    ensures JanFirst(year) + MonthStart(year, month) + day == CivilDay(year, month, day)
  {
    hide JanFirst, MonthStart, DayFromYear, Gregorian;
    DayFromYearExact(year);
    YearQuotients(year);
    MonthsBefore(year, month);
    YearAndMonth(year, month, day);
  }

  /** The day number of 1 January, in quotients of the year before and of the year itself. */
  lemma YearQuotients(year: int)
    ensures var y := year - 1; DayFromYear(year) == 365 * y + y / 4 - y / 100 + y / 400 - 719162
    ensures year / 4 - year / 100 + year / 400 == (year - 1) / 4 - (year - 1) / 100 + (year - 1) / 400 + if Gregorian(year) then 1 else 0
  {
    hide DivFloor, Carry;
    ShiftedQuotient(year - 1, 492, 4);
    ShiftedQuotient(year - 1, 19, 100);
    ShiftedQuotient(year - 1, 4, 400);
    NextQuotient(year - 1, 4);
    NextQuotient(year - 1, 100);
    NextQuotient(year - 1, 400);
    CarriesOfYear(year);
  }

  lemma ShiftedQuotient(x: int, k: int, n: int)
    requires n > 0
    ensures (x - k * n) / n == x / n - k
  {
    var q, r := x / n, x % n;
    assert x - k * n == (q - k) * n + r;
    QuotientUnique(x - k * n, n, q - k);
  }

  lemma CarriesOfYear(year: int)
    ensures Carry(year - 1, 4) - Carry(year - 1, 100) + Carry(year - 1, 400) == if Gregorian(year) then 1 else 0
  {
    Multiples(year);
  }

  /** Days before a month: January has 31, February ends the year that starts in March. */
  lemma {:induction false} MonthsBefore(year: int, month: int)
    requires 0 <= month < 12
    ensures MonthStart(year, month) ==
      if month == 0 then 0 else if month == 1 then 31
      else 59 + (if Gregorian(year) then 1 else 0) + (153 * (month - 2) + 2) / 5
    decreases month
  {
    hide Gregorian;
    if month > 2 {
      MonthsBefore(year, month - 1);
      LengthInNumbers(month - 1);
      assert MonthStart(year, month) == MonthStart(year, month - 1) + MonthLength(year, month - 1);
    } else if month > 0 {
      assert MonthStart(year, 1) == 31;
    }
  }

  lemma LengthInNumbers(month: int)
    requires 2 <= month < 12
    ensures DAYS_IN_MONTH[month] == (153 * (month - 1) + 2) / 5 - (153 * (month - 2) + 2) / 5
  {
  }

  lemma YearAndMonth(year: int, month: int, day: int)
    requires 0 <= month < 12
    requires var y := year - 1; JanFirst(year) == 365 * y + y / 4 - y / 100 + y / 400 - 719162
    requires year / 4 - year / 100 + year / 400 == (year - 1) / 4 - (year - 1) / 100 + (year - 1) / 400 + if Gregorian(year) then 1 else 0
    requires MonthStart(year, month) ==
      if month == 0 then 0 else if month == 1 then 31
      else 59 + (if Gregorian(year) then 1 else 0) + (153 * (month - 2) + 2) / 5
    ensures JanFirst(year) + MonthStart(year, month) + day == CivilDay(year, month, day)
  {
    hide JanFirst, MonthStart, Gregorian;
    if month >= 2 { assert (month + 10) % 12 == month - 2; }
  }

  // ----- time values -----

  /** The milliseconds of a date and time, none of them necessarily in its range. */
  function CivilTime(p: Parts): int {
    CivilDay(p.year + p.month / 12, p.month % 12, p.day) * 86400000 +
    p.hour * 3600000 + p.minute * 60000 + p.second * 1000 + p.msec
  }

  /** Joining parts: the closed form, or nothing if the year, months carried, is out of range. */
  lemma JoinIsCivil(p: Parts)
    ensures TimeFrom(p) == if -271821 <= p.year + p.month / 12 <= 275760 then Some(CivilTime(p)) else None
  {
    hide JanFirst, MonthStart, CivilDay;
    DayIsCivil(p.year + p.month / 12, p.month % 12, p.day);
  }

  lemma ClipInNumbers(d: Option<int>)
    ensures TimeClip(d) == if d.Some? && -8640000000000000 <= d.value <= 8640000000000000 then d else None
  {
  }

  /** Splitting a time value: parts in their ranges, the day before the next month's first, closed form equal to
      the time value, weekday counted from Thursday 1 January 1970. */
  lemma SplitIsCivil(p: Parts, d: int)
    ensures Denotes(p, d) <==>
      && 0 <= p.month < 12 && 0 <= p.day
      && CivilDay(p.year, p.month, p.day) < CivilDay(p.year + (p.month + 1) / 12, (p.month + 1) % 12, 0)
      && 0 <= p.hour < 24 && 0 <= p.minute < 60 && 0 <= p.second < 60 && 0 <= p.msec < 1000
      && CivilTime(p) == d && p.weekday == (CivilDay(p.year, p.month, p.day) + 4) % 7
  {
    hide JanFirst, MonthStart, CivilDay, MonthLength;
    if 0 <= p.month < 12 {
      DayIsCivil(p.year, p.month, p.day);
      DayIsCivil(p.year, p.month, 0);
      NextMonth(p.year, p.month);
    }
  }

  lemma NextMonth(year: int, month: int)
    requires 0 <= month < 12
    ensures CivilDay(year + (month + 1) / 12, (month + 1) % 12, 0) == JanFirst(year) + MonthStart(year, month) + MonthLength(year, month)
  {
    hide JanFirst, CivilDay, MonthLength;
    DayIsCivil(year + (month + 1) / 12, (month + 1) % 12, 0);
    if month == 11 {
      hide MonthStart;
      YearIsTwelveMonths(year);
      JanFirstStep(year);
      TwelfthMonth(year);
      FirstMonth(year + 1);
    }
  }

  lemma TwelfthMonth(year: int)
    ensures MonthStart(year, 11) + MonthLength(year, 11) == MonthStart(year, 12)
  {
  }

  lemma FirstMonth(year: int)
    ensures MonthStart(year, 0) == 0
  {
  }

  /** What splitting in UTC gives, months and days counted from 0 or from 1. */
  lemma SplitInNumbers(p: Parts, d: int, oneBased: bool)
    requires SplitOf(p, d, false, oneBased)
    ensures var k := if oneBased then 1 else 0;
      && CivilTime(p.(month := p.month - k, day := p.day - k)) == d && p.weekday == (d / 86400000 + 4) % 7
      && k <= p.month < 12 + k && k <= p.day && 0 <= p.hour < 24 && 0 <= p.minute < 60 && 0 <= p.second < 60 && 0 <= p.msec < 1000
  {
    hide Denotes, CivilDay;
    var year :| SplitFrom(p, year, d, false, oneBased);
    var k := if oneBased then 1 else 0;
    var q := p.(month := p.month - k, day := p.day - k);
    assert q == Parts(year, p.month - k, p.day - k, p.hour, p.minute, p.second, p.msec, p.weekday);
    SplitIsCivil(q, d);
    WholeDays(CivilDay(q.year, q.month, q.day), q);
  }

  lemma WholeDays(day: int, q: Parts)
    requires 0 <= q.hour < 24 && 0 <= q.minute < 60 && 0 <= q.second < 60 && 0 <= q.msec < 1000
    ensures (day * 86400000 + q.hour * 3600000 + q.minute * 60000 + q.second * 1000 + q.msec) / 86400000 == day
  {
  }
}
