/** Time values and calendar parts: proleptic Gregorian day arithmetic in milliseconds since 1970. */
module Calendar {
  import opened Bytes

  const MSEC_SECOND := 1000
  const MSEC_MINUTE := 60 * 1000
  const MSEC_HOUR := 60 * 60 * 1000
  const MSEC_DAY := 24 * 60 * 60 * 1000
  const MSEC_100M_DAYS := 8640000000000000
  const MSEC_100M_DAYS_LEEWAY := MSEC_100M_DAYS + MSEC_DAY
  const MIN_ECMA_YEAR := -271821
  const MAX_ECMA_YEAR := 275760

  predicate InValidRange(d: int) { -MSEC_100M_DAYS <= d <= MSEC_100M_DAYS }

  /** A local time can lie up to a day outside the range of time values. */
  predicate InLeewayRange(d: int) { -MSEC_100M_DAYS_LEEWAY <= d <= MSEC_100M_DAYS_LEEWAY }

  predicate YearInValidRange(year: int) { MIN_ECMA_YEAR <= year <= MAX_ECMA_YEAR }

  // ----- the reference calendar: years and months laid end to end -----

  predicate Gregorian(year: int) {
    year % 4 == 0 && (year % 100 == 0 ==> year % 400 == 0)
  }

  function YearLength(year: int): int {
    if Gregorian(year) then 366 else 365
  }

  /** Day number of 1 January, counted year by year from 1970. */
  function JanFirst(year: int): int
    decreases if year >= 1970 then year - 1970 else 1970 - year
  {
    if year == 1970 then 0
    else if year > 1970 then JanFirst(year - 1) + YearLength(year - 1)
    else JanFirst(year + 1) - YearLength(year)
  }

  const DAYS_IN_MONTH: seq<int> := [31, 28, 31, 30, 31, 30, 31, 31, 30, 31, 30, 31]

  function MonthLength(year: int, month: int): (n: int)
    requires 0 <= month < 12
    ensures 28 <= n <= 31
  {
    DAYS_IN_MONTH[month] + (if month == 1 && Gregorian(year) then 1 else 0)
  }

  /** Days of the year before the month. */
  function MonthStart(year: int, month: int): int
    requires 0 <= month <= 12
    decreases month
  {
    if month == 0 then 0 else MonthStart(year, month - 1) + MonthLength(year, month - 1)
  }

  lemma YearIsTwelveMonths(year: int)
    ensures MonthStart(year, 12) == YearLength(year)
  {
    assert MonthStart(year, 1) == 31;
    assert MonthStart(year, 4) == YearLength(year) - 245;
    assert MonthStart(year, 8) == YearLength(year) - 122;
  }

  /** Weekday of a day number, Sunday first; 1 January 1970 was a Thursday. */
  function Weekday(day: int): int { (day + 4) % 7 }

  datatype Parts = Parts(year: int, month: int, day: int, hour: int, minute: int, second: int, msec: int, weekday: int)

  /** Normalized parts, month and day counted from zero. */
  predicate Civil(p: Parts) {
    && 0 <= p.month < 12 && 0 <= p.day < MonthLength(p.year, p.month)
    && 0 <= p.hour < 24 && 0 <= p.minute < 60 && 0 <= p.second < 60 && 0 <= p.msec < 1000
  }

  function DayOf(p: Parts): int
    requires 0 <= p.month < 12
  {
    JanFirst(p.year) + MonthStart(p.year, p.month) + p.day
  }

  function TimeInDay(p: Parts): int {
    p.hour * MSEC_HOUR + p.minute * MSEC_MINUTE + p.second * MSEC_SECOND + p.msec
  }

  /** The time value normalized parts stand for. */
  function TimeOf(p: Parts): int
    requires 0 <= p.month < 12
  {
    DayOf(p) * MSEC_DAY + TimeInDay(p)
  }

  /** `p` says what `d` is on the calendar. */
  ghost predicate Denotes(p: Parts, d: int) {
    Civil(p) && TimeOf(p) == d && p.weekday == Weekday(DayOf(p))
  }

  // ----- facts about the reference calendar -----

  lemma {:induction false} JanFirstStep(year: int)
    ensures JanFirst(year + 1) == JanFirst(year) + YearLength(year)
  {
  }

  lemma {:induction false} JanFirstGap(a: int, b: int)
    requires a <= b
    ensures 365 * (b - a) <= JanFirst(b) - JanFirst(a) <= 366 * (b - a)
    decreases b - a
  {
    if a < b {
      JanFirstGap(a, b - 1);
      JanFirstStep(b - 1);
    }
  }

  lemma {:induction false} MonthStartGap(year: int, m: int, n: int)
    requires 0 <= m < n <= 12
    ensures MonthStart(year, m) + MonthLength(year, m) <= MonthStart(year, n)
    decreases n
  {
    if m < n - 1 { MonthStartGap(year, m, n - 1); }
  }

  lemma {:induction false} MonthStartNonnegative(year: int, m: int)
    requires 0 <= m <= 12
    ensures MonthStart(year, m) >= 0
    decreases m
  {
    if m > 0 { MonthStartNonnegative(year, m - 1); }
  }

  lemma DayInYear(p: Parts)
    requires Civil(p)
    ensures JanFirst(p.year) <= DayOf(p) < JanFirst(p.year + 1)
  {
    hide MonthStart, MonthLength, JanFirst;
    MonthStartNonnegative(p.year, p.month);
    MonthStartGap(p.year, p.month, 12);
    YearIsTwelveMonths(p.year);
    JanFirstStep(p.year);
  }

  lemma TimeInDayBound(p: Parts)
    requires Civil(p)
    ensures 0 <= TimeInDay(p) < MSEC_DAY
  {
  }

  lemma YearUnique(a: int, b: int, day: int)
    requires JanFirst(a) <= day < JanFirst(a + 1) && JanFirst(b) <= day < JanFirst(b + 1)
    ensures a == b
  {
    if a < b { JanFirstGap(a + 1, b); } else if b < a { JanFirstGap(b + 1, a); }
  }

  /** A time value has one description. */
  lemma DenotesUnique(p: Parts, q: Parts, d: int)
    requires Denotes(p, d) && Denotes(q, d)
    ensures p == q
  {
    hide DayOf, TimeInDay, MonthLength;
    TimeInDayBound(p);
    TimeInDayBound(q);
    assert DayOf(p) == DayOf(q) && TimeInDay(p) == TimeInDay(q);
    DayUnique(p, q);
    TimeInDayUnique(p, q);
  }

  lemma DayUnique(p: Parts, q: Parts)
    requires Civil(p) && Civil(q) && DayOf(p) == DayOf(q)
    ensures p.year == q.year && p.month == q.month && p.day == q.day
  {
    hide MonthLength, MonthStart, JanFirst;
    DayInYear(p);
    DayInYear(q);
    YearUnique(p.year, q.year, DayOf(p));
    if p.month < q.month { MonthStartGap(p.year, p.month, q.month); }
    if q.month < p.month { MonthStartGap(p.year, q.month, p.month); }
  }

  lemma TimeInDayUnique(p: Parts, q: Parts)
    requires Civil(p) && Civil(q) && TimeInDay(p) == TimeInDay(q)
    ensures p.hour == q.hour && p.minute == q.minute && p.second == q.second && p.msec == q.msec
  {
    hide MonthLength;
  }

  // ----- C arithmetic -----

  /** Integer division of C: towards zero. */
  function Quot(a: int, b: int): int
    requires b > 0
  {
    if a >= 0 then a / b else -(-a / b)
  }

  function Rem(a: int, b: int): int
    requires b > 0
  {
    a - Quot(a, b) * b
  }

  lemma QuotientUnique(a: int, b: int, q: int)
    requires b > 0 && q * b <= a < q * b + b
    ensures q == a / b
  {
    var r := a / b;
    assert r * b <= a < r * b + b;
    MultipleGap(q, r, b);
    MultipleGap(r, q, b);
  }

  lemma MultipleGap(q: int, r: int, b: int)
    requires b > 0
    ensures q < r ==> q * b + b <= r * b
  {
    if q < r {
      var k := r - q - 1;
      calc {
        r * b;
        (q + 1 + k) * b;
        q * b + b + k * b;
      }
      ProductNonnegative(k, b);
    }
  }

  lemma ProductNonnegative(x: int, y: int)
    requires x >= 0 && y >= 0
    ensures x * y >= 0
  {
  }

  function DivFloor(a: int, b: int): (q: int)
    requires b > 0
    ensures q == a / b
  {
    if a >= 0 then Quot(a, b)
    else
      var q := Quot(a - b + 1, b);
      assert q * b <= a < q * b + b;
      QuotientUnique(a, b, q);
      q
  }

  predicate IsLeapYear(year: int) {
    if Rem(year, 4) != 0 then false
    else if Rem(year, 100) != 0 then true
    else Rem(year, 400) == 0
  }

  lemma LeapYears(year: int)
    ensures IsLeapYear(year) <==> Gregorian(year)
  {
    hide Rem;
    RemZero(year, 4);
    RemZero(year, 100);
    RemZero(year, 400);
  }

  lemma RemZero(a: int, b: int)
    requires b > 0
    ensures Rem(a, b) == 0 <==> a % b == 0
  {
    if a < 0 {
      var q := -a / b;
      assert -a == q * b + -a % b;
      NegatedProduct(q, b);
      QuotientUnique(a, b, if -a % b == 0 then -q else -q - 1);
    }
  }

  lemma NegatedProduct(q: int, b: int)
    ensures -q * b == -(q * b) && (-q - 1) * b == -(q * b) - b
  {
  }

  function DayFromYear(year: int): int {
    365 * (year - 1970) + DivFloor(year - 1969, 4) - DivFloor(year - 1901, 100) + DivFloor(year - 1601, 400)
  }

  /** The closed formula counts the days of all years in between. */
  lemma {:induction false} DayFromYearExact(year: int)
    ensures DayFromYear(year) == JanFirst(year)
    decreases if year >= 1970 then year - 1970 else 1970 - year
  {
    if year > 1970 {
      DayFromYearExact(year - 1);
      DayFromYearStep(year - 1);
    } else if year < 1970 {
      DayFromYearExact(year + 1);
      DayFromYearStep(year);
    }
  }

  lemma DayFromYearStep(year: int)
    ensures DayFromYear(year + 1) == DayFromYear(year) + YearLength(year)
  {
    hide DivFloor, YearLength, Carry;
    NextQuotient(year - 1969, 4);
    NextQuotient(year - 1901, 100);
    NextQuotient(year - 1601, 400);
    LeapCarries(year);
  }

  /** Does a quotient by `n` grow from `x` to the next number? */
  function Carry(x: int, n: int): int
    requires n > 1
  {
    if (x + 1) % n == 0 then 1 else 0
  }

  lemma LeapCarries(year: int)
    ensures Carry(year - 1969, 4) - Carry(year - 1901, 100) + Carry(year - 1601, 400) == YearLength(year) - 365
  {
    RemainderShift(year, 492, 4);
    RemainderShift(year, 19, 100);
    RemainderShift(year, 4, 400);
    Multiples(year);
  }

  /** Multiples of 400 are multiples of 100, and those of 4. */
  lemma Multiples(year: int)
    ensures (year % 400 == 0 ==> year % 100 == 0) && (year % 100 == 0 ==> year % 4 == 0)
  {
    if year % 400 == 0 { QuotientUnique(year, 100, year / 400 * 4); }
    if year % 100 == 0 { QuotientUnique(year, 4, year / 100 * 25); }
  }

  lemma RemainderShift(x: int, k: int, n: int)
    requires n > 0
    ensures (x - k * n) % n == x % n
  {
    var q, r := x / n, x % n;
    assert x - k * n == (q - k) * n + r;
    QuotientUnique(x - k * n, n, q - k);
  }

  lemma NextQuotient(x: int, n: int)
    requires n > 1
    ensures (x + 1) / n == x / n + Carry(x, n)
  {
    var q, r := x / n, x % n;
    assert x == q * n + r;
    if r + 1 < n {
      QuotientUnique(x + 1, n, q);
    } else {
      assert x + 1 == (q + 1) * n;
      QuotientUnique(x + 1, n, q + 1);
    }
  }

  // ----- day number to year -----

  /** The first year from `from` on that has not ended before `day`. */
  ghost function YearFrom(from: int, day: int): (year: int)
    requires JanFirst(from) <= day
    ensures from <= year && JanFirst(year) <= day < JanFirst(year + 1)
    decreases day - JanFirst(from)
  {
    JanFirstStep(from);
    if day < JanFirst(from + 1) then from else YearFrom(from + 1, day)
  }

  ghost function YearOf(day: int): (year: int)
    ensures JanFirst(year) <= day < JanFirst(year + 1)
  {
    var from := if day >= 0 then 1970 else 1970 + day;
    assert JanFirst(from) <= day by { if day < 0 { JanFirstGap(from, 1970); } }
    YearFrom(from, day)
  }

  /** What the loop turns a year that starts after `day` into. */
  function Corrected(year: int, day: int): int {
    year - (1 + Quot(DayFromYear(year) - day - 1, 366))
  }

  function Estimated(day: int): int {
    if day >= 0 then 1970 + Quot(day, 365) else 1970 + Quot(day, 366)
  }

  /** One correction never goes below the year sought; from at most 600 years above it lands within two
      years, from at most 367 within one. */
  lemma Correction(year: int, day: int)
    requires JanFirst(year) > day
    ensures YearOf(day) <= Corrected(year, day) < year
    ensures year <= YearOf(day) + 600 ==> Corrected(year, day) <= YearOf(day) + 2
    ensures year <= YearOf(day) + 367 ==> Corrected(year, day) <= YearOf(day) + 1
  {
    hide JanFirst, DayFromYear;
    DayFromYearExact(year);
    var y, next := YearOf(day), Corrected(year, day);
    JanFirstGap(next + 1, year);
    if next < y { JanFirstGap(next + 1, y); }
    if year <= y { JanFirstGap(year, y); } else { JanFirstGap(y + 1, year); }
  }

  lemma JanFirstLinear(year: int)
    ensures 146097 * (year - 1970) - 506 <= 400 * JanFirst(year) <= 146097 * (year - 1970) + 589
  {
    hide JanFirst;
    DayFromYearExact(year);
  }

  /** The estimate is never below the year sought, and for days of the time value range at most 600
      years above it. */
  lemma Estimate(day: int)
    ensures YearOf(day) <= Estimated(day)
    ensures -100000001 <= day <= 100000001 ==> Estimated(day) <= YearOf(day) + 600
  {
    hide JanFirst;
    var y, year := YearOf(day), Estimated(day);
    DayFromYearExact(1970);
    if year < y {
      if year >= 1970 { JanFirstGap(1970, year + 1); } else { JanFirstGap(year + 1, 1970); }
      JanFirstGap(year + 1, y);
    }
    JanFirstLinear(y + 1);
  }

  /** duk__year_from_day(): estimate upwards, then correct downwards.  The number of corrections is the
      first for which no excess is left. */
  method YearFromDay(day: int) returns (year: int, dayWithinYear: int, ghost corrections: nat)
    ensures JanFirst(year) <= day < JanFirst(year + 1)
    ensures dayWithinYear == day - JanFirst(year) && 0 <= dayWithinYear < YearLength(year)
    ensures Excess(day, corrections) == 0 && forall k :: 0 <= k < corrections ==> Excess(day, k) > 0
    ensures -100000001 <= day <= 100000001 ==> corrections <= 3 && (corrections == 3 <==> NeedsThree(day))
    ensures -85060960 <= day <= 100000001 ==> corrections <= 2
  {
    hide JanFirst, DayFromYear, Corrected, Excess, NeedsThree;
    corrections := 0;
    if day >= 0 {
      year := 1970 + Quot(day, 365);
    } else {
      year := 1970 + Quot(day, 366);
    }
    Estimate(day);
    ExcessSteps(day, 0);
    while true
      invariant year == YearOf(day) + Excess(day, corrections)
      invariant forall k :: 0 <= k < corrections ==> Excess(day, k) > 0
      decreases year - YearOf(day)
    {
      DayFromYearExact(year);
      var diffDays := DayFromYear(year) - day;
      if diffDays <= 0 {
        if YearOf(day) < year { JanFirstGap(YearOf(day) + 1, year); }
        JanFirstStep(year);
        dayWithinYear := -diffDays;
        CorrectionsNeeded(day);
        return;
      }
      Correction(year, day);
      CorrectedStep(year, day, diffDays);
      ExcessSteps(day, corrections);
      year := year - (1 + Quot(diffDays - 1, 366));
      corrections := corrections + 1;
    }
  }

  lemma CorrectedStep(year: int, day: int, diffDays: int)
    requires diffDays == DayFromYear(year) - day
    ensures Corrected(year, day) == year - (1 + Quot(diffDays - 1, 366))
  {
  }

  // ----- how many corrections -----

  /** How many of `n` years are not leap years. */
  function CommonYears(from: int, n: nat): nat {
    if n == 0 then 0 else CommonYears(from, n - 1) + if Gregorian(from + n - 1) then 0 else 1
  }

  /** How far the year is above the one sought after `k` corrections: what is left of the common years it is
      off and the days passed, in leap years' worth of days. */
  ghost function Excess(day: int, k: nat): nat {
    var y := YearOf(day);
    if k == 0 then
      Estimate(day);
      Estimated(day) - y
    else (CommonYears(y, Excess(day, k - 1)) + (day - JanFirst(y))) / 366
  }

  lemma {:induction false} JanFirstCommon(year: int, n: nat)
    ensures JanFirst(year + n) == JanFirst(year) + 366 * n - CommonYears(year, n)
  {
    hide JanFirst;
    if n > 0 {
      JanFirstCommon(year, n - 1);
      JanFirstStep(year + n - 1);
    }
  }

  lemma {:induction false} CommonSplit(from: int, m: nat, n: nat)
    ensures CommonYears(from, m + n) == CommonYears(from, m) + CommonYears(from + m, n)
  {
    if n > 0 { CommonSplit(from, m, n - 1); }
  }

  lemma {:induction false} CommonBound(from: int, n: nat)
    ensures CommonYears(from, n) <= n
  {
    if n > 0 { CommonBound(from, n - 1); }
  }

  /** The excess is what the loop's corrections leave, for every day there is. */
  lemma ExcessSteps(day: int, k: nat)
    ensures Excess(day, 0) == Estimated(day) - YearOf(day)
    ensures Excess(day, k) > 0 ==> Corrected(YearOf(day) + Excess(day, k), day) == YearOf(day) + Excess(day, k + 1)
  {
    hide JanFirst, DayFromYear, Estimated;
    var y, n := YearOf(day), Excess(day, k);
    if n > 0 {
      DayFromYearExact(y + n);
      JanFirstCommon(y, n);
      JanFirstGap(y + 1, y + n);
      var rest := CommonYears(y, n) + (day - JanFirst(y));
      QuotientUnique(366 * n - rest - 1, 366, n - 1 - rest / 366);
    }
  }

  /** Days whose year takes three corrections: last days of a year before a common one, with at least 367
      common years between it and the estimate. */
  ghost predicate NeedsThree(day: int) {
    var y := YearOf(day);
    day == JanFirst(y + 1) - 1 && !Gregorian(y + 1) &&
    Estimated(day) > y && CommonYears(y + 1, Estimated(day) - y - 1) >= 367
  }

  /** The source expects two corrections to be enough.  On the days of the time value range three always are,
      and two exactly where `NeedsThree` does not hold. */
  lemma ThreeCorrections(day: int)
    requires -100000001 <= day <= 100000001
    ensures Excess(day, 3) == 0 && (Excess(day, 2) > 0 <==> NeedsThree(day))
  {
    hide JanFirst, Estimated, CommonYears, Gregorian;
    var y := YearOf(day);
    var w, e := day - JanFirst(y), Excess(day, 0);
    JanFirstStep(y);
    Estimate(day);
    CommonBound(y, e);
    ThreeSteps(y, w, CommonYears(y, e));
    FewCommonYears(y);
    if e > 0 { CommonSplit(y, 1, e - 1); }
    assert Excess(day, 1) == (CommonYears(y, e) + w) / 366;
    assert Excess(day, 2) == (CommonYears(y, Excess(day, 1)) + w) / 366;
    assert Excess(day, 3) == (CommonYears(y, Excess(day, 2)) + w) / 366;
  }

  /** Three corrections for the day `w` of a year, with `n` common years up to the estimate. */
  lemma ThreeSteps(y: int, w: nat, n: nat)
    requires w < YearLength(y) && n <= 600
    ensures var e1 := (n + w) / 366; var e2 := (CommonYears(y, e1) + w) / 366;
      (CommonYears(y, e2) + w) / 366 == 0 &&
      (e2 > 0 <==> w == YearLength(y) - 1 && !Gregorian(y + 1) && n + w >= 732)
  {
    hide Gregorian;
    FewCommonYears(y);
    var e1 := (n + w) / 366;
    assert e1 == if n + w < 366 then 0 else if n + w < 732 then 1 else 2;
    var m := CommonYears(y, e1) + w;
    assert m / 366 == if m < 366 then 0 else 1;
  }

  lemma FewCommonYears(y: int)
    ensures CommonYears(y, 0) == 0
    ensures CommonYears(y, 1) == if Gregorian(y) then 0 else 1
    ensures CommonYears(y, 2) == CommonYears(y, 1) + if Gregorian(y + 1) then 0 else 1
  {
    assert CommonYears(y, 2) == CommonYears(y, 1) + if Gregorian(y + 1) then 0 else 1;
  }

  /** In 482 years at most 366 are common. */
  lemma CommonWindow(from: int, n: nat)
    requires n <= 482
    ensures CommonYears(from, n) <= 366
  {
    hide JanFirst, DayFromYear;
    CommonSplit(from, n, 482 - n);
    JanFirstCommon(from, 482);
    DayFromYearExact(from);
    DayFromYearExact(from + 482);
    LeapsInWindow(from);
  }

  lemma LeapsInWindow(from: int)
    ensures DayFromYear(from + 482) - DayFromYear(from) >= 365 * 482 + 116
  {
    hide DivFloor;
    WindowQuotients(from - 1969, from - 1901, from - 1601);
  }

  lemma WindowQuotients(a: int, b: int, c: int)
    ensures (a + 482) / 4 - a / 4 >= 120 && (b + 482) / 100 - b / 100 <= 5 && (c + 482) / 400 - c / 400 >= 1
  {
  }

  /** From 85060960 days before 1970 on two corrections are enough. */
  lemma TwoCorrectionsSuffice(day: int)
    requires -85060960 <= day <= 100000001
    ensures Excess(day, 2) == 0
  {
    hide JanFirst, Excess, Estimated;
    ThreeCorrections(day);
    if NeedsThree(day) {
      if day >= 0 { EstimateAfter1970(day); } else { EstimateBefore1970(day); }
    }
  }

  lemma EstimateAfter1970(day: int)
    requires 0 <= day <= 100000001
    ensures !NeedsThree(day)
  {
    hide JanFirst;
    var y := YearOf(day);
    JanFirstLinear(y + 1);
    if Estimated(day) > y { CommonBound(y + 1, Estimated(day) - y - 1); }
  }

  lemma EstimateBefore1970(day: int)
    requires -85060960 <= day < 0
    ensures !NeedsThree(day)
  {
    hide JanFirst, DayFromYear, CommonYears, Gregorian;
    if NeedsThree(day) {
      var first, z := 1970 - 232888, YearOf(day) + 1;
      FirstOf1970();
      if z > 1970 { JanFirstGap(1970, z); }
      if z < first { JanFirstGap(z, first); }
      JanFirstCommon(z, 1970 - z);
      JanFirstCommon(first, 232888);
      CommonSplit(first, z - first, 1970 - z);
      EstimateFromCommon(day, 1970 - z, CommonYears(z, 1970 - z));
      CommonWindow(z, Estimated(day) - z);
    }
  }

  /** The estimate for the last day before `n` years of which `c` are common. */
  lemma EstimateFromCommon(day: int, n: nat, c: nat)
    requires day == c - 366 * n - 1 && day < 0 && c <= 176413
    ensures Estimated(day) - (1970 - n) <= 482
  {
  }

  /** Day numbers of 1 January 1970 and of 232888 years before. */
  lemma FirstOf1970()
    ensures JanFirst(1970) == 0 && JanFirst(1970 - 232888) == -85060595
  {
    DayFromYearExact(1970 - 232888);
  }

  /** The day before takes three. */
  lemma TwoCorrectionsFallShort()
    ensures Excess(-85060961, 2) > 0
  {
    hide JanFirst;
    var day, y := -85060961, -230920;
    DayFromYearExact(y);
    DayFromYearExact(y + 1);
    DayFromYearExact(-230436);
    YearUnique(YearOf(day), y, day);
    JanFirstCommon(y, 484);
    assert Excess(day, 0) == 484;
    assert Excess(day, 1) == 2;
    FewCommonYears(y);
  }

  /** An excess that is gone stays gone. */
  lemma NoExcess(day: int, k: nat)
    ensures Excess(day, k) == 0 ==> Excess(day, k + 1) == 0
  {
    hide JanFirst;
    JanFirstStep(YearOf(day));
  }

  lemma CorrectionsNeeded(day: int)
    ensures Excess(day, 2) > 0 ==> Excess(day, 0) > 0 && Excess(day, 1) > 0
    ensures -100000001 <= day <= 100000001 ==> Excess(day, 3) == 0 && (Excess(day, 2) > 0 <==> NeedsThree(day))
    ensures -85060960 <= day <= 100000001 ==> Excess(day, 2) == 0
  {
    hide Excess, NeedsThree;
    NoExcess(day, 0);
    NoExcess(day, 1);
    if -100000001 <= day <= 100000001 { ThreeCorrections(day); }
    if -85060960 <= day <= 100000001 { TwoCorrectionsSuffice(day); }
  }

  // ----- time value to parts -----

  const WEEKDAY_MOD_ADDER := 20000000 * 7

  const YEAR := 0
  const MONTH := 1
  const DAY := 2
  const HOUR := 3
  const MINUTE := 4
  const SECOND := 5
  const MILLISECOND := 6
  const WEEKDAY := 7
  const NUM_PARTS := 8

  function View(s: seq<int>): Parts
    requires |s| == NUM_PARTS
  {
    Parts(s[YEAR], s[MONTH], s[DAY], s[HOUR], s[MINUTE], s[SECOND], s[MILLISECOND], s[WEEKDAY])
  }

  /** Years since 1970: seven common years starting on Sunday, Monday, ..., then seven leap years. */
  const EQUIV_YEAR: seq<int> := [53, 65, 49, 61, 45, 57, 41, 42, 54, 38, 50, 62, 46, 58]

  lemma EquivYears(weekday: int, leap: bool)
    requires 0 <= weekday < 7
    ensures var year := 1970 + EQUIV_YEAR[weekday + if leap then 7 else 0];
      2008 <= year <= 2035 && (Gregorian(year) <==> leap) && Weekday(JanFirst(year)) == weekday
  {
    hide JanFirst;
    var i := weekday + if leap then 7 else 0;
    var year := 1970 + EQUIV_YEAR[i];
    DayFromYearExact(year);
    EquivYearTable(weekday, leap);
  }

  lemma EquivYearTable(weekday: int, leap: bool)
    requires 0 <= weekday < 7
    ensures var year := 1970 + EQUIV_YEAR[weekday + if leap then 7 else 0];
      2008 <= year <= 2035 && (year % 4 == 0 <==> leap) && Weekday(DayFromYear(year)) == weekday
  {
    var year := 1970 + EQUIV_YEAR[weekday + if leap then 7 else 0];
    match weekday {
      case 0 => assert year == if leap then 2012 else 2023;
      case 1 => assert year == if leap then 2024 else 2035;
      case 2 => assert year == if leap then 2008 else 2019;
      case 3 => assert year == if leap then 2020 else 2031;
      case 4 => assert year == if leap then 2032 else 2015;
      case 5 => assert year == if leap then 2016 else 2027;
      case _ => assert year == if leap then 2028 else 2011;
    }
  }

  /** `year` when platform calls can be trusted with it, otherwise a year in 1971..2037 that has the same
      length and starts on the same weekday. */
  ghost predicate StandsFor(equiv: int, year: int) {
    && 1971 <= equiv <= 2037 && (1971 <= year <= 2037 ==> equiv == year)
    && (Gregorian(equiv) <==> Gregorian(year)) && Weekday(JanFirst(equiv)) == Weekday(JanFirst(year))
  }

  /** What splitting `d` yields under the two flags. */
  ghost predicate SplitOf(p: Parts, d: int, equivYear: bool, oneBased: bool) {
    exists year :: SplitFrom(p, year, d, equivYear, oneBased)
  }

  ghost predicate SplitFrom(p: Parts, year: int, d: int, equivYear: bool, oneBased: bool) {
    var shift := if oneBased then 1 else 0;
    && Denotes(Parts(year, p.month - shift, p.day - shift, p.hour, p.minute, p.second, p.msec, p.weekday), d)
    && (if equivYear then StandsFor(p.year, year) else p.year == year)
  }

  /** Month and day within month of a day within a year. */
  method MonthFromDay(year: int, dayInYear: int) returns (month: int, day: int)
    requires 0 <= dayInYear < YearLength(year)
    ensures 0 <= month < 12 && 0 <= day < MonthLength(year, month)
    ensures dayInYear == MonthStart(year, month) + day
  {
    hide MonthLength;
    YearIsTwelveMonths(year);
    month, day := 0, dayInYear;
    while month < 12
      invariant 0 <= month <= 12 && 0 <= day && dayInYear == MonthStart(year, month) + day
    {
      var dim := DAYS_IN_MONTH[month];
      if month == 1 && IsLeapYear(year) {
        dim := dim + 1;
      }
      assert dim == MonthLength(year, month) by { LengthOf(year, month); }
      if day < dim {
        return;
      }
      day := day - dim;
      month := month + 1;
    }
    assert false;
  }

  lemma LengthOf(year: int, month: int)
    requires 0 <= month < 12
    ensures MonthLength(year, month) == DAYS_IN_MONTH[month] + if month == 1 && IsLeapYear(year) then 1 else 0
  {
    LeapYears(year);
  }

  lemma AdderKeepsWeekday(day: int)
    requires day >= -WEEKDAY_MOD_ADDER
    ensures Rem(day + 4 + WEEKDAY_MOD_ADDER, 7) == Weekday(day)
  {
  }

  /** The equivalent year of `year`, of which `day` is day number `dayInYear`. */
  method EquivYear(year: int, dayInYear: int, day: int) returns (equiv: int)
    requires day == JanFirst(year) + dayInYear && JanFirst(year) >= -WEEKDAY_MOD_ADDER
    ensures StandsFor(equiv, year)
  {
    equiv := year;
    if year < 1971 || year > 2037 {
      var jan1 := day - dayInYear;
      AdderKeepsWeekday(jan1);
      var weekday := Rem(jan1 + 4 + WEEKDAY_MOD_ADDER, 7);
      var arridx := weekday;
      LeapYears(year);
      if IsLeapYear(year) {
        arridx := arridx + 7;
      }
      EquivYears(weekday, IsLeapYear(year));
      equiv := EQUIV_YEAR[arridx] + 1970;
    }
  }

  lemma DenotesParts(p: Parts, day: int, t: int, d: int)
    requires Civil(p) && DayOf(p) == day && TimeInDay(p) == t && p.weekday == Weekday(day)
    requires day * MSEC_DAY + t == d
    ensures Denotes(p, d)
  {
  }

  /** Time within a day, smallest unit first. */
  method SplitTime(t: int, parts: array<int>)
    requires 0 <= t < MSEC_DAY && parts.Length == NUM_PARTS
    modifies parts
    ensures 0 <= parts[HOUR] < 24 && 0 <= parts[MINUTE] < 60 && 0 <= parts[SECOND] < 60 && 0 <= parts[MILLISECOND] < 1000
    ensures parts[HOUR] * MSEC_HOUR + parts[MINUTE] * MSEC_MINUTE + parts[SECOND] * MSEC_SECOND + parts[MILLISECOND] == t
  {
    var t1 := t;
    parts[MILLISECOND] := t1 % 1000;
    t1 := t1 / 1000;
    parts[SECOND] := t1 % 60;
    t1 := t1 / 60;
    parts[MINUTE] := t1 % 60;
    t1 := t1 / 60;
    parts[HOUR] := t1;
  }

  method PutDate(parts: array<int>, year: int, month: int, day: int, oneBased: bool)
    requires parts.Length == NUM_PARTS
    modifies parts
    ensures var shift := if oneBased then 1 else 0;
      parts[..] == [year, month + shift, day + shift] + old(parts[HOUR..])
  {
    parts[YEAR] := year;
    parts[MONTH] := month;
    parts[DAY] := day;
    if oneBased {
      parts[MONTH] := parts[MONTH] + 1;
      parts[DAY] := parts[DAY] + 1;
    }
  }

  method CopyParts(parts: array<int>, dparts: array<int>)
    requires parts.Length == dparts.Length == NUM_PARTS && dparts != parts
    modifies dparts
    ensures dparts[..] == parts[..]
  {
    var i := 0;
    while i < NUM_PARTS
      invariant 0 <= i <= NUM_PARTS && dparts[..i] == parts[..i]
    {
      dparts[i] := parts[i];
      i := i + 1;
    }
  }

  method SplitMsec(d: int) returns (d1: int, d2: int)
    requires InLeewayRange(d)
    ensures d2 * MSEC_DAY + d1 == d && 0 <= d1 < MSEC_DAY && -100000001 <= d2 <= 100000001
  {
    d1 := Rem(d, MSEC_DAY);
    if d1 < 0 {
      d1 := d1 + MSEC_DAY;
    }
    d2 := d / MSEC_DAY;
  }

  /** Time of day and weekday go into `parts`, the date is returned. */
  method SplitDay(d: int, parts: array<int>) returns (year: int, month: int, day: int, dayInYear: int, dayNumber: int)
    requires InLeewayRange(d) && parts.Length == NUM_PARTS
    modifies parts
    ensures Denotes(Parts(year, month, day, parts[HOUR], parts[MINUTE], parts[SECOND], parts[MILLISECOND], parts[WEEKDAY]), d)
    ensures dayNumber == JanFirst(year) + dayInYear && JanFirst(year) >= -WEEKDAY_MOD_ADDER
  {
    hide MonthStart, MonthLength, JanFirst, Gregorian, Denotes, Weekday, Rem;
    var d1, d2 := SplitMsec(d);
    SplitTime(d1, parts);
    AdderKeepsWeekday(d2);
    parts[WEEKDAY] := Rem(d2 + 4 + WEEKDAY_MOD_ADDER, 7);
    ghost var corrections;
    year, dayInYear, corrections := YearFromDay(d2);
    month, day := MonthFromDay(year, dayInYear);
    dayNumber := d2;
    DenotesParts(Parts(year, month, day, parts[HOUR], parts[MINUTE], parts[SECOND], parts[MILLISECOND], parts[WEEKDAY]), d2, d1, d);
  }

  /** duk_bi_date_timeval_to_parts(). */
  method TimevalToParts(d: int, parts: array<int>, dparts: array?<int>, equivYear: bool, oneBased: bool)
    requires InLeewayRange(d) && parts.Length == NUM_PARTS
    requires dparts != null ==> dparts.Length == NUM_PARTS && dparts != parts
    modifies parts, dparts
    ensures SplitOf(View(parts[..]), d, equivYear, oneBased)
    ensures dparts != null ==> dparts[..] == parts[..]
  {
    hide JanFirst, Denotes, StandsFor;
    var year, month, day, dayInYear, dayNumber := SplitDay(d, parts);
    var shown := year;
    if equivYear {
      shown := EquivYear(year, dayInYear, dayNumber);
    }
    PutDate(parts, shown, month, day, oneBased);
    assert SplitFrom(View(parts[..]), year, d, equivYear, oneBased);
    if dparts != null {
      CopyParts(parts, dparts);
    }
  }
}
