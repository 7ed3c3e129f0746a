/** From calendar parts back to a time value, and from local time to UTC. */
module TimeValue {
  import opened Bytes
  import opened Calendar

  // ----- joining parts -----

  /** Day number of un-normalized parts: months carry into years, days just add up.  None is NaN. */
  ghost function DayNumber(year: int, month: int, day: int): Option<int> {
    var y := year + month / 12;
    if YearInValidRange(y) then Some(JanFirst(y) + MonthStart(y, month % 12) + day) else None
  }

  /** The time value of parts that may be un-normalized, before it is clipped to the valid range. */
  ghost function TimeFrom(p: Parts): Option<int> {
    match DayNumber(p.year, p.month, p.day)
    case None => None
    case Some(day) => Some(day * MSEC_DAY + TimeInDay(p))
  }

  function TimeClip(d: Option<int>): Option<int> {
    if d.Some? && InValidRange(d.value) then d else None
  }

  /** duk__make_day(). */
  method MakeDay(year: int, month: int, day: int) returns (r: Option<int>)
    ensures r == DayNumber(year, month, day)
  {
    hide JanFirst, MonthLength, Gregorian;
    var y := year + month / 12;
    var m := Rem(month, 12);
    if m < 0 {
      m := m + 12;
    }
    assert m == month % 12 by { FloorRemainder(month, 12); }
    if !YearInValidRange(y) {
      return None;
    }
    var dayNum := DayFromYear(y);
    DayFromYearExact(y);
    var isLeap := IsLeapYear(y);
    var i := 0;
    while i < m
      invariant 0 <= i <= m && dayNum == JanFirst(y) + MonthStart(y, i)
    {
      LengthOf(y, i);
      dayNum := dayNum + DAYS_IN_MONTH[i];
      if i == 1 && isLeap {
        dayNum := dayNum + 1;
      }
      i := i + 1;
    }
    r := Some(dayNum + day);
  }

  lemma FloorRemainder(a: int, b: int)
    requires b > 0
    ensures a % b == if Rem(a, b) < 0 then Rem(a, b) + b else Rem(a, b)
  {
    if a < 0 {
      var q := -a / b;
      assert -a == q * b + -a % b;
      NegatedProduct(q, b);
      QuotientUnique(a, b, if -a % b == 0 then -q else -q - 1);
    }
  }

  // ----- the local offset -----

  /** The offset in force (seconds) when the clock shows `d` and is taken to be `off` ahead of UTC. */
  function OffsetAt(tz: int -> int, d: int, off: int): int { tz(d - off * 1000) }

  function Max(a: int, b: int): int { if a > b then a else b }

  /** An offset value no zone has. */
  const NO_OFFSET := 999999999

  /** The offset that repeated guessing from 0 arrives at: the first guess that confirms itself, the
      higher of two that lead to each other, and otherwise the fourth. */
  function LocalOffset(tz: int -> int, d: int): int {
    var t1 := OffsetAt(tz, d, 0);
    var t2 := OffsetAt(tz, d, t1);
    var t3 := OffsetAt(tz, d, t2);
    var t4 := OffsetAt(tz, d, t3);
    if t1 == 0 || t1 == NO_OFFSET then t1
    else if t2 == t1 then t1
    else if t2 == 0 then Max(t1, t2)
    else if t3 == t2 then t2
    else if t3 == t1 then Max(t2, t3)
    else if t4 == t3 then t3
    else if t4 == t2 then Max(t3, t4)
    else t4
  }

  function ToUtc(d: int, tz: int -> int): int { d - LocalOffset(tz, d) * 1000 }

  const LOCAL_TZOFFSET_MAXITER := 4

  method FindLocalOffset(tz: int -> int, d: int) returns (tzoff: int)
    ensures tzoff == LocalOffset(tz, d)
  {
    hide OffsetAt;
    ghost var t1 := OffsetAt(tz, d, 0);
    ghost var t2 := OffsetAt(tz, d, t1);
    ghost var t3 := OffsetAt(tz, d, t2);
    tzoff := 0;
    var tzoffprev1, tzoffprev2 := NO_OFFSET, NO_OFFSET;
    var i := 0;
    while i < LOCAL_TZOFFSET_MAXITER
      invariant 0 <= i <= LOCAL_TZOFFSET_MAXITER
      invariant i == 0 ==> tzoff == 0 && tzoffprev1 == NO_OFFSET
      invariant i >= 1 ==> t1 != 0 && t1 != NO_OFFSET
      invariant i == 1 ==> tzoff == t1 && tzoffprev1 == 0
      invariant i >= 2 ==> t2 != t1 && t2 != 0
      invariant i == 2 ==> tzoff == t2 && tzoffprev1 == t1
      invariant i >= 3 ==> t3 != t2 && t3 != t1
      invariant i == 3 ==> tzoff == t3 && tzoffprev1 == t2
      invariant i == 4 ==> tzoff == LocalOffset(tz, d)
    {
      tzoffprev2 := tzoffprev1;
      tzoffprev1 := tzoff;
      assert tz(d - tzoff * 1000) == OffsetAt(tz, d, tzoff) by { OffsetDefined(tz, d, tzoff); }
      tzoff := tz(d - tzoff * 1000);
      if tzoff == tzoffprev1 {
        break;
      } else if tzoff == tzoffprev2 {
        if tzoffprev1 > tzoff {
          tzoff := tzoffprev1;
        }
        break;
      }
      i := i + 1;
    }
  }

  lemma OffsetDefined(tz: int -> int, d: int, off: int)
    ensures OffsetAt(tz, d, off) == tz(d - off * 1000)
  {
  }

  /** duk_bi_date_get_timeval_from_dparts(). */
  method TimevalFromDparts(dparts: array<int>, localtime: bool, tz: int -> int) returns (r: Option<int>)
    requires dparts.Length == NUM_PARTS
    ensures localtime ==>
      r == match TimeFrom(View(dparts[..])) { case None => None case Some(d) => TimeClip(Some(ToUtc(d, tz))) }
    ensures !localtime ==> r == TimeClip(TimeFrom(View(dparts[..])))
  {
    hide DayNumber, LocalOffset;
    var tmpTime := 0;
    tmpTime := tmpTime + dparts[HOUR] * MSEC_HOUR;
    tmpTime := tmpTime + dparts[MINUTE] * MSEC_MINUTE;
    tmpTime := tmpTime + dparts[SECOND] * MSEC_SECOND;
    tmpTime := tmpTime + dparts[MILLISECOND];
    var tmpDay := MakeDay(dparts[YEAR], dparts[MONTH], dparts[DAY]);
    if tmpDay.None? {
      return None;
    }
    var d := tmpDay.value * MSEC_DAY + tmpTime;
    if localtime {
      var tzoff := FindLocalOffset(tz, d);
      d := d - tzoff * 1000;
    }
    r := TimeClip(Some(d));
  }

  // ----- splitting and joining -----

  lemma YearOfTimeValue(p: Parts, d: int)
    requires Denotes(p, d) && InLeewayRange(d)
    ensures YearInValidRange(p.year)
  {
    hide MonthLength, MonthStart, JanFirst;
    TimeInDayBound(p);
    DayInYear(p);
    assert -100000001 <= DayOf(p) <= 100000001;
    DayFromYearExact(MIN_ECMA_YEAR);
    DayFromYearExact(MAX_ECMA_YEAR + 1);
    if p.year < MIN_ECMA_YEAR { JanFirstGap(p.year + 1, MIN_ECMA_YEAR); }
    if p.year > MAX_ECMA_YEAR { JanFirstGap(MAX_ECMA_YEAR + 1, p.year); }
  }

  /** Joining the parts of a time value gives it back. */
  lemma JoinUndoesSplit(p: Parts, d: int)
    requires Denotes(p, d) && InLeewayRange(d)
    ensures TimeFrom(p) == Some(d)
  {
    hide MonthStart, JanFirst;
    YearOfTimeValue(p, d);
  }

  /** Months beyond the year carry into it, in both directions; days, hours, minutes and seconds carry
      into the next unit. */
  lemma PartsCarry(p: Parts, years: int, days: int, hours: int, minutes: int, seconds: int)
    ensures TimeFrom(p.(year := p.year + years, month := p.month - 12 * years)) == TimeFrom(p)
    ensures TimeFrom(p.(day := p.day + days, hour := p.hour - 24 * days)) == TimeFrom(p)
    ensures TimeFrom(p.(hour := p.hour + hours, minute := p.minute - 60 * hours)) == TimeFrom(p)
    ensures TimeFrom(p.(minute := p.minute + minutes, second := p.second - 60 * minutes)) == TimeFrom(p)
    ensures TimeFrom(p.(second := p.second + seconds, msec := p.msec - 1000 * seconds)) == TimeFrom(p)
  {
    hide MonthStart, JanFirst;
    assert (p.month - 12 * years) / 12 == p.month / 12 - years && (p.month - 12 * years) % 12 == p.month % 12;
  }

  /** Splitting a time value and joining the parts: the same value, unless a local offset had pushed it
      out of the valid range. */
  method SplitAndJoin(d: int, parts: array<int>, dparts: array<int>) returns (r: Option<int>)
    requires InLeewayRange(d) && parts.Length == NUM_PARTS && dparts.Length == NUM_PARTS && dparts != parts
    modifies parts, dparts
    ensures r == if InValidRange(d) then Some(d) else None
  {
    hide Denotes, TimeFrom;
    TimevalToParts(d, parts, dparts, false, false);
    ghost var p := View(parts[..]);
    ghost var year :| SplitFrom(p, year, d, false, false);
    assert Parts(year, p.month - 0, p.day - 0, p.hour, p.minute, p.second, p.msec, p.weekday) == p;
    JoinUndoesSplit(p, d);
    r := TimevalFromDparts(dparts, false, t => 0);
  }

  // ----- equivalent years -----

  /** Moving parts into an equivalent year keeps month, day, weekday and time of day, and lands within
      what a 31-bit count of seconds can hold. */
  lemma EquivalentParts(p: Parts, equiv: int, d: int)
    requires Denotes(p, d) && StandsFor(equiv, p.year)
    ensures var q := p.(year := equiv);
      Denotes(q, TimeOf(q)) && TimeFrom(q) == Some(TimeOf(q)) && 0 <= TimeOf(q) < 2147483648 * 1000
  {
    hide JanFirst, MonthStart, MonthLength, TimeInDay, Gregorian, Weekday;
    var q := p.(year := equiv);
    SameMonths(p.year, equiv, p.month);
    SameWeekday(JanFirst(p.year), JanFirst(equiv), MonthStart(p.year, p.month) + p.day);
    SmallTimeValue(q);
    JoinUndoesSplit(q, TimeOf(q));
  }

  lemma SmallTimeValue(p: Parts)
    requires Civil(p) && 1971 <= p.year <= 2037
    ensures 0 <= TimeOf(p) < 2147483648 * 1000
  {
    hide JanFirst, MonthStart, MonthLength, TimeInDay;
    DayInYear(p);
    DayFromYearExact(1971);
    DayFromYearExact(2038);
    JanFirstGap(1971, p.year);
    JanFirstGap(p.year + 1, 2038);
    TimeInDayBound(p);
  }

  lemma SameWeekday(a: int, b: int, days: int)
    requires Weekday(a) == Weekday(b)
    ensures Weekday(a + days) == Weekday(b + days)
  {
  }

  lemma {:induction false} SameMonths(a: int, b: int, month: int)
    requires 0 <= month <= 12 && (Gregorian(a) <==> Gregorian(b))
    ensures MonthStart(a, month) == MonthStart(b, month)
    ensures month < 12 ==> MonthLength(a, month) == MonthLength(b, month)
    decreases month
  {
    if month > 0 { SameMonths(a, b, month - 1); }
  }

  /** The instant, in seconds, at which duk_bi_date_get_local_tzoffset_gmtime() asks the platform; outside
      the range of time values it does not ask. */
  method EquivalentSeconds(d: int, parts: array<int>, dparts: array<int>) returns (t: Option<int>)
    requires parts.Length == NUM_PARTS && dparts.Length == NUM_PARTS && dparts != parts
    modifies parts, dparts
    ensures t.None? <==> !(-8640000086400000 <= d <= 8640000086400000)
    ensures t.Some? ==> 0 <= t.value < 2147483648
    ensures t.Some? ==> exists p: Parts, equiv: int ::
      Denotes(p, d) && StandsFor(equiv, p.year) && t.value == TimeOf(p.(year := equiv)) / 1000
  {
    hide Denotes, StandsFor, TimeFrom, TimeOf;
    if !InLeewayRange(d) {
      return None;
    }
    TimevalToParts(d, parts, dparts, true, false);
    ghost var q := View(parts[..]);
    ghost var year :| SplitFrom(q, year, d, true, false);
    ghost var p := q.(year := year);
    assert Parts(year, q.month - 0, q.day - 0, q.hour, q.minute, q.second, q.msec, q.weekday) == p;
    assert p.(year := q.year) == q;
    EquivalentParts(p, q.year, d);
    DenotesHasMonth(p, d);
    var u := TimevalFromDparts(dparts, false, t => 0);
    assert u == Some(TimeOf(q));
    t := Some(u.value / 1000);
  }

  lemma DenotesHasMonth(p: Parts, d: int)
    requires Denotes(p, d)
    ensures 0 <= p.month < 12
  {
  }

  // ----- local time to UTC -----

  /** The largest offset any clock has, in seconds. */
  const DAY_SECONDS := 86400

  /** Instants within a day of a clock reading: those a plausible offset can lead to. */
  predicate Near(u: int, d: int) { -DAY_SECONDS * 1000 <= u - d <= DAY_SECONDS * 1000 }

  /** An offset a clock can have. */
  predicate Plausible(off: int) { -DAY_SECONDS <= off <= DAY_SECONDS }

  /** Within a day of `d`, the zone has no offsets but `a` and `b`: at most one kind of transition. */
  ghost predicate TwoOffsets(tz: int -> int, d: int, a: int, b: int) {
    Plausible(a) && Plausible(b) && forall off :: Plausible(off) ==> OffsetAt(tz, d, off) == a || OffsetAt(tz, d, off) == b
  }

  /** `u` is an instant at which the local clock shows `d`. */
  predicate ShowsAt(tz: int -> int, u: int, d: int) { u + tz(u) * 1000 == d }

  lemma OffsetShows(tz: int -> int, d: int, off: int)
    ensures ShowsAt(tz, d - off * 1000, d) <==> OffsetAt(tz, d, off) == off
  {
  }

  /** An instant that shows `d` is `d` less an offset that confirms itself. */
  lemma OffsetOfInstant(tz: int -> int, u: int, d: int) returns (off: int)
    requires ShowsAt(tz, u, d)
    ensures OffsetAt(tz, d, off) == off && u == d - off * 1000 && (Near(u, d) <==> Plausible(off))
  {
    off := tz(u);
  }

  /** One of the first four guesses confirms itself before two of them lead to each other. */
  predicate GuessesSettle(tz: int -> int, d: int) {
    var t1 := OffsetAt(tz, d, 0);
    var t2 := OffsetAt(tz, d, t1);
    var t3 := OffsetAt(tz, d, t2);
    var t4 := OffsetAt(tz, d, t3);
    t1 == 0 || t2 == t1 ||
    (t1 != NO_OFFSET && t2 != 0 &&
      (t3 == t2 || (t3 != t1 && (t4 == t3 || (t4 != t2 && OffsetAt(tz, d, t4) == t4)))))
  }

  /** The search finds an instant at which the clock shows `d` exactly when the guesses settle, whatever
      the zone. */
  lemma SearchExact(tz: int -> int, d: int)
    ensures ShowsAt(tz, ToUtc(d, tz), d) <==> GuessesSettle(tz, d)
  {
    hide OffsetAt, ShowsAt;
    OffsetShows(tz, d, LocalOffset(tz, d));
  }

  /** With two offsets the guesses end in a confirmed one, if there is one, or in the higher. */
  lemma OffsetsSettle(tz: int -> int, d: int, a: int, b: int)
    requires TwoOffsets(tz, d, a, b)
    ensures var off := LocalOffset(tz, d);
      Plausible(off) && (OffsetAt(tz, d, off) == off || (off == Max(a, b) && forall o :: Plausible(o) ==> OffsetAt(tz, d, o) != o))
  {
    hide OffsetAt;
    assert Plausible(0);
    var t1 := OffsetAt(tz, d, 0);
    var t2 := OffsetAt(tz, d, t1);
    var t3 := OffsetAt(tz, d, t2);
    if o :| Plausible(o) && OffsetAt(tz, d, o) == o {
      assert o == a || o == b;
    }
  }

  /** For a clock with two offsets around `d` the search finds an instant at which the clock shows `d`
      exactly when there is one; for a time the clock skips it takes the higher offset. */
  lemma LocalTimeFound(tz: int -> int, d: int, a: int, b: int)
    requires TwoOffsets(tz, d, a, b)
    ensures ShowsAt(tz, ToUtc(d, tz), d) <==> exists u :: Near(u, d) && ShowsAt(tz, u, d)
    ensures !ShowsAt(tz, ToUtc(d, tz), d) ==> ToUtc(d, tz) == d - Max(a, b) * 1000
  {
    hide OffsetAt, ShowsAt;
    OffsetsSettle(tz, d, a, b);
    var off := LocalOffset(tz, d);
    OffsetShows(tz, d, off);
    assert Near(d - off * 1000, d);
    if u :| Near(u, d) && ShowsAt(tz, u, d) {
      var o := OffsetOfInstant(tz, u, d);
      assert ShowsAt(tz, ToUtc(d, tz), d);
    }
  }

  /** The clock shows the same time at no other instant around. */
  ghost predicate ShownOnce(tz: int -> int, u: int, d: int) {
    forall v :: Near(v, d) && ShowsAt(tz, v, d) ==> v == u
  }

  /** Whatever instant a local time came from, the search finds an instant showing the same time.  It is
      the very same one exactly when the time is shown once, or the clock has at the instant the offset
      it has when UTC reads that time. */
  lemma LocalRoundTrip(tz: int -> int, u: int, a: int, b: int)
    requires TwoOffsets(tz, u + tz(u) * 1000, a, b) && Plausible(tz(u))
    ensures var d := u + tz(u) * 1000;
      ShowsAt(tz, ToUtc(d, tz), d) && Near(ToUtc(d, tz), d)
    ensures var d := u + tz(u) * 1000;
      ToUtc(d, tz) == u <==> ShownOnce(tz, u, d) || tz(u) == tz(d)
  {
    var d := u + tz(u) * 1000;
    var off := LocalOffset(tz, d);
    OffsetsSettle(tz, d, a, b);
    OffsetShows(tz, d, off);
    assert ShowsAt(tz, u, d) && Near(u, d) && OffsetAt(tz, d, tz(u)) == tz(u);
    assert Near(ToUtc(d, tz), d) && ShowsAt(tz, ToUtc(d, tz), d);
    if !ShownOnce(tz, u, d) {
      var v :| Near(v, d) && ShowsAt(tz, v, d) && v != u;
      TwiceShown(tz, d, a, b, u, v);
    }
  }

  /** Of two instants showing the same time the search takes the one with the offset in force when UTC
      reads that time. */
  lemma TwiceShown(tz: int -> int, d: int, a: int, b: int, u: int, v: int)
    requires TwoOffsets(tz, d, a, b) && Near(u, d) && Near(v, d)
    requires ShowsAt(tz, u, d) && ShowsAt(tz, v, d) && v != u
    ensures LocalOffset(tz, d) == tz(d) && (ToUtc(d, tz) == u <==> tz(u) == tz(d))
  {
    var p := OffsetOfInstant(tz, u, d);
    var q := OffsetOfInstant(tz, v, d);
    assert OffsetAt(tz, d, p) == p && OffsetAt(tz, d, q) == q && p != q;
    assert Plausible(0) && OffsetAt(tz, d, 0) == tz(d);
  }

  /** A clock set four times within a day: nine hours ahead of UTC, then one, three, two and one. */
  function Restless(t: int): int {
    if t <= -32400000 then 32400
    else if t <= -10800000 then 3600
    else if t <= -7200000 then 10800
    else if t <= -3600000 then 7200
    else 3600
  }

  /** With more offsets around a time the search can go in circles and miss an instant that shows it. */
  lemma MoreOffsetsCanCycle()
    ensures ShowsAt(Restless, -32400000, 0) && Near(-32400000, 0)
    ensures !GuessesSettle(Restless, 0) && !ShowsAt(Restless, ToUtc(0, Restless), 0)
  {
    SearchExact(Restless, 0);
  }
}
