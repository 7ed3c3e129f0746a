/** Date strings in literal characters: exactly which ones are accepted, with which numbers, and how time
    values are written. */
module IsoGrammar {
  import opened Bytes
  import opened Calendar
  import opened TimeValue
  import opened Iso8601
  import CivilDays

  // ----- the grammar -----

  /** A field and what is behind it: nothing, a Z, or a separator and another field.  Fields are, by number:
      year, month, day, hour, minute, second, fraction, hours and minutes of the offset. */
  datatype Fields = Last(digits: bytes) | Zulu(digits: bytes) | More(digits: bytes, sep: byte, rest: Fields)

  function Text(f: Fields): bytes {
    match f
    case Last(ds) => ds
    case Zulu(ds) => ds + ['Z' as int]
    case More(ds, sep, rest) => ds + [sep] + Text(rest)
  }

  predicate AllDigits(ds: bytes) { forall i :: 0 <= i < |ds| ==> '0' as int <= ds[i] <= '9' as int }

  predicate Digits(ds: bytes) { ds != [] && AllDigits(ds) }

  /** The field a separator leads to, none if it may not stand there. */
  function NextField(field: nat, sep: byte): Option<nat> {
    if sep == '-' as int then (if field == 0 then Some(1) else if field == 1 then Some(2) else if field <= 6 then Some(7) else None)
    else if sep == '+' as int then (if field <= 6 then Some(7) else None)
    else if sep == 'T' as int || sep == ' ' as int then (if field <= 2 then Some(3) else None)
    else if sep == ':' as int then (if field == 3 then Some(4) else if field == 4 then Some(5) else if field == 7 then Some(8) else None)
    else if sep == '.' as int then (if field == 5 then Some(6) else None)
    else None
  }

  /** Fields of one to nine digits, fractions of any number; separators where they may be; a Z not in an offset. */
  predicate Derived(f: Fields, field: nat) {
    Digits(f.digits) && (field != 6 ==> |f.digits| <= 9) &&
    match f
    case Last(_) => true
    case Zulu(_) => field <= 6
    case More(_, sep, rest) => NextField(field, sep).Some? && Derived(rest, NextField(field, sep).value)
  }

  function Number(ds: bytes): int {
    if ds == [] then 0 else Number(ds[..|ds| - 1]) * 10 + (ds[|ds| - 1] as int - '0' as int)
  }

  /** A fraction of a second in milliseconds, cut behind the third digit. */
  function Milliseconds(ds: bytes): int {
    if |ds| <= 1 then Number(ds) * 100 else if |ds| == 2 then Number(ds) * 10 else Number(ds[..3])
  }

  /** All fields by number, those not there as they were. */
  function Numbers(f: Fields, field: nat, parts: seq<int>): seq<int>
    requires Derived(f, field) && field < 9 && |parts| == 9
  {
    var filled := parts[field := if field == 6 then Milliseconds(f.digits) else Number(f.digits)];
    if f.More? then Numbers(f.rest, NextField(field, f.sep).value, filled) else filled
  }

  /** Does an offset with a minus sign follow? */
  predicate West(f: Fields, field: nat)
    requires Derived(f, field)
  {
    f.More? && ((f.sep == '-' as int && NextField(field, f.sep) == Some(7)) || West(f.rest, NextField(field, f.sep).value))
  }

  // ----- one field -----

  /** A number being read. */
  function Reads(part: nat, ds: bytes, parts: seq<int>, neg: bool): State {
    var n := if part == 6 && |ds| > 3 then 3 else |ds|;
    State(part, Number(ds[..n]), n, parts, neg)
  }

  lemma {:induction false} DigitsScan(ds: bytes, more: bytes, rest: bytes, part: nat, parts: seq<int>, neg: bool)
    requires part < 9 && |parts| == 9 && AllDigits(more)
    requires part == 6 || |ds + more| <= 9
    ensures Scan(more + rest, Reads(part, ds, parts, neg)) == Scan(rest, Reads(part, ds + more, parts, neg))
    decreases |more|
  {
    hide Scan, Grammar;
    if more == [] {
      assert more + rest == rest && ds + more == ds;
    } else {
      assert more + rest == [more[0]] + (more[1..] + rest) && ds + more == (ds + [more[0]]) + more[1..];
      NextDigit(ds, more[0], more[1..] + rest, part, parts, neg);
      DigitsScan(ds + [more[0]], more[1..], rest, part, parts, neg);
    }
  }

  lemma NextDigit(ds: bytes, b: byte, s: bytes, part: nat, parts: seq<int>, neg: bool)
    requires part < 9 && |parts| == 9 && '0' as int <= b <= '9' as int && (part == 6 || |ds| < 9)
    ensures Scan([b] + s, Reads(part, ds, parts, neg)) == Scan(s, Reads(part, ds + [b], parts, neg))
  {
    hide Scan, Grammar;
    ScanStep(b, s, Reads(part, ds, parts, neg));
    assert (ds + [b])[..|ds|] == ds;
    if part == 6 && |ds| >= 3 {
      assert (ds + [b])[..3] == ds[..3];
    } else {
      assert (ds + [b])[..|ds| + 1] == ds + [b] && ds[..|ds|] == ds;
    }
  }

  /** A field and the character behind it. */
  lemma FieldScan(ds: bytes, ch: byte, rest: bytes, part: nat, parts: seq<int>, neg: bool)
    requires part < 9 && |parts| == 9 && Digits(ds) && (part != 6 ==> |ds| <= 9) && !('0' as int <= ch <= '9' as int)
    ensures Grammar(part, ch).Next? ==> Grammar(part, ch).part < 9
    ensures Scan(ds + ([ch] + rest), State(part, 0, 0, parts, neg)) ==
      Follow(Grammar(part, ch), rest, parts[part := if part == 6 then Milliseconds(ds) else Number(ds)], neg)
  {
    hide Scan, Grammar, Follow;
    GrammarParts(part, ch);
    assert Reads(part, [], parts, neg) == State(part, 0, 0, parts, neg);
    assert [] + ds == ds;
    DigitsScan([], ds, [ch] + rest, part, parts, neg);
    ScanStep(ch, rest, Reads(part, ds, parts, neg));
    FieldDone(ds, part, parts, neg);
  }

  lemma FieldDone(ds: bytes, part: nat, parts: seq<int>, neg: bool)
    requires ds != [] && part < 9
    ensures Completed(Reads(part, ds, parts, neg)) == if part == 6 then Milliseconds(ds) else Number(ds)
  {
    assert ds[..|ds|] == ds;
    assert Pow10(1) == 10 * Pow10(0) && Pow10(2) == 10 * Pow10(1);
  }

  // ----- derived strings are accepted -----

  /** The separators of the parser's rules are those of the grammar. */
  lemma SameGrammar(part: nat, ch: byte)
    requires part < 9
    ensures Grammar(part, ch) ==
      if ch == 0 then AcceptNow
      else if ch == 'Z' as int then (if part <= 6 then AcceptBeforeNul else NoRule)
      else match NextField(part, ch)
        case None => NoRule
        case Some(next) => Next(next, ch == '-' as int && next == 7)
    ensures NextField(part, ch).Some? ==> NextField(part, ch).value < 9 && ch != 0 && ch != 'Z' as int && !('0' as int <= ch <= '9' as int)
  {
  }

  lemma {:induction false} FieldsAccepted(f: Fields, field: nat, parts: seq<int>, neg: bool)
    requires field < 9 && |parts| == 9 && Derived(f, field)
    ensures Scan(Text(f) + [0], State(field, 0, 0, parts, neg)) == Accept(Numbers(f, field, parts), neg || West(f, field))
    decreases f
  {
    hide Scan, Grammar, Digits, Number, Milliseconds, NextField;
    match f
    case Last(ds) =>
      SameGrammar(field, 0);
      assert Text(f) + [0] == ds + ([0] + []);
      FieldScan(ds, 0, [], field, parts, neg);
    case Zulu(ds) =>
      SameGrammar(field, 'Z' as int);
      assert Text(f) + [0] == ds + (['Z' as int] + [0]);
      FieldScan(ds, 'Z' as int, [0], field, parts, neg);
    case More(ds, sep, rest) =>
      SameGrammar(field, sep);
      assert Text(f) + [0] == ds + ([sep] + (Text(rest) + [0]));
      FieldScan(ds, sep, Text(rest) + [0], field, parts, neg);
      var next := NextField(field, sep).value;
      var filled := parts[field := if field == 6 then Milliseconds(ds) else Number(ds)];
      var west := sep == '-' as int && next == 7;
      assert Scan(Text(f) + [0], State(field, 0, 0, parts, neg)) == Scan(Text(rest) + [0], State(next, 0, 0, filled, neg || west));
      FieldsAccepted(rest, next, filled, neg || west);
      assert West(f, field) == (west || West(rest, next));
  }

  // ----- accepted strings are derived -----

  lemma {:induction false} DigitsFound(s: bytes) returns (ds: bytes, rest: bytes)
    ensures s == ds + rest && AllDigits(ds)
    ensures rest != [] ==> !('0' as int <= rest[0] <= '9' as int)
  {
    if s == [] || !('0' as int <= s[0] <= '9' as int) {
      ds, rest := [], s;
    } else {
      ds, rest := DigitsFound(s[1..]);
      ds := [s[0]] + ds;
    }
  }

  /** An accepted rest of a string starts with digits, not too many, and something behind them. */
  lemma FieldFound(s: bytes, field: nat, parts: seq<int>, neg: bool) returns (ds: bytes, ch: byte, rest: bytes)
    requires field < 9 && |parts| == 9 && Scan(s, State(field, 0, 0, parts, neg)).Accept?
    ensures s == ds + ([ch] + rest) && Digits(ds) && (field != 6 ==> |ds| <= 9) && !('0' as int <= ch <= '9' as int)
  {
    hide Scan, Grammar;
    var tail;
    ds, tail := DigitsFound(s);
    assert Reads(field, [], parts, neg) == State(field, 0, 0, parts, neg);
    if field != 6 && |ds| > 9 { TooManyDigits(ds, tail, field, parts, neg); }
    assert [] + ds == ds;
    DigitsScan([], ds, tail, field, parts, neg);
    if tail == [] {
      NothingScanned(Reads(field, ds, parts, neg));
      assert false;
    }
    ch, rest := tail[0], tail[1..];
    assert tail == [ch] + rest;
    ScanStep(ch, rest, Reads(field, ds, parts, neg));
  }

  lemma TooManyDigits(ds: bytes, tail: bytes, field: nat, parts: seq<int>, neg: bool)
    requires field < 9 && field != 6 && |parts| == 9 && AllDigits(ds) && |ds| > 9
    ensures Scan(ds + tail, State(field, 0, 0, parts, neg)) == Reject
  {
    hide Scan, Grammar;
    var rest := ds[10..] + tail;
    assert Reads(field, [], parts, neg) == State(field, 0, 0, parts, neg);
    assert ds + tail == ds[..9] + ([ds[9]] + rest);
    assert [] + ds[..9] == ds[..9];
    DigitsScan([], ds[..9], [ds[9]] + rest, field, parts, neg);
    ScanStep(ds[9], rest, Reads(field, ds[..9], parts, neg));
  }

  lemma NothingScanned(st: State)
    requires StateValid(st)
    ensures Scan([], st) == Reject
  {
  }

  /** Whatever is accepted, up to its NUL, is derived. */
  lemma {:induction false} FieldsFound(s: bytes, field: nat, parts: seq<int>, neg: bool) returns (f: Fields)
    requires field < 9 && |parts| == 9 && 0 !in s && Scan(s + [0], State(field, 0, 0, parts, neg)).Accept?
    ensures Derived(f, field) && Text(f) == s
    decreases |s|
  {
    hide Scan, Grammar, Digits, Number, Milliseconds, NextField;
    var ds, ch, rest := FieldFound(s + [0], field, parts, neg);
    FieldScan(ds, ch, rest, field, parts, neg);
    SameGrammar(field, ch);
    if rest == [] {
      assert ch == (s + [0])[|s|] == 0;
      assert s == (s + [0])[..|s|] == ds;
      f := Last(ds);
    } else {
      var more := rest[..|rest| - 1];
      EndsWithNul(s, ds, ch, rest);
      if ch == 'Z' as int {
        assert |rest| > 0 && rest[0] == 0;
        assert more == [] by { NulIsLast(s, ds, ch, rest); }
        f := Zulu(ds);
      } else {
        var next := NextField(field, ch).value;
        var filled := parts[field := if field == 6 then Milliseconds(ds) else Number(ds)];
        var g := FieldsFound(more, next, filled, neg || (ch == '-' as int && next == 7));
        f := More(ds, ch, g);
      }
    }
  }

  lemma EndsWithNul(s: bytes, ds: bytes, ch: byte, rest: bytes)
    requires s + [0] == ds + ([ch] + rest) && rest != [] && 0 !in s
    ensures var more := rest[..|rest| - 1];
      rest == more + [0] && s == ds + [ch] + more && 0 !in more && ch != 0 && |more| < |s|
  {
    var more := rest[..|rest| - 1];
    assert (s + [0])[|s|] == rest[|rest| - 1];
    assert s == (s + [0])[..|s|] == (ds + ([ch] + rest))[..|s|] == ds + [ch] + more;
    assert s[|ds|] == ch;
  }

  lemma NulIsLast(s: bytes, ds: bytes, ch: byte, rest: bytes)
    requires s + [0] == ds + ([ch] + rest) && rest != [] && 0 !in s && rest[0] == 0
    ensures |rest| == 1
  {
    EndsWithNul(s, ds, ch, rest);
    if |rest| > 1 { NulInFront(rest); }
  }

  lemma NulInFront(rest: bytes)
    requires |rest| > 1 && rest[0] == 0
    ensures 0 in rest[..|rest| - 1]
  {
    assert rest[..|rest| - 1][0] == 0;
  }

  // ----- whole strings -----

  /** A sign before the year, or none, and the fields from the year on. */
  ghost predicate Spelled(text: bytes, sign: bytes, f: Fields) {
    (sign == [] || sign == ['+' as int] || sign == ['-' as int]) && Derived(f, 0) && text == sign + Text(f)
  }

  /** A string is accepted if and only if the grammar derives it. */
  lemma AcceptedExactly(text: bytes)
    requires 0 !in text
    ensures Parse(text + [0]).Accept? <==> exists sign, f :: Spelled(text, sign, f)
  {
    hide Parse, Spelled;
    if sign, f :| Spelled(text, sign, f) { SpelledAccepted(text, sign, f); }
    if Parse(text + [0]).Accept? { var sign, f := AcceptedSpelled(text); }
  }

  /** The numbers of an accepted string: month and day are 1 and everything else 0 where they are not given. */
  lemma SpelledAccepted(text: bytes, sign: bytes, f: Fields)
    requires Spelled(text, sign, f)
    ensures Parse(text + [0]) == Accept(Numbers(f, 0, [0, 1, 1, 0, 0, 0, 0, 0, 0]), West(f, 0))
    ensures text != [] && (text[0] == '-' as int <==> sign == ['-' as int])
  {
    hide Scan, Numbers, West, Derived, Number;
    var s := Text(f) + [0];
    TextStart(f, 0);
    FieldsAccepted(f, 0, [0, 1, 1, 0, 0, 0, 0, 0, 0], false);
    if sign == [] {
      assert text == Text(f) && text + [0] == s;
    } else {
      assert (text + [0])[1..] == s;
    }
  }

  lemma TextStart(f: Fields, field: nat)
    requires Derived(f, field)
    ensures Text(f) != [] && '0' as int <= Text(f)[0] <= '9' as int
  {
    assert Text(f)[0] == f.digits[0];
  }

  lemma AcceptedSpelled(text: bytes) returns (sign: bytes, f: Fields)
    requires 0 !in text && Parse(text + [0]).Accept?
    ensures Spelled(text, sign, f)
  {
    hide Scan, Derived;
    var s := text;
    sign := [];
    if text != [] && (text[0] == '+' as int || text[0] == '-' as int) {
      sign, s := [text[0]], text[1..];
      assert (text + [0])[1..] == s + [0];
    }
    f := FieldsFound(s, 0, [0, 1, 1, 0, 0, 0, 0, 0, 0], false);
  }

  /** The time value of an accepted string, in numbers: the offset is taken off the hour and the minute. */
  lemma SpelledValue(text: bytes, sign: bytes, f: Fields)
    requires Spelled(text, sign, f)
    ensures var n := Numbers(f, 0, [0, 1, 1, 0, 0, 0, 0, 0, 0]);
      |n| == 9 &&
      var year := if sign == ['-' as int] then -n[0] else n[0];
      var w := if West(f, 0) then 1 else -1;
      var p := Parts(year, n[1] - 1, n[2] - 1, n[3] + w * n[7], n[4] + w * n[8], n[5], n[6], 0);
      var d := CivilDays.CivilTime(p);
      Reading(text + [0]) == Value(
        if -271821 <= p.year + p.month / 12 <= 275760 && -8640000000000000 <= d <= 8640000000000000 then Some(d) else None)
  {
    hide Parse, Numbers, West, TimeFrom, CivilDays.CivilDay, TimeClip, Derived;
    SpelledAccepted(text, sign, f);
    NumbersCount(f, 0, [0, 1, 1, 0, 0, 0, 0, 0, 0]);
    var n := Numbers(f, 0, [0, 1, 1, 0, 0, 0, 0, 0, 0]);
    var q := Meaning(n, sign == ['-' as int], West(f, 0));
    assert (text + [0])[0] == text[0];
    CivilDays.JoinIsCivil(q);
    CivilDays.ClipInNumbers(TimeFrom(q));
  }

  lemma {:induction false} NumbersCount(f: Fields, field: nat, parts: seq<int>)
    requires Derived(f, field) && field < 9 && |parts| == 9
    ensures |Numbers(f, field, parts)| == 9
    decreases f
  {
    hide NextField, Digits, Number, Milliseconds;
    if f.More? {
      SameGrammar(field, f.sep);
      NumbersCount(f.rest, NextField(field, f.sep).value, parts[field := if field == 6 then Milliseconds(f.digits) else Number(f.digits)]);
    }
  }

  // ----- what is written -----

  function Dec(n: int): byte
    requires 0 <= n < 10
  {
    '0' as int + n
  }

  function Two(n: int): bytes
    requires 0 <= n < 100
  {
    [Dec(n / 10), Dec(n % 10)]
  }

  function Three(n: int): bytes
    requires 0 <= n < 1000
  {
    [Dec(n / 100), Dec(n / 10 % 10), Dec(n % 10)]
  }

  /** Four digits, or a sign and six. */
  function YearLiteral(year: int): bytes
    requires -999999 <= year <= 999999
  {
    if 0 <= year <= 9999 then Two(year / 100) + Two(year % 100)
    else
      var n := if year < 0 then -year else year;
      [if year < 0 then '-' as int else '+' as int] + Three(n / 1000) + Three(n % 1000)
  }

  function DateLiteral(p: Parts): bytes
    requires Printable(p)
  {
    YearLiteral(p.year) + ['-' as int] + Two(p.month) + ['-' as int] + Two(p.day)
  }

  function TimeLiteral(p: Parts): bytes
    requires Printable(p)
  {
    Two(p.hour) + [':' as int] + Two(p.minute) + [':' as int] + Two(p.second) + ['.' as int] + Three(p.msec)
  }

  /** Z, or the sign and the whole minutes of an offset given in seconds. */
  function ZoneLiteral(tz: Option<int>): bytes
    requires tz.Some? ==> -360000 < tz.value < 360000
  {
    if tz.None? then ['Z' as int] else
    var minutes := (if tz.value < 0 then -tz.value else tz.value) / 60;
    [if tz.value < 0 then '-' as int else '+' as int] + Two(minutes / 60) + [':' as int] + Two(minutes % 60)
  }

  lemma PadDigits(n: int)
    ensures 0 <= n < 100 ==> Pow10(2) == 100 && Pad(n, 2) == Two(n)
    ensures 0 <= n < 1000 ==> Pow10(3) == 1000 && Pad(n, 3) == Three(n)
  {
    Widths();
    if 0 <= n < 1000 {
      assert Pad(n, 3) == Pad(n / 10, 2) + [48 + n % 10];
      assert Pad(n / 10, 2) == Pad(n / 10 / 10, 1) + [48 + n / 10 % 10];
    }
  }

  /** Text is written in exactly these characters, with T or a space between date and time. */
  lemma FormatLiteral(p: Parts, tz: Option<int>)
    requires Printable(p) && (tz.Some? ==> OffsetPrintable(tz.value))
    ensures Format(p, tz, DateOnly) == DateLiteral(p) && Format(p, tz, TimeOnly) == TimeLiteral(p) + ZoneLiteral(tz)
    ensures Format(p, tz, DateAndTime(true)) == DateLiteral(p) + ['T' as int] + TimeLiteral(p) + ZoneLiteral(tz)
    ensures Format(p, tz, DateAndTime(false)) == DateLiteral(p) + [' ' as int] + TimeLiteral(p) + ZoneLiteral(tz)
  {
    hide Pad, Pow10, YearText, YearLiteral;
    Widths();
    PadDigits(p.month);
    PadDigits(p.day);
    PadDigits(p.hour);
    PadDigits(p.minute);
    PadDigits(p.second);
    PadDigits(p.msec);
    YearWritten(p.year);
    if tz.Some? {
      PadDigits(OffsetMinutes(tz.value) / 60);
      PadDigits(OffsetMinutes(tz.value) % 60);
    }
  }

  lemma YearWritten(year: int)
    requires -999999 <= year <= 999999
    ensures YearText(year) == YearLiteral(year)
  {
    hide Pad, Pow10;
    Widths();
    PadTwo(if 0 <= year <= 9999 then year else 0);
    PadThree(if year < 0 then -year else year);
  }

  lemma PadTwo(n: int)
    requires 0 <= n < 10000
    ensures Pow10(4) == 10000 && Pad(n, 4) == Two(n / 100) + Two(n % 100)
  {
    hide Pad;
    Widths();
    Quotients(n);
    PadStep(n, 4);
    PadStep(n / 10, 3);
    PadDigits(n / 100);
    assert Pad(n, 4) == Two(n / 100) + [48 + n / 10 % 10] + [48 + n % 10];
  }

  lemma PadThree(n: int)
    requires 0 <= n < 1000000
    ensures Pow10(6) == 1000000 && Pad(n, 6) == Three(n / 1000) + Three(n % 1000)
  {
    hide Pad;
    Widths();
    assert Pow10(5) == 10 * Pow10(4);
    Quotients(n);
    PadStep(n, 6);
    PadStep(n / 10, 5);
    PadStep(n / 100, 4);
    PadDigits(n / 1000);
    assert Pad(n, 6) == Three(n / 1000) + [48 + n / 100 % 10] + [48 + n / 10 % 10] + [48 + n % 10];
  }

  lemma PadStep(n: int, width: nat)
    requires width > 1 && 0 <= n < Pow10(width)
    ensures n / 10 < Pow10(width - 1) && Pad(n, width) == Pad(n / 10, width - 1) + [48 + n % 10]
  {
  }

  lemma Quotients(n: int)
    requires 0 <= n < 1000000
    ensures n / 10 / 10 == n / 100 && n / 100 / 10 == n / 1000 && n / 10 < 100000 && n / 100 < 10000
    ensures n % 100 / 10 == n / 10 % 10 && n % 100 % 10 == n % 10
    ensures n % 1000 / 100 == n / 100 % 10 && n % 1000 / 10 % 10 == n / 10 % 10 && n % 1000 % 10 == n % 10
  {
  }
}
