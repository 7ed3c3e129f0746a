/** Date strings: the table-driven ISO 8601 subset parser and the formatter it has to read back. */
module Iso8601 {
  import opened Bytes
  import opened Calendar
  import opened TimeValue

  const ASC_NUL: byte := 0x00
  const ASC_SPACE: byte := 0x20
  const ASC_PLUS: byte := 0x2b
  const ASC_MINUS: byte := 0x2d
  const ASC_PERIOD: byte := 0x2e
  const ASC_0: byte := 0x30
  const ASC_9: byte := 0x39
  const ASC_COLON: byte := 0x3a
  const ASC_UC_T: byte := 0x54
  const ASC_UC_Z: byte := 0x5a

  // ----- the packed control table -----

  const NUM_ISO_PARTS := 9
  const TZHOUR := 7
  const TZMINUTE := 8

  const SEPS: seq<byte> := [ASC_PLUS, ASC_MINUS, ASC_UC_T, ASC_SPACE, ASC_COLON, ASC_PERIOD, ASC_UC_Z, ASC_NUL]
  const NUM_SEPS := 8
  const NUM_RULES := 11

  const CF_NEG: bv32 := 1
  const CF_ACCEPT: bv32 := 2
  const CF_ACCEPT_NUL: bv32 := 4

  /** `1 << i`. */
  function Bit(i: nat): bv32
    requires i < 9
  {
    match i
    case 0 => 1
    case 1 => 2
    case 2 => 4
    case 3 => 8
    case 4 => 16
    case 5 => 32
    case 6 => 64
    case 7 => 128
    case 8 => 256
  }

  function PackRule(partMask: bv32, sepMask: bv32, nextPart: bv32, flags: bv32): bv32 {
    partMask + (sepMask << 9) + (nextPart << 17) + (flags << 21)
  }

  const PM_DATE: bv32 := 0x07
  const PM_MAIN: bv32 := 0x7f
  const PM_ALL: bv32 := 0x1ff

  /** The first matching rule says what to do after a part and a separator. */
  function Control(i: nat): bv32
    requires i < NUM_RULES
  {
    match i
    case 0 => PackRule(0x001, 0x02, 1, 0)
    case 1 => PackRule(0x002, 0x02, 2, 0)
    case 2 => PackRule(PM_DATE, 0x04 | 0x08, 3, 0)
    case 3 => PackRule(0x008, 0x10, 4, 0)
    case 4 => PackRule(0x010, 0x10, 5, 0)
    case 5 => PackRule(0x020, 0x20, 6, 0)
    case 6 => PackRule(0x080, 0x10, 8, 0)
    case 7 => PackRule(PM_MAIN, 0x01, 7, 0)
    case 8 => PackRule(PM_MAIN, 0x02, 7, CF_NEG)
    case 9 => PackRule(PM_MAIN, 0x40, 0, CF_ACCEPT_NUL)
    case 10 => PackRule(PM_ALL, 0x80, 0, CF_ACCEPT)
  }

  function MatchVal(part: nat, sep: nat): bv32
    requires part < NUM_ISO_PARTS && sep < NUM_SEPS
  {
    Bit(part) + (Bit(sep) << 9)
  }

  predicate Matches(i: nat, part: nat, sep: nat)
    requires i < NUM_RULES && part < NUM_ISO_PARTS && sep < NUM_SEPS
  {
    Control(i) & MatchVal(part, sep) == MatchVal(part, sep)
  }

  // ----- the grammar the table encodes -----

  datatype Action = NoRule | Next(part: nat, neg: bool) | AcceptBeforeNul | AcceptNow

  /** What may follow a completed part. */
  function Grammar(part: nat, ch: byte): Action {
    if ch == ASC_NUL then AcceptNow
    else if part == TZHOUR then (if ch == ASC_COLON then Next(TZMINUTE, false) else NoRule)
    else if part == TZMINUTE then NoRule
    else if ch == ASC_UC_Z then AcceptBeforeNul
    else if ch == ASC_PLUS then Next(TZHOUR, false)
    else if ch == ASC_MINUS then (if part < DAY then Next(part + 1, false) else Next(TZHOUR, true))
    else if part <= DAY && (ch == ASC_UC_T || ch == ASC_SPACE) then Next(HOUR, false)
    else if (part == HOUR || part == MINUTE) && ch == ASC_COLON then Next(part + 1, false)
    else if part == SECOND && ch == ASC_PERIOD then Next(MILLISECOND, false)
    else NoRule
  }

  /** The parts and separators of each rule, spelled out. */
  predicate Applies(i: nat, part: nat, ch: byte) {
    match i
    case 0 => part == YEAR && ch == ASC_MINUS
    case 1 => part == MONTH && ch == ASC_MINUS
    case 2 => part <= DAY && (ch == ASC_UC_T || ch == ASC_SPACE)
    case 3 => part == HOUR && ch == ASC_COLON
    case 4 => part == MINUTE && ch == ASC_COLON
    case 5 => part == SECOND && ch == ASC_PERIOD
    case 6 => part == TZHOUR && ch == ASC_COLON
    case 7 => part <= MILLISECOND && ch == ASC_PLUS
    case 8 => part <= MILLISECOND && ch == ASC_MINUS
    case 9 => part <= MILLISECOND && ch == ASC_UC_Z
    case _ => ch == ASC_NUL
  }

  lemma RuleApplies(i: nat, part: nat, sep: nat)
    requires i < NUM_RULES && part < NUM_ISO_PARTS && sep < NUM_SEPS
    ensures Matches(i, part, sep) <==> Applies(i, part, SEPS[sep])
  {
    match i {
      case 0 => case 1 => case 2 => case 3 => case 4 => case 5 =>
      case 6 => case 7 => case 8 => case 9 => case 10 =>
    }
  }

  function NextPart(rule: bv32): nat { ((rule >> 17) & 0x0f) as nat }

  function Flags(rule: bv32): bv32 { rule >> 21 }

  /** What a matching rule makes the parser do. */
  function RuleAction(rule: bv32): Action {
    if Flags(rule) & CF_ACCEPT != 0 then AcceptNow
    else if Flags(rule) & CF_ACCEPT_NUL != 0 then AcceptBeforeNul
    else Next(NextPart(rule), Flags(rule) & CF_NEG != 0)
  }

  lemma RuleActions(i: nat)
    requires i < NUM_RULES
    ensures RuleAction(Control(i)) == match i
      case 0 => Next(1, false) case 1 => Next(2, false) case 2 => Next(3, false) case 3 => Next(4, false)
      case 4 => Next(5, false) case 5 => Next(6, false) case 6 => Next(8, false) case 7 => Next(7, false)
      case 8 => Next(7, true) case 9 => AcceptBeforeNul case 10 => AcceptNow
  {
    match i {
      case 0 => case 1 => case 2 => case 3 => case 4 => case 5 =>
      case 6 => case 7 => case 8 => case 9 => case 10 =>
    }
  }

  /** The packed table is the grammar: the first rule that matches gives its action, and none matches
      exactly where the grammar has none. */
  lemma ControlIsGrammar(i: nat, part: nat, sep: nat)
    requires i <= NUM_RULES && part < NUM_ISO_PARTS && sep < NUM_SEPS
    requires forall j :: 0 <= j < i ==> !Matches(j, part, sep)
    requires i < NUM_RULES ==> Matches(i, part, sep)
    ensures Grammar(part, SEPS[sep]) == if i < NUM_RULES then RuleAction(Control(i)) else NoRule
  {
    hide Matches, RuleAction, Control;
    forall j | 0 <= j < NUM_RULES ensures Matches(j, part, sep) <==> Applies(j, part, SEPS[sep]) {
      RuleApplies(j, part, sep);
    }
    if i < NUM_RULES { RuleActions(i); }
    FirstRule(i, part, SEPS[sep]);
  }

  lemma FirstRule(i: nat, part: nat, ch: byte)
    requires i <= NUM_RULES && part < NUM_ISO_PARTS && ch in SEPS
    requires forall j :: 0 <= j < i ==> !Applies(j, part, ch)
    requires i < NUM_RULES ==> Applies(i, part, ch)
    ensures Grammar(part, ch) == match i
      case 0 => Next(1, false) case 1 => Next(2, false) case 2 => Next(3, false) case 3 => Next(4, false)
      case 4 => Next(5, false) case 5 => Next(6, false) case 6 => Next(8, false) case 7 => Next(7, false)
      case 8 => Next(7, true) case 9 => AcceptBeforeNul case 10 => AcceptNow case _ => NoRule
  {
    assert i > 0 ==> !Applies(0, part, ch);
    assert i > 1 ==> !Applies(1, part, ch);
    assert i > 2 ==> !Applies(2, part, ch);
    assert i > 3 ==> !Applies(3, part, ch);
    assert i > 4 ==> !Applies(4, part, ch);
    assert i > 5 ==> !Applies(5, part, ch);
    assert i > 6 ==> !Applies(6, part, ch);
    assert i > 7 ==> !Applies(7, part, ch);
    assert i > 8 ==> !Applies(8, part, ch);
    assert i > 9 ==> !Applies(9, part, ch);
    assert i > 10 ==> !Applies(10, part, ch);
  }

  // ----- parsing -----

  function IsDigit(ch: byte): bool { ASC_0 <= ch <= ASC_9 }

  datatype Verdict = Reject | Accept(parts: seq<int>, negTz: bool)

  /** A part being read: its index, value and digit count, the parts before it, and the offset's sign. */
  datatype State = State(part: nat, accum: int, ndigits: nat, parts: seq<int>, negTz: bool)

  predicate StateValid(st: State) { st.part < NUM_ISO_PARTS && |st.parts| == NUM_ISO_PARTS }

  /** Digits after the third of the milliseconds are skipped. */
  function TakeDigit(st: State, digit: int): State {
    if st.part == MILLISECOND && st.ndigits >= 3 then st
    else st.(accum := st.accum * 10 + digit, ndigits := st.ndigits + 1)
  }

  function Pow10(n: nat): (p: nat)
    ensures p > 0
  {
    if n == 0 then 1 else 10 * Pow10(n - 1)
  }

  /** Milliseconds written with fewer than three digits are a fraction. */
  function Completed(st: State): int {
    if st.part == MILLISECOND && st.ndigits < 3 then st.accum * Pow10(3 - st.ndigits) else st.accum
  }

  /** The text from a part on, up to and including its NUL. */
  function Scan(s: bytes, st: State): (v: Verdict)
    requires StateValid(st)
    ensures v.Accept? ==> |v.parts| == NUM_ISO_PARTS
    decreases |s|
  {
    if s == [] then Reject
    else if IsDigit(s[0]) then
      if st.ndigits >= 9 then Reject else Scan(s[1..], TakeDigit(st, s[0] as int - ASC_0 as int))
    else if st.ndigits == 0 then Reject
    else
      var parts := st.parts[st.part := Completed(st)];
      match Grammar(st.part, s[0])
      case NoRule => Reject
      case Next(part, neg) => Scan(s[1..], State(part, 0, 0, parts, st.negTz || neg))
      case AcceptBeforeNul => if |s| > 1 && s[1] == ASC_NUL then Accept(parts, st.negTz) else Reject
      case AcceptNow => Accept(parts, st.negTz)
  }

  const DEFAULT_PARTS: seq<int> := [0, 1, 1, 0, 0, 0, 0, 0, 0]

  function Start(): State { State(YEAR, 0, 0, DEFAULT_PARTS, false) }

  function Signed(s: bytes): bool { s != [] && (s[0] == ASC_PLUS || s[0] == ASC_MINUS) }

  function Parse(s: bytes): (v: Verdict)
    ensures v.Accept? ==> |v.parts| == NUM_ISO_PARTS
  {
    Scan(if Signed(s) then s[1..] else s, Start())
  }

  /** The UTC parts an accepted string stands for, still un-normalized. */
  function Meaning(parts: seq<int>, negYear: bool, negTz: bool): Parts
    requires |parts| == NUM_ISO_PARTS
  {
    var sign := if negTz then 1 else -1;
    Parts(if negYear then -parts[YEAR] else parts[YEAR], parts[MONTH] - 1, parts[DAY] - 1,
          parts[HOUR] + sign * parts[TZHOUR], parts[MINUTE] + sign * parts[TZMINUTE],
          parts[SECOND], parts[MILLISECOND], parts[TZHOUR])
  }

  method FindSep(ch: byte) returns (i: nat)
    ensures i <= NUM_SEPS
    ensures i < NUM_SEPS ==> SEPS[i] == ch
    ensures i == NUM_SEPS ==> ch !in SEPS
  {
    i := 0;
    while i < NUM_SEPS
      invariant i <= NUM_SEPS && forall j :: 0 <= j < i ==> SEPS[j] != ch
    {
      if SEPS[i] == ch {
        return;
      }
      i := i + 1;
    }
  }

  method FindRule(part: nat, sep: nat) returns (i: nat)
    requires part < NUM_ISO_PARTS && sep < NUM_SEPS
    ensures i <= NUM_RULES
    ensures Grammar(part, SEPS[sep]) == if i < NUM_RULES then RuleAction(Control(i)) else NoRule
  {
    hide Grammar, Matches, RuleAction, Control;
    i := 0;
    while i < NUM_RULES
      invariant i <= NUM_RULES && forall j :: 0 <= j < i ==> !Matches(j, part, sep)
    {
      if RuleMatches(Control(i), part, sep) {
        assert Matches(i, part, sep) by { MatchesDefined(i, part, sep); }
        break;
      }
      MatchesDefined(i, part, sep);
      i := i + 1;
    }
    ControlIsGrammar(i, part, sep);
  }

  function RuleMatches(rule: bv32, part: nat, sep: nat): bool
    requires part < NUM_ISO_PARTS && sep < NUM_SEPS
  {
    rule & MatchVal(part, sep) == MatchVal(part, sep)
  }

  lemma MatchesDefined(i: nat, part: nat, sep: nat)
    requires i < NUM_RULES && part < NUM_ISO_PARTS && sep < NUM_SEPS
    ensures Matches(i, part, sep) == RuleMatches(Control(i), part, sep)
  {
  }

  method CompleteMilliseconds(accum: int, ndigits: nat) returns (r: int)
    ensures r == Completed(State(MILLISECOND, accum, ndigits, [], false))
  {
    var n := ndigits;
    r := accum;
    while n < 3
      invariant n <= ndigits || n <= 3
      invariant n < 3 ==> r * Pow10(3 - n) == accum * Pow10(3 - ndigits)
      invariant n >= 3 ==> r == Completed(State(MILLISECOND, accum, ndigits, [], false))
    {
      assert Pow10(3 - n) == 10 * Pow10(2 - n);
      r := r * 10;
      n := n + 1;
    }
  }

  /** Look the separator up, then the first rule for the part and it. */
  method NextAction(part: nat, ch: byte) returns (a: Action)
    requires part < NUM_ISO_PARTS
    ensures a == Grammar(part, ch)
  {
    hide Control, Matches;
    var sep := FindSep(ch);
    if sep == NUM_SEPS {
      OnlySeparators(part, ch);
      return NoRule;
    }
    var i := FindRule(part, sep);
    if i == NUM_RULES {
      return NoRule;
    }
    var rule := Control(i);
    var nextPart, flags := NextPart(rule), Flags(rule);
    if flags & CF_ACCEPT != 0 {
      return AcceptNow;
    }
    if flags & CF_ACCEPT_NUL != 0 {
      return AcceptBeforeNul;
    }
    a := Next(nextPart, flags & CF_NEG != 0);
  }

  lemma OnlySeparators(part: nat, ch: byte)
    requires ch !in SEPS
    ensures Grammar(part, ch) == NoRule
  {
    forall i | 0 <= i < NUM_SEPS ensures ch != SEPS[i] {
    }
  }

  lemma GrammarParts(part: nat, ch: byte)
    requires part < NUM_ISO_PARTS
    ensures Grammar(part, ch).Next? ==> Grammar(part, ch).part < NUM_ISO_PARTS && ch != ASC_NUL
    ensures Grammar(part, ch).AcceptBeforeNul? ==> ch != ASC_NUL
    ensures ch == ASC_NUL ==> Grammar(part, ch) == AcceptNow
  {
  }

  /** What follows once the part before `s` is complete. */
  function Follow(a: Action, s: bytes, parts: seq<int>, negTz: bool): Verdict
    requires |parts| == NUM_ISO_PARTS && (a.Next? ==> a.part < NUM_ISO_PARTS)
  {
    match a
    case NoRule => Reject
    case Next(part, neg) => Scan(s, State(part, 0, 0, parts, negTz || neg))
    case AcceptBeforeNul => if s != [] && s[0] == ASC_NUL then Accept(parts, negTz) else Reject
    case AcceptNow => Accept(parts, negTz)
  }

  /** One character of a scan. */
  lemma ScanStep(ch: byte, s: bytes, st: State)
    requires StateValid(st)
    ensures IsDigit(ch) && st.ndigits >= 9 ==> Scan([ch] + s, st) == Reject
    ensures IsDigit(ch) && st.ndigits < 9 ==> Scan([ch] + s, st) == Scan(s, TakeDigit(st, ch as int - ASC_0 as int))
    ensures !IsDigit(ch) && st.ndigits == 0 ==> Scan([ch] + s, st) == Reject
    ensures Grammar(st.part, ch).Next? ==> Grammar(st.part, ch).part < NUM_ISO_PARTS
    ensures !IsDigit(ch) && st.ndigits > 0 ==>
      Scan([ch] + s, st) == Follow(Grammar(st.part, ch), s, st.parts[st.part := Completed(st)], st.negTz)
  {
    hide TakeDigit, Completed;
    assert ([ch] + s)[0] == ch && ([ch] + s)[1..] == s;
  }

  /** The character loop, from `start` on; it stops at the first NUL at the latest. */
  method ParseParts(str: bytes, start: nat, parts: array<int>, ghost end: nat) returns (ok: bool, negTz: bool)
    requires start <= end < |str| && str[end] == ASC_NUL && forall i :: start <= i < end ==> str[i] != ASC_NUL
    requires parts.Length == NUM_ISO_PARTS && parts[..] == DEFAULT_PARTS
    modifies parts
    ensures Scan(str[start..], Start()) == if ok then Accept(parts[..], negTz) else Reject
  {
    hide Scan, Grammar;
    var p, part, accum, ndigits := start, YEAR, 0, 0;
    ok, negTz := false, false;
    while true
      invariant start <= p <= end && 0 <= part < NUM_ISO_PARTS && ndigits >= 0 && !ok
      invariant Scan(str[start..], Start()) == Scan(str[p..], State(part, accum, ndigits, parts[..], negTz))
      decreases end - p
    {
      var ch := str[p];
      ghost var st := State(part, accum, ndigits, parts[..], negTz);
      assert str[p..] == [ch] + str[p + 1..];
      ScanStep(ch, str[p + 1..], st);
      GrammarParts(part, ch);
      p := p + 1;
      if ASC_0 <= ch && ch <= ASC_9 {
        if ndigits >= 9 {
          return;
        }
        if part == MILLISECOND && ndigits >= 3 {
        } else {
          accum := accum * 10 + (ch as int - ASC_0 as int);
          ndigits := ndigits + 1;
        }
      } else {
        if ndigits <= 0 {
          return;
        }
        if part == MILLISECOND {
          accum := CompleteMilliseconds(accum, ndigits);
        }
        parts[part] := accum;
        assert parts[..] == st.parts[part := Completed(st)];
        accum, ndigits := 0, 0;
        var action := NextAction(part, ch);
        match action {
          case NoRule => return;
          case AcceptNow => return true, negTz;
          case AcceptBeforeNul => return str[p] == ASC_NUL, negTz;
          case Next(nextPart, neg) =>
            if neg {
              negTz := true;
            }
            part := nextPart;
        }
      }
    }
  }

  datatype Parsed = Rejected | Value(d: Option<int>)

  /** What a date string is read as; the value is None for a date out of range. */
  ghost function Reading(s: bytes): Parsed {
    match Parse(s)
    case Reject => Rejected
    case Accept(parts, negTz) =>
      Value(TimeClip(TimeFrom(Meaning(parts, s != [] && s[0] == ASC_MINUS, negTz))))
  }

  /** duk__parse_string_iso8601_subset().  The string is NUL terminated and not read past its NUL. */
  method ParseIso8601(str: bytes, ghost end: nat) returns (r: Parsed)
    requires end < |str| && str[end] == ASC_NUL && forall i :: 0 <= i < end ==> str[i] != ASC_NUL
    ensures r == Reading(str)
  {
    hide Scan, TimeFrom, Meaning;
    var parts := new int[NUM_ISO_PARTS](i => if i == MONTH || i == DAY then 1 else 0);
    assert parts[..] == DEFAULT_PARTS;
    var p := 0;
    var negYear := false;
    var ch := str[0];
    if ch == ASC_PLUS {
      p := p + 1;
    } else if ch == ASC_MINUS {
      negYear := true;
      p := p + 1;
    }
    assert str[0..] == str;
    var ok, negTz := ParseParts(str, p, parts, end);
    if !ok {
      return Rejected;
    }
    ghost var scanned := parts[..];
    ToUtcParts(parts, negYear, negTz);
    var dparts := new int[NUM_PARTS](i => 0);
    FirstParts(parts, dparts);
    assert View(dparts[..]) == Meaning(scanned, negYear, negTz);
    var d := TimevalFromDparts(dparts, false, t => 0);
    r := Value(d);
  }

  /** Apply the signs and the offset, and count month and day from zero. */
  method ToUtcParts(parts: array<int>, negYear: bool, negTz: bool)
    requires parts.Length == NUM_ISO_PARTS
    modifies parts
    ensures View(parts[..NUM_PARTS]) == Meaning(old(parts[..]), negYear, negTz)
  {
    if negYear {
      parts[YEAR] := -parts[YEAR];
    }
    if negTz {
      parts[HOUR] := parts[HOUR] + parts[TZHOUR];
      parts[MINUTE] := parts[MINUTE] + parts[TZMINUTE];
    } else {
      parts[HOUR] := parts[HOUR] - parts[TZHOUR];
      parts[MINUTE] := parts[MINUTE] - parts[TZMINUTE];
    }
    parts[MONTH] := parts[MONTH] - 1;
    parts[DAY] := parts[DAY] - 1;
  }

  method FirstParts(parts: array<int>, dparts: array<int>)
    requires parts.Length == NUM_ISO_PARTS && dparts.Length == NUM_PARTS && dparts != parts
    modifies dparts
    ensures dparts[..] == parts[..NUM_PARTS]
  {
    var i := 0;
    while i < NUM_PARTS
      invariant 0 <= i <= NUM_PARTS && dparts[..i] == parts[..i]
    {
      dparts[i] := parts[i];
      i := i + 1;
    }
  }

  // ----- formatting -----

  /** `n` in `width` decimal digits, zero padded. */
  function Pad(n: nat, width: nat): (s: bytes)
    requires n < Pow10(width)
    ensures |s| == width
  {
    if width == 0 then [] else Pad(n / 10, width - 1) + [ASC_0 + n % 10]
  }

  lemma Widths()
    ensures Pow10(2) == 100 && Pow10(3) == 1000 && Pow10(4) == 10000 && Pow10(6) == 1000000
  {
    assert Pow10(2) == 10 * (10 * Pow10(0));
    assert Pow10(4) == 10 * Pow10(3) && Pow10(6) == 10 * (10 * Pow10(4));
  }

  /** Parts as formatters get them: month and day counted from one. */
  predicate Printable(p: Parts) {
    -999999 <= p.year <= 999999 && Civil(p.(month := p.month - 1, day := p.day - 1))
  }

  function YearText(year: int): bytes
    requires -999999 <= year <= 999999
  {
    Widths();
    if 0 <= year <= 9999 then Pad(year, 4)
    else if year >= 0 then [ASC_PLUS] + Pad(year, 6)
    else [ASC_MINUS] + Pad(-year, 6)
  }

  function DateText(p: Parts): bytes
    requires Printable(p)
  {
    Widths();
    YearText(p.year) + [ASC_MINUS] + Pad(p.month, 2) + [ASC_MINUS] + Pad(p.day, 2)
  }

  function TimeText(p: Parts): bytes
    requires Printable(p)
  {
    Widths();
    Pad(p.hour, 2) + [ASC_COLON] + Pad(p.minute, 2) + [ASC_COLON] + Pad(p.second, 2) + [ASC_PERIOD] + Pad(p.msec, 3)
  }

  /** An offset of less than a hundred hours fits the two digits of the format. */
  predicate OffsetPrintable(tzoffset: int) { -360000 < tzoffset < 360000 }

  function OffsetMinutes(tzoffset: int): nat {
    if tzoffset >= 0 then tzoffset / 60 else -tzoffset / 60
  }

  /** None: UTC. */
  function ZoneText(tz: Option<int>): bytes
    requires tz.Some? ==> OffsetPrintable(tz.value)
  {
    Widths();
    match tz
    case None => [ASC_UC_Z]
    case Some(t) =>
      [if t >= 0 then ASC_PLUS else ASC_MINUS] + Pad(OffsetMinutes(t) / 60, 2) + [ASC_COLON] + Pad(OffsetMinutes(t) % 60, 2)
  }

  datatype Form = DateAndTime(sepT: bool) | DateOnly | TimeOnly

  /** duk__format_parts_iso8601(), without the NUL. */
  function Format(p: Parts, tz: Option<int>, form: Form): bytes
    requires Printable(p) && (tz.Some? ==> OffsetPrintable(tz.value))
  {
    match form
    case DateAndTime(sepT) => DateText(p) + [if sepT then ASC_UC_T else ASC_SPACE] + TimeText(p) + ZoneText(tz)
    case DateOnly => DateText(p)
    case TimeOnly => TimeText(p) + ZoneText(tz)
  }

  // ----- reading formatted text back -----

  lemma {:induction false} DigitsRead(n: nat, width: nat, s: bytes, st: State)
    requires StateValid(st) && n < Pow10(width)
    requires st.ndigits + width <= (if st.part == MILLISECOND then 3 else 9)
    ensures Scan(Pad(n, width) + s, st) ==
      Scan(s, st.(accum := st.accum * Pow10(width) + n, ndigits := st.ndigits + width))
    decreases width
  {
    hide Scan;
    if width == 0 {
      assert Pad(n, width) + s == s;
    } else {
      var d := ASC_0 + n % 10;
      var mid := st.(accum := st.accum * Pow10(width - 1) + n / 10, ndigits := st.ndigits + width - 1);
      assert Pad(n, width) + s == Pad(n / 10, width - 1) + ([d] + s);
      DigitsRead(n / 10, width - 1, [d] + s, st);
      ScanStep(d, s, mid);
      assert mid.accum * 10 + n % 10 == st.accum * Pow10(width) + n by { TenTimes(st.accum, Pow10(width - 1), n); }
    }
  }

  lemma TenTimes(a: int, p: int, n: nat)
    ensures (a * p + n / 10) * 10 + n % 10 == a * (10 * p) + n
  {
  }

  /** A number and the separator after it. */
  lemma FieldReads(n: nat, width: nat, sep: byte, s: bytes, part: nat, parts: seq<int>, negTz: bool)
    requires part < NUM_ISO_PARTS && |parts| == NUM_ISO_PARTS && n < Pow10(width) && !IsDigit(sep)
    requires if part == MILLISECOND then width == 3 else 1 <= width <= 9
    ensures Grammar(part, sep).Next? ==> Grammar(part, sep).part < NUM_ISO_PARTS
    ensures Scan(Pad(n, width) + ([sep] + s), State(part, 0, 0, parts, negTz)) ==
      Follow(Grammar(part, sep), s, parts[part := n], negTz)
  {
    hide Scan, Grammar, Follow, Pad;
    var st := State(part, 0, 0, parts, negTz);
    DigitsRead(n, width, [sep] + s, st);
    ScanStep(sep, s, st.(accum := st.accum * Pow10(width) + n, ndigits := width));
  }

  const NUL: bytes := [ASC_NUL]

  /** A number at the end of the string. */
  lemma LastFieldReads(n: nat, width: nat, part: nat, parts: seq<int>, negTz: bool)
    requires part < NUM_ISO_PARTS && |parts| == NUM_ISO_PARTS && n < Pow10(width)
    requires if part == MILLISECOND then width == 3 else 1 <= width <= 9
    ensures Scan(Pad(n, width) + NUL, State(part, 0, 0, parts, negTz)) == Accept(parts[part := n], negTz)
  {
    hide Scan, Pad;
    assert [ASC_NUL] + [] == NUL;
    FieldReads(n, width, ASC_NUL, [], part, parts, negTz);
  }

  function ZoneMinutes(tz: Option<int>): nat { if tz.Some? then OffsetMinutes(tz.value) else 0 }

  predicate ZoneWest(tz: Option<int>) { tz.Some? && tz.value < 0 }

  lemma ZoneWidth(tz: Option<int>)
    requires tz.Some? ==> OffsetPrintable(tz.value)
    ensures ZoneMinutes(tz) / 60 < 100 && ZoneMinutes(tz) % 60 < 100
  {
  }

  /** Milliseconds and zone. */
  lemma ZoneReads(ms: nat, tz: Option<int>, parts: seq<int>)
    requires (tz.Some? ==> OffsetPrintable(tz.value)) && |parts| == NUM_ISO_PARTS && ms < 1000
    requires parts[TZHOUR] == parts[TZMINUTE] == 0
    ensures ms < Pow10(3)
    ensures Scan(Pad(ms, 3) + (ZoneText(tz) + NUL), State(MILLISECOND, 0, 0, parts, false)) ==
      Accept(parts[MILLISECOND := ms][TZHOUR := ZoneMinutes(tz) / 60][TZMINUTE := ZoneMinutes(tz) % 60], ZoneWest(tz))
  {
    hide Scan, Pad, Pow10, OffsetMinutes;
    Widths();
    ZoneWidth(tz);
    var done := parts[MILLISECOND := ms];
    match tz {
      case None =>
        assert ZoneText(tz) + NUL == [ASC_UC_Z] + NUL;
        FieldReads(ms, 3, ASC_UC_Z, NUL, MILLISECOND, parts, false);
        assert done == done[TZHOUR := 0][TZMINUTE := 0];
      case Some(t) =>
        var h, m, sign := OffsetMinutes(t) / 60, OffsetMinutes(t) % 60, if t >= 0 then ASC_PLUS else ASC_MINUS;
        var end := Pad(m, 2) + NUL;
        assert ZoneText(tz) + NUL == [sign] + (Pad(h, 2) + ([ASC_COLON] + end));
        FieldReads(ms, 3, sign, Pad(h, 2) + ([ASC_COLON] + end), MILLISECOND, parts, false);
        FieldReads(h, 2, ASC_COLON, end, TZHOUR, done, t < 0);
        LastFieldReads(m, 2, TZMINUTE, done[TZHOUR := h], t < 0);
    }
  }

  lemma TimeReads(p: Parts, tz: Option<int>, parts: seq<int>)
    requires Printable(p) && (tz.Some? ==> OffsetPrintable(tz.value)) && |parts| == NUM_ISO_PARTS
    requires parts[TZHOUR] == parts[TZMINUTE] == 0
    ensures Scan(TimeText(p) + (ZoneText(tz) + NUL), State(HOUR, 0, 0, parts, false)) ==
      Accept([parts[YEAR], parts[MONTH], parts[DAY], p.hour, p.minute, p.second, p.msec,
              ZoneMinutes(tz) / 60, ZoneMinutes(tz) % 60], ZoneWest(tz))
  {
    hide Scan, Pad, Pow10, ZoneText, ZoneMinutes;
    Widths();
    var s3 := Pad(p.msec, 3) + (ZoneText(tz) + NUL);
    var s2 := Pad(p.second, 2) + ([ASC_PERIOD] + s3);
    var s1 := Pad(p.minute, 2) + ([ASC_COLON] + s2);
    assert TimeText(p) + (ZoneText(tz) + NUL) == Pad(p.hour, 2) + ([ASC_COLON] + s1);
    FieldReads(p.hour, 2, ASC_COLON, s1, HOUR, parts, false);
    FieldReads(p.minute, 2, ASC_COLON, s2, MINUTE, parts[HOUR := p.hour], false);
    FieldReads(p.second, 2, ASC_PERIOD, s3, SECOND, parts[HOUR := p.hour][MINUTE := p.minute], false);
    ZoneReads(p.msec, tz, parts[HOUR := p.hour][MINUTE := p.minute][SECOND := p.second]);
  }

  function Abs(n: int): nat { if n < 0 then -n else n }

  /** A date followed by `ch` and more. */
  lemma DateReads(p: Parts, ch: byte, s: bytes)
    requires Printable(p) && !IsDigit(ch)
    ensures Grammar(DAY, ch).Next? ==> Grammar(DAY, ch).part < NUM_ISO_PARTS
    ensures Parse(DateText(p) + ([ch] + s)) == Follow(Grammar(DAY, ch), s, [Abs(p.year), p.month, p.day, 0, 0, 0, 0, 0, 0], false)
    ensures DateText(p) != [] && (DateText(p)[0] == ASC_MINUS <==> p.year < 0)
  {
    hide Scan, Pad, Pow10, Follow, Grammar;
    Widths();
    GrammarParts(DAY, ch);
    assert Grammar(YEAR, ASC_MINUS) == Next(MONTH, false) && Grammar(MONTH, ASC_MINUS) == Next(DAY, false) by { DateSeparators(); }
    var s2 := Pad(p.day, 2) + ([ch] + s);
    var s1 := Pad(p.month, 2) + ([ASC_MINUS] + s2);
    var width := if 0 <= p.year <= 9999 then 4 else 6;
    var y := Abs(p.year);
    assert y < Pow10(width);
    YearReads(p.year, width, [ASC_MINUS] + s1);
    assert DateText(p) + ([ch] + s) == YearText(p.year) + ([ASC_MINUS] + s1);
    FieldReads(y, width, ASC_MINUS, s1, YEAR, DEFAULT_PARTS, false);
    FollowNext(MONTH, s1, DEFAULT_PARTS[YEAR := y]);
    FieldReads(p.month, 2, ASC_MINUS, s2, MONTH, DEFAULT_PARTS[YEAR := y], false);
    FollowNext(DAY, s2, DEFAULT_PARTS[YEAR := y][MONTH := p.month]);
    FieldReads(p.day, 2, ch, s, DAY, DEFAULT_PARTS[YEAR := y][MONTH := p.month], false);
    assert DEFAULT_PARTS[YEAR := y][MONTH := p.month][DAY := p.day] == [y, p.month, p.day, 0, 0, 0, 0, 0, 0];
  }

  lemma DateSeparators()
    ensures Grammar(YEAR, ASC_MINUS) == Next(MONTH, false) && Grammar(MONTH, ASC_MINUS) == Next(DAY, false)
  {
  }

  lemma FollowNext(part: nat, s: bytes, parts: seq<int>)
    requires part < NUM_ISO_PARTS && |parts| == NUM_ISO_PARTS
    ensures Follow(Next(part, false), s, parts, false) == Scan(s, State(part, 0, 0, parts, false))
  {
  }

  /** The sign of a year is read apart from its digits. */
  lemma YearReads(year: int, width: nat, s: bytes)
    requires -999999 <= year <= 999999 && width == (if 0 <= year <= 9999 then 4 else 6)
    ensures Abs(year) < Pow10(width)
    ensures Parse(YearText(year) + s) == Scan(Pad(Abs(year), width) + s, Start())
    ensures YearText(year)[0] == ASC_MINUS <==> year < 0
  {
    hide Scan, Pow10;
    Widths();
    var digits := Pad(Abs(year), width);
    FirstDigit(Abs(year), width);
    if 0 <= year <= 9999 {
      assert (digits + s)[0] == digits[0];
    } else {
      assert (YearText(year) + s)[1..] == digits + s;
    }
  }

  lemma {:induction false} FirstDigit(n: nat, width: nat)
    requires n < Pow10(width) && width > 0
    ensures IsDigit(Pad(n, width)[0])
  {
    if width > 1 { FirstDigit(n / 10, width - 1); }
  }

  /** Parts counted from zero. */
  function ZeroBased(p: Parts): Parts { p.(month := p.month - 1, day := p.day - 1) }

  /** Minutes east of UTC that are printed, seconds dropped. */
  function PrintedMinutes(tz: Option<int>): int { if ZoneWest(tz) then 0 - ZoneMinutes(tz) else ZoneMinutes(tz) }

  lemma DateAndTimeReads(p: Parts, tz: Option<int>, sepT: bool)
    requires Printable(p) && (tz.Some? ==> OffsetPrintable(tz.value))
    ensures Parse(Format(p, tz, DateAndTime(sepT)) + NUL) ==
      Accept([Abs(p.year), p.month, p.day, p.hour, p.minute, p.second, p.msec,
              ZoneMinutes(tz) / 60, ZoneMinutes(tz) % 60], ZoneWest(tz))
    ensures Format(p, tz, DateAndTime(sepT)) != [] && (Format(p, tz, DateAndTime(sepT))[0] == ASC_MINUS <==> p.year < 0)
  {
    hide Scan, Pad, Pow10, DateText, TimeText, ZoneText, ZoneMinutes, Parse;
    var sep := if sepT then ASC_UC_T else ASC_SPACE;
    var s := TimeText(p) + (ZoneText(tz) + NUL);
    assert Format(p, tz, DateAndTime(sepT)) + NUL == DateText(p) + ([sep] + s);
    DateReads(p, sep, s);
    TimeReads(p, tz, [Abs(p.year), p.month, p.day, 0, 0, 0, 0, 0, 0]);
  }

  /** Reading formatted text gives the time value of the parts less the printed offset. */
  lemma FormatReads(p: Parts, tz: Option<int>, sepT: bool, d: int)
    requires Printable(p) && (tz.Some? ==> OffsetPrintable(tz.value))
    requires Denotes(ZeroBased(p), d) && InLeewayRange(d)
    ensures Reading(Format(p, tz, DateAndTime(sepT)) + NUL) == Value(TimeClip(Some(d - PrintedMinutes(tz) * MSEC_MINUTE)))
  {
    hide Parse, Format, Denotes, TimeFrom, ZoneMinutes;
    DateAndTimeReads(p, tz, sepT);
    JoinUndoesSplit(ZeroBased(p), d);
    var z := ZoneMinutes(tz);
    var sign: int := if ZoneWest(tz) then 1 else -1;
    var parts := [Abs(p.year), p.month, p.day, p.hour, p.minute, p.second, p.msec, z / 60, z % 60];
    OffsetInParts(ZeroBased(p), z, sign, z / 60);
    assert Meaning(parts, p.year < 0, ZoneWest(tz)) ==
      ZeroBased(p).(hour := p.hour + sign * (z / 60), minute := p.minute + sign * (z % 60), weekday := z / 60);
    assert sign * z == -PrintedMinutes(tz);
    var s := Format(p, tz, DateAndTime(sepT));
    assert (s + NUL)[0] == s[0];
  }

  lemma OffsetInParts(p: Parts, z: nat, sign: int, weekday: int)
    requires (sign == 1 || sign == -1) && TimeFrom(p).Some?
    ensures TimeFrom(p.(hour := p.hour + sign * (z / 60), minute := p.minute + sign * (z % 60), weekday := weekday)) ==
      Some(TimeFrom(p).value + sign * z * MSEC_MINUTE)
  {
    hide DayNumber;
    assert z == z / 60 * 60 + z % 60;
  }

  /** Date text without a time is read as midnight UTC. */
  lemma DateAloneReads(p: Parts, tz: Option<int>, d: int)
    requires Printable(p) && (tz.Some? ==> OffsetPrintable(tz.value))
    requires Denotes(ZeroBased(p), d) && InLeewayRange(d)
    ensures Reading(Format(p, tz, DateOnly) + NUL) == Value(TimeClip(Some(d - TimeInDay(p))))
  {
    hide Scan, Parse, DateText, Denotes, TimeFrom, TimeInDay, Printable;
    assert NUL == [ASC_NUL] + [];
    DateReads(p, ASC_NUL, []);
    JoinUndoesSplit(ZeroBased(p), d);
    Midnight(ZeroBased(p), 0);
    assert TimeInDay(ZeroBased(p)) == TimeInDay(p) by { SameTimeInDay(p); }
    var parts := [Abs(p.year), p.month, p.day, 0, 0, 0, 0, 0, 0];
    assert Meaning(parts, p.year < 0, false) == Parts(p.year, p.month - 1, p.day - 1, 0, 0, 0, 0, 0);
    assert (DateText(p) + NUL)[0] == DateText(p)[0];
  }

  lemma SameTimeInDay(p: Parts)
    ensures TimeInDay(ZeroBased(p)) == TimeInDay(p)
  {
  }

  lemma Midnight(p: Parts, weekday: int)
    requires TimeFrom(p).Some?
    ensures TimeFrom(Parts(p.year, p.month, p.day, 0, 0, 0, 0, weekday)) == Some(TimeFrom(p).value - TimeInDay(p))
  {
    hide DayNumber;
  }

  /** Time text without a date is not accepted. */
  lemma TimeAloneRejected(p: Parts, tz: Option<int>)
    requires Printable(p) && (tz.Some? ==> OffsetPrintable(tz.value))
    ensures Reading(Format(p, tz, TimeOnly) + NUL) == Rejected
  {
    hide Scan, ZoneText, Pow10, TimeFrom, Meaning;
    Widths();
    var more := Pad(p.minute, 2) + [ASC_COLON] + Pad(p.second, 2) + [ASC_PERIOD] + Pad(p.msec, 3) + ZoneText(tz) + NUL;
    var s := Format(p, tz, TimeOnly) + NUL;
    assert s == Pad(p.hour, 2) + ([ASC_COLON] + more);
    FirstDigit(p.hour, 2);
    assert s[0] == Pad(p.hour, 2)[0];
    FieldReads(p.hour, 2, ASC_COLON, more, YEAR, DEFAULT_PARTS, false);
  }

  /** The text of the time value `u`, shown `tz` seconds from UTC, reads back as `u` exactly when the
      offset is whole minutes; always for UTC. */
  lemma PrintedTimeReads(u: int, tz: Option<int>, sepT: bool, p: Parts)
    requires InValidRange(u) && (tz.Some? ==> -86400 <= tz.value <= 86400)
    requires Printable(p) && Denotes(ZeroBased(p), if tz.Some? then u + tz.value * 1000 else u)
    ensures Reading(Format(p, tz, DateAndTime(sepT)) + NUL) == Value(Some(u)) <==> (tz.None? || tz.value % 60 == 0)
  {
    hide Reading, Format, Denotes;
    FormatReads(p, tz, sepT, if tz.Some? then u + tz.value * 1000 else u);
  }

  /** `s` is the text of the one set of parts that denotes `d`. */
  ghost predicate Shows(s: bytes, d: int, tz: Option<int>, form: Form)
    requires tz.Some? ==> OffsetPrintable(tz.value)
  {
    exists p: Parts :: Printable(p) && Denotes(ZeroBased(p), d) && s == Format(p, tz, form)
  }

  /** duk__to_string_helper() without a locale: split, count from one, format. */
  method TimeToString(u: int, tz: Option<int>, form: Form, parts: array<int>) returns (s: bytes)
    requires InValidRange(u) && (tz.Some? ==> -86400 <= tz.value <= 86400) && parts.Length == NUM_PARTS
    modifies parts
    ensures Shows(s, if tz.Some? then u + tz.value * 1000 else u, tz, form)
    ensures form.DateAndTime? ==> (Reading(s + NUL) == Value(Some(u)) <==> (tz.None? || tz.value % 60 == 0))
  {
    hide Reading, Denotes, Format;
    var d := u;
    if tz.Some? {
      d := d + tz.value * 1000;
    }
    TimevalToParts(d, parts, null, false, true);
    ghost var year :| SplitFrom(View(parts[..]), year, d, false, true);
    ghost var p := View(parts[..]);
    assert Parts(year, p.month - 1, p.day - 1, p.hour, p.minute, p.second, p.msec, p.weekday) == ZeroBased(p);
    PartsPrintable(p, d);
    s := Format(View(parts[..]), tz, form);
    if form.DateAndTime? {
      PrintedTimeReads(u, tz, form.sepT, p);
    }
  }

  lemma PartsPrintable(p: Parts, d: int)
    requires Denotes(ZeroBased(p), d) && InLeewayRange(d)
    ensures Printable(p)
  {
    YearOfTimeValue(ZeroBased(p), d);
  }
}
