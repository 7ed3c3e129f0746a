/** The URI functions, escape and unescape in literal characters and numbers. */
module UriLiteral {
  import opened Bytes
  import opened Xutf8
  import opened UriCodec

  // ----- character classes -----

  predicate OneOf(cp: int, chars: string) { 0 <= cp < 0x80 && cp as char in chars }

  predicate Alphanumeric(cp: int) {
    'A' as int <= cp <= 'Z' as int || 'a' as int <= cp <= 'z' as int || '0' as int <= cp <= '9' as int
  }

  /** E5.1 section 15.1.3: what encodeURI and encodeURIComponent leave alone. */
  predicate Plain(component: bool, cp: int) {
    Alphanumeric(cp) || OneOf(cp, "-_.!~*'()") || (!component && OneOf(cp, ";/?:@&=+$,#"))
  }

  lemma UnescapedExact(component: bool, cp: int)
    requires 0 <= cp < 0x80
    ensures InTable(Unescaped(component), cp) <==> Plain(component, cp)
  {
    hide InTable, Plain;
    if component { ComponentUnescaped(cp); } else { UriUnescaped(cp); }
  }

  lemma ComponentUnescaped(cp: int)
    requires 0 <= cp < 0x80
    ensures InTable(URI_COMPONENT_UNESCAPED, cp) <==> Plain(true, cp)
  {
  }

  lemma UriUnescaped(cp: int)
    requires 0 <= cp < 0x80
    ensures InTable(URI_UNESCAPED, cp) <==> Plain(false, cp)
  {
  }

  /** What decodeURI does not decode; decodeURIComponent decodes everything. */
  lemma ReservedExact(component: bool, cp: int)
    requires 0 <= cp < 0x80
    ensures InTable(Reserved(component), cp) <==> !component && OneOf(cp, ";/?:@&=+$,#")
  {
  }

  /** E5.1 section B.2.1. */
  lemma EscapeExempt(cp: int)
    requires 0 <= cp < 0x80
    ensures InTable(ESCAPE_UNESCAPED, cp) <==> Alphanumeric(cp) || OneOf(cp, "@*_+-./")
  {
  }

  // ----- escapes -----

  /** `%` and two digits. */
  function Percent(b: byte): bytes { ['%' as int, Digit(b / 16), Digit(b % 16)] }

  function Digit(n: int): byte
    requires 0 <= n < 16
  {
    "0123456789ABCDEF"[n] as int
  }

  function Percents(s: bytes): bytes {
    if s == [] then [] else Percent(s[0]) + Percents(s[1..])
  }

  lemma DigitWritten(n: int)
    requires 0 <= n < 16
    ensures UC_NYBBLES[n] == Digit(n)
  {
  }

  /** Digits of either case are read. */
  lemma DigitRead(n: int, ch: byte)
    requires 0 <= n < 16
    ensures HexDigit(ch) == n <==> ch == "0123456789ABCDEF"[n] as int || ch == "0123456789abcdef"[n] as int
  {
  }

  lemma PctIsPercent(b: byte)
    ensures Pct(b) == Percent(b)
  {
    DigitWritten(b / 16);
    DigitWritten(b % 16);
  }

  lemma {:induction false} PctAllIsPercents(s: bytes)
    ensures PctAll(s) == Percents(s)
  {
    hide Pct, Percent;
    if s != [] {
      PctIsPercent(s[0]);
      PctAllIsPercents(s[1..]);
    }
  }

  /** UTF-8 of the codepoints of Unicode. */
  function Utf8(cp: int): bytes
    requires 0 <= cp <= 0x10ffff
  {
    if cp < 0x80 then [cp]
    else if cp < 0x800 then [0xc0 + cp / 0x40, 0x80 + cp % 0x40]
    else if cp < 0x10000 then [0xe0 + cp / 0x1000, 0x80 + cp / 0x40 % 0x40, 0x80 + cp % 0x40]
    else [0xf0 + cp / 0x40000, 0x80 + cp / 0x1000 % 0x40, 0x80 + cp / 0x40 % 0x40, 0x80 + cp % 0x40]
  }

  lemma EncodeIsUtf8(cp: int)
    requires 0 <= cp <= 0x10ffff
    ensures Encode(cp) == Utf8(cp)
  {
    hide Encode;
    EncodeInNumbers(cp);
    GroupsUnfolded(cp);
  }

  lemma GroupsUnfolded(cp: nat)
    ensures Groups(cp, 1) == [0x80 + cp % 0x40] && Groups(cp, 2) == [0x80 + cp / 0x40 % 0x40, 0x80 + cp % 0x40]
    ensures Groups(cp, 3) == [0x80 + cp / 0x1000 % 0x40, 0x80 + cp / 0x40 % 0x40, 0x80 + cp % 0x40]
  {
    assert cp / 0x40 / 0x40 == cp / 0x1000;
    assert Groups(cp, 1) == Groups(cp / 0x40, 0) + [0x80 + cp % 0x40];
    assert Groups(cp / 0x40, 1) == Groups(cp / 0x1000, 0) + [0x80 + cp / 0x40 % 0x40];
    assert Groups(cp / 0x40, 2) == Groups(cp / 0x1000, 1) + [0x80 + cp / 0x40 % 0x40];
  }

  // ----- encoding -----

  /** What encodeURI, or encodeURIComponent, makes of a string: None is a URIError. */
  function EncodeResult(component: bool, cps: seq<codepoint>): Option<bytes> {
    if cps == [] then Some([])
    else if cps[0] < 0x80 then
      Prepend(if Plain(component, cps[0]) then [cps[0]] else Percent(cps[0]), EncodeResult(component, cps[1..]))
    else if 0xd800 <= cps[0] <= 0xdbff then
      if |cps| > 1 && 0xdc00 <= cps[1] <= 0xdfff then
        var scalar := 0x10000 + 0x400 * (cps[0] - 0xd800) + (cps[1] - 0xdc00);
        Prepend(Percents(Utf8(scalar)), EncodeResult(component, cps[2..]))
      else None
    else if 0xdc00 <= cps[0] <= 0xdfff || cps[0] > 0x10ffff then None
    else Prepend(Percents(Utf8(cps[0])), EncodeResult(component, cps[1..]))
  }

  lemma EncodeUriLiteral(component: bool, cps: seq<codepoint>)
    ensures Transform(EncodeUri(component), EncodeAll(cps)) == EncodeResult(component, cps)
  {
    hide Transform, EncodeResult, WellPaired, UriText;
    EncodeUriExact(component, cps);
    EncodeResultExact(component, cps);
  }

  lemma {:induction false} EncodeResultExact(component: bool, cps: seq<codepoint>)
    ensures EncodeResult(component, cps) == if WellPaired(cps) then Some(UriText(Unescaped(component), Joined(cps))) else None
    decreases |cps|
  {
    hide InTable, Plain, Encode, Utf8, PctAll, Percents, Percent;
    if cps != [] && High(cps[0]) {
      if |cps| > 1 && Low(cps[1]) {
        EncodeResultExact(component, cps[2..]);
        ScalarEscaped(component, JoinSurrogates(cps[0], cps[1]));
      }
    } else if cps != [] {
      EncodeResultExact(component, cps[1..]);
      if cps[0] <= 0x10ffff { ScalarEscaped(component, cps[0]); }
    }
  }

  lemma ScalarEscaped(component: bool, cp: int)
    requires 0 <= cp <= 0x10ffff
    ensures cp < 0x80 ==> (InTable(Unescaped(component), cp) <==> Plain(component, cp)) && PctAll(Encode(cp)) == Percent(cp)
    ensures PctAll(Encode(cp)) == Percents(Utf8(cp))
  {
    hide InTable, Plain, Percent, Pct;
    EncodeIsUtf8(cp);
    PctAllIsPercents(Encode(cp));
    if cp < 0x80 {
      UnescapedExact(component, cp);
      assert Percents([cp]) == Percent(cp) + Percents([]);
    }
  }

  // ----- decoding -----

  /** One escape below 0x80: the character, or the escape as it stands if the character is reserved. */
  lemma DecodeAscii(component: bool, s: bytes, a: int, b: int)
    requires |s| >= 2 && 0 <= a < 8 && 0 <= b < 16 && HexDigit(s[0]) == a && HexDigit(s[1]) == b
    ensures DecodeUriStep(Reserved(component), s) ==
      Some((if !component && OneOf(16 * a + b, ";/?:@&=+$,#") then ['%' as int, s[0], s[1]] else [16 * a + b], 2))
  {
    hide HexDigit, OneOf, InTable;
    assert HexValue(s, 1) == a;
    ReservedExact(component, 16 * a + b);
  }

  /** The escaped UTF-8 of a scalar value: up to U+FFFF as it is, beyond in two surrogates of three bytes each. */
  lemma DecodeScalar(component: bool, cp: int, s: bytes)
    requires 0x80 <= cp <= 0x10ffff && !(0xd800 <= cp <= 0xdfff) && Octets(s, Utf8(cp))
    ensures DecodeUriStep(Reserved(component), s) == Some((
      if cp < 0x10000 then Utf8(cp) else Utf8(0xd800 + (cp - 0x10000) / 0x400) + Utf8(0xdc00 + (cp - 0x10000) % 0x400),
      3 * |Utf8(cp)| - 1))
  {
    hide DecodeUriStep, Octets, Utf8, Encode;
    EncodeIsUtf8(cp);
    MultiByteReads(s, cp, Reserved(component));
    if cp >= 0x10000 {
      EncodeIsUtf8(0xd800 + (cp - 0x10000) / 0x400);
      EncodeIsUtf8(0xdc00 + (cp - 0x10000) % 0x400);
    }
  }

  // ----- escape and unescape -----

  /** What escape() makes of a string: None is an error. */
  function EscapeResult(cps: seq<codepoint>): Option<bytes> {
    if cps == [] then Some([])
    else if Alphanumeric(cps[0]) || OneOf(cps[0], "@*_+-./") then Prepend([cps[0]], EscapeResult(cps[1..]))
    else if cps[0] < 0x100 then Prepend(Percent(cps[0]), EscapeResult(cps[1..]))
    else if cps[0] < 0x10000 then Prepend(['%' as int, 'u' as int] + WordDigits(cps[0]), EscapeResult(cps[1..]))
    else None
  }

  function WordDigits(n: int): bytes
    requires 0 <= n < 0x10000
  {
    [Digit(n / 0x1000), Digit(n / 0x100 % 16), Digit(n / 16 % 16), Digit(n % 16)]
  }

  lemma {:induction false} EscapeLiteral(cps: seq<codepoint>)
    ensures Transform(Escape, EncodeAll(cps)) == EscapeResult(cps)
  {
    hide Transform, EscapeResult, Bmp;
    EscapeExact(cps);
    EscapeResultExact(cps);
  }

  lemma {:induction false} EscapeResultExact(cps: seq<codepoint>)
    ensures EscapeResult(cps) == if Bmp(cps) then Some(EscapeText(cps)) else None
  {
    hide EscapeStep, Alphanumeric, OneOf, Percent, WordDigits;
    if cps != [] {
      EscapeResultExact(cps[1..]);
      StepEscaped(cps[0]);
    }
  }

  lemma StepEscaped(cp: codepoint)
    ensures Alphanumeric(cp) || OneOf(cp, "@*_+-./") ==> EscapeStep(cp) == Some([cp])
    ensures !(Alphanumeric(cp) || OneOf(cp, "@*_+-./")) && cp < 0x100 ==> EscapeStep(cp) == Some(Percent(cp))
    ensures cp >= 0x10000 ==> EscapeStep(cp) == None
    ensures 0x100 <= cp < 0x10000 ==> EscapeStep(cp) == Some(['%' as int, 'u' as int] + WordDigits(cp))
  {
    hide InTable, Pct, HexByte, Digit;
    if cp < 0x80 { EscapeExempt(cp); }
    if cp < 0x100 { PctIsPercent(cp); }
    if 0x100 <= cp < 0x10000 {
      WordIsDigits(cp);
      assert EscapeStep(cp).value == [PERCENT, LC_U] + (HexByte(cp / 0x100) + HexByte(cp % 0x100));
    }
  }

  lemma WordIsDigits(cp: int)
    requires 0 <= cp < 0x10000
    ensures HexByte(cp / 0x100) + HexByte(cp % 0x100) == WordDigits(cp)
  {
    hide HexByte, Digit;
    FourDigits(cp);
    DigitWritten(cp / 0x1000);
    DigitWritten(cp / 0x100 % 16);
    DigitWritten(cp / 16 % 16);
    DigitWritten(cp % 16);
  }

  /** After a percent sign unescape() reads `u` and four digits, or else two digits, or else nothing. */
  lemma UnescapeLiteral(s: bytes)
    ensures UnescapeStep(s) ==
      if |s| >= 5 && s[0] == 'u' as int && (forall i :: 1 <= i <= 4 ==> HexDigit(s[i]) >= 0) then
        (0x1000 * HexDigit(s[1]) + 0x100 * HexDigit(s[2]) + 16 * HexDigit(s[3]) + HexDigit(s[4]), 5)
      else if |s| >= 2 && HexDigit(s[0]) >= 0 && HexDigit(s[1]) >= 0 then (16 * HexDigit(s[0]) + HexDigit(s[1]), 2)
      else ('%' as int, 0)
  {
    hide HexDigit;
    if |s| >= 5 { HexSum(s[1..]); }
    if |s| >= 2 { HexPairSum(s); }
  }

  lemma HexPairSum(s: bytes)
    requires |s| >= 2
    ensures HexDigit(s[0]) >= 0 && HexDigit(s[1]) >= 0 ==> HexValue(s, 2) == 16 * HexDigit(s[0]) + HexDigit(s[1])
    ensures HexDigit(s[0]) < 0 || HexDigit(s[1]) < 0 ==> HexValue(s, 2) == -1
  {
    hide HexDigit;
    assert HexValue(s, 1) == if HexDigit(s[0]) < 0 then -1 else HexDigit(s[0]);
  }

  lemma HexSum(s: bytes)
    requires |s| >= 4
    ensures (forall i :: 0 <= i < 4 ==> HexDigit(s[i]) >= 0) ==>
      HexValue(s, 4) == 0x1000 * HexDigit(s[0]) + 0x100 * HexDigit(s[1]) + 16 * HexDigit(s[2]) + HexDigit(s[3])
    ensures !(forall i :: 0 <= i < 4 ==> HexDigit(s[i]) >= 0) ==> HexValue(s, 4) == -1
  {
    hide HexDigit;
    HexPairSum(s);
    var two := HexValue(s, 2);
    assert HexValue(s, 3) == if two < 0 || HexDigit(s[2]) < 0 then -1 else two * 16 + HexDigit(s[2]);
  }
}
