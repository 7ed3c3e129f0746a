/** Parsing undoes stringifying. */
module JsonRoundTrip {
  import opened Bytes
  import opened Xutf8
  import opened JsonDocument
  import opened JsonParser
  import JsonEncoder

  // ----- which documents read back -----

  /** Number text that the lenient first pass keeps whole and strict parsing inverts. */
  ghost predicate NumberReads(conv: NumConv, n: Num) {
    var t := conv.text(n);
    t != [] && (IsDigit(t[0]) || t[0] == MINUS) && (forall b :: b in t ==> IsNumberChar(b)) && conv.parse(t) == Some(n)
  }

  ghost predicate DistinctMembers(ms: seq<Member>) {
    forall i, j :: 0 <= i < j < |ms| ==> ms[i].key != ms[j].key
  }

  /** Numbers whose text reads back, strings made of well-formed codepoints, and distinct keys. */
  ghost predicate Readable(conv: NumConv, d: Doc) {
    match d
    case DNull => true
    case DBool(_) => true
    case DNum(n) => NumberReads(conv, n)
    case DStr(s) => Canonical(s)
    case DArr(elems) => forall e :: e in elems ==> Readable(conv, e)
    case DObj(ms) =>
      DistinctMembers(ms) && forall m :: m in ms ==> Canonical(m.key) && Readable(conv, m.doc)
  }

  /** `d` nests at most `n` arrays and objects. */
  ghost predicate Nests(d: Doc, n: nat) {
    match d
    case DArr(elems) => n > 0 && forall e :: e in elems ==> Nests(e, n - 1)
    case DObj(ms) => n > 0 && forall m :: m in ms ==> Nests(m.doc, n - 1)
    case _ => true
  }

  predicate WhiteGap(gap: bytes) { forall b :: b in gap ==> IsWhite(b) }

  // ----- white space -----

  lemma {:induction false} EatWhitePrefix(w: bytes, s: bytes)
    requires WhiteGap(w)
    ensures EatWhite(w + s) == EatWhite(s)
  {
    if w == [] {
      assert w + s == s;
    } else {
      assert IsWhite(w[0]);
      assert (w + s)[1..] == w[1..] + s;
      EatWhitePrefix(w[1..], s);
    }
  }

  lemma {:induction false} EatWhiteTwice(s: bytes)
    ensures EatWhite(EatWhite(s)) == EatWhite(s)
  {
    if s != [] && IsWhite(s[0]) { EatWhiteTwice(s[1..]); }
  }

  lemma {:induction false} RepeatWhite(gap: bytes, n: nat)
    requires WhiteGap(gap)
    ensures WhiteGap(Repeat(gap, n))
  {
    if n > 0 { RepeatWhite(gap, n - 1); }
  }

  lemma IndentWhite(gap: bytes, depth: nat)
    requires WhiteGap(gap)
    ensures WhiteGap(Indent(gap, depth))
  {
    RepeatWhite(gap, depth);
  }

  // ----- strings -----

  /** Plain bytes of a string are taken as they are. */
  lemma {:induction false} StringBodyPlain(t: bytes, s: bytes)
    requires forall i :: 0 <= i < |t| ==> t[i] >= 0x80
    ensures StringBody(t + s) == Prepend(t, StringBody(s))
  {
    if t == [] {
      assert t + s == s;
      PrependNothing(StringBody(s));
    } else {
      assert (t + s)[1..] == t[1..] + s;
      StringBodyPlain(t[1..], s);
      PrependTwice([t[0]], t[1..], StringBody(s));
      assert [t[0]] + t[1..] == t;
    }
  }

  lemma HexDigitReads(n: nat)
    requires n < 16
    ensures HexValue(HexDigit(n)) == Some(n)
  {
  }

  /** A `\uXXXX` escape reads back as the codepoint it was made from. */
  lemma UnescapeU(cp: nat, s: bytes)
    requires cp < 0x10000
    ensures StringBody(EscapeU(cp) + s) == Prepend(Encode(cp), StringBody(s))
  {
    hide Encode, HexEscape, HexValue, HexDigit;
    var a, b, c, d := cp / 0x1000, cp / 0x100 % 16, cp / 0x10 % 16, cp % 16;
    HexDigitReads(a); HexDigitReads(b); HexDigitReads(c); HexDigitReads(d);
    HexDigits(cp);
    var t := EscapeU(cp) + s;
    var h := [HexDigit(a), HexDigit(b), HexDigit(c), HexDigit(d)] + s;
    HexFour(h, a, b, c, d);
    assert h[4..] == s;
    assert t[1..] == [0x75] + h;
    assert t[1..][1..] == h;
    assert Unescape(t[1..]) == Some((Encode(cp), s));
  }

  lemma HexDigits(cp: nat)
    requires cp < 0x10000
    ensures ((cp / 0x1000 * 16 + cp / 0x100 % 16) * 16 + cp / 0x10 % 16) * 16 + cp % 16 == cp
  {
    var a, b := cp / 0x10, cp / 0x100;
    SecondNibble(cp);
    ThirdNibble(cp);
    assert b == cp / 0x1000 * 16 + b % 16 && a == b * 16 + a % 16;
  }

  lemma SecondNibble(cp: nat)
    ensures cp / 0x10 / 16 == cp / 0x100
  {
  }

  lemma ThirdNibble(cp: nat)
    ensures cp / 0x100 / 16 == cp / 0x1000
  {
  }

  lemma HexFour(h: bytes, a: nat, b: nat, c: nat, d: nat)
    requires |h| >= 4
    requires HexValue(h[0]) == Some(a) && HexValue(h[1]) == Some(b) && HexValue(h[2]) == Some(c) && HexValue(h[3]) == Some(d)
    ensures HexEscape(h, 4, 0) == Some((((a * 16 + b) * 16 + c) * 16 + d, h[4..]))
  {
    var h1, h2, h3 := h[1..], h[2..], h[3..];
    assert h1[1..] == h2 && h2[1..] == h3 && h3[1..] == h[4..];
    assert HexEscape(h[4..], 0, ((a * 16 + b) * 16 + c) * 16 + d) == Some((((a * 16 + b) * 16 + c) * 16 + d, h[4..]));
    assert HexEscape(h3, 1, (a * 16 + b) * 16 + c) == HexEscape(h[4..], 0, ((a * 16 + b) * 16 + c) * 16 + d);
    assert HexEscape(h2, 2, a * 16 + b) == HexEscape(h3, 1, (a * 16 + b) * 16 + c);
    assert HexEscape(h1, 3, a) == HexEscape(h2, 2, a * 16 + b);
  }

  /** The quoted form of an ASCII byte reads back as that byte. */
  lemma AsciiReads(b: byte, s: bytes)
    requires b < 0x80
    ensures StringBody(QuoteAscii(b) + s) == Prepend([b], StringBody(s))
  {
    hide HexEscape, HexValue, EscapeU;
    var t := QuoteAscii(b) + s;
    if |QuoteAscii(b)| == 6 {
      UnescapeU(b, s);
    } else if |QuoteAscii(b)| == 2 {
      assert t[1..] == [QuoteAscii(b)[1]] + s;
      assert t[1..][1..] == s;
    } else {
      assert t[1..] == s;
    }
  }

  lemma WideReads(cp: codepoint, s: bytes)
    requires cp >= 0x80
    ensures StringBody(QuoteWide(cp) + s) == Prepend(Encode(cp), StringBody(s))
  {
    if cp == 0x2028 || cp == 0x2029 {
      UnescapeU(cp, s);
    } else {
      EncodeHigh(cp);
      StringBodyPlain(Encode(cp), s);
    }
  }

  /** The quoted form of the first codepoint reads back as its bytes. */
  lemma StepReads(s: bytes, more: bytes)
    requires s != [] && Canonical(s)
    ensures var (text, n) := QuoteStep(s); StringBody(text + more) == Prepend(s[..n], StringBody(more))
  {
    hide QuoteStep, StringBody, Canonical;
    CanonicalStep(s);
    if s[0] < 0x80 { AsciiReads(s[0], more); } else { WideReads(Decode(s).value.0, more); }
  }

  /** Decoding a quoted string gives the string back. */
  lemma {:induction false} StringReads(s: bytes, rest: bytes)
    requires Canonical(s)
    ensures StringBody(QuoteBody(s) + ([QUOTE] + rest)) == Some((s, rest))
    decreases |s|
  {
    hide QuoteStep, StringBody, QuoteBody, Canonical;
    if s == [] {
      StringReadsEmpty(rest);
    } else {
      var n := QuoteStep(s).1;
      StringReadsStep(s, [QUOTE] + rest);
      CanonicalStep(s);
      StringReads(s[n..], rest);
      assert s[..n] + s[n..] == s;
    }
  }

  lemma StringReadsEmpty(rest: bytes)
    ensures StringBody(QuoteBody([]) + ([QUOTE] + rest)) == Some(([], rest))
  {
    assert QuoteBody([]) + ([QUOTE] + rest) == [QUOTE] + rest;
  }

  lemma StringReadsStep(s: bytes, tail: bytes)
    requires s != [] && Canonical(s)
    ensures var n := QuoteStep(s).1;
      StringBody(QuoteBody(s) + tail) == Prepend(s[..n], StringBody(QuoteBody(s[n..]) + tail))
  {
    hide QuoteStep, StringBody, Canonical;
    var (text, n) := QuoteStep(s);
    var more := QuoteBody(s[n..]) + tail;
    assert QuoteBody(s) + tail == text + more;
    StepReads(s, more);
  }

  lemma CanonicalStep(s: bytes)
    requires s != [] && Canonical(s)
    ensures var (text, n) := QuoteStep(s);
      Decode(s).Some? && Canonical(s[n..]) && s[..n] == Encode(Decode(s).value.0) &&
      (if s[0] < 0x80 then text == QuoteAscii(s[0]) && s[..n] == [s[0]] else
        text == QuoteWide(Decode(s).value.0) && Decode(s).value.0 >= 0x80)
  {
    assert s[..Decode(s).value.1][0] == s[0];
  }

  // ----- documents -----

  /** What may follow a value: something that cannot be part of a number. */
  predicate Stops(rest: bytes) { rest != [] && !IsNumberChar(rest[0]) }

  lemma {:induction false} NumberSpanText(t: bytes, rest: bytes)
    requires (forall b :: b in t ==> IsNumberChar(b)) && Stops(rest)
    ensures NumberSpan(t + rest) == |t|
  {
    if t == [] {
      assert t + rest == rest;
    } else {
      assert (t + rest)[1..] == t[1..] + rest;
      NumberSpanText(t[1..], rest);
    }
  }

  /** The text of a value starts with neither white space nor punctuation. */
  lemma DocStart(st: Style, d: Doc, depth: nat)
    requires Readable(st.conv, d)
    ensures var t := DocText(st, d, depth);
      t != [] && !IsWhite(t[0]) && t[0] != COMMA && t[0] != RBRACKET && t[0] != RCURLY
  {
  }

  lemma ParseValueWhite(conv: NumConv, w: bytes, s: bytes, nest: nat)
    requires WhiteGap(w)
    ensures ParseValue(conv, w + s, nest) == ParseValue(conv, s, nest)
  {
    EatWhitePrefix(w, s);
  }

  lemma ScalarReads(st: Style, d: Doc, depth: nat, nest: nat, rest: bytes)
    requires Readable(st.conv, d) && Stops(rest) && !d.DArr? && !d.DObj?
    ensures ParseValue(st.conv, DocText(st, d, depth) + rest, nest) == Ok(d, EatWhite(rest))
  {
    hide StringBody, QuoteBody, Canonical, NumberSpan, ParseMembers, ParseElems, EatWhite;
    var t := DocText(st, d, depth);
    var s := t + rest;
    DocStart(st, d, depth);
    NotWhite(s);
    match d {
      case DNull => assert s[1..] == NULL_TEXT[1..] + rest;
      case DBool(b) =>
        if b { assert s[1..] == TRUE_TEXT[1..] + rest; } else { assert s[1..] == FALSE_TEXT[1..] + rest; }
      case DNum(n) =>
        NumberSpanText(t, rest);
        assert s[..|t|] == t && s[|t|..] == rest;
      case DStr(str) =>
        assert s[1..] == QuoteBody(str) + ([QUOTE] + rest);
        StringReads(str, rest);
    }
  }

  /** Elements behind the first: what is left of an array after one of its elements. */
  function ElemsTail(st: Style, docs: seq<Doc>, depth: nat): bytes {
    if docs == [] then [] else [COMMA] + ElemsText(st, docs, depth)
  }

  function MembersTail(st: Style, ms: seq<Member>, depth: nat): bytes {
    if ms == [] then [] else [COMMA] + MembersText(st, ms, depth)
  }

  lemma ElemsTextSplit(st: Style, docs: seq<Doc>, depth: nat)
    requires docs != []
    ensures ElemsText(st, docs, depth) == ElemText(st, docs[0], depth) + ElemsTail(st, docs[1..], depth)
  {
  }

  lemma MembersTextSplit(st: Style, ms: seq<Member>, depth: nat)
    requires ms != []
    ensures MembersText(st, ms, depth) == MemberText(st, ms[0], depth) + MembersTail(st, ms[1..], depth)
  {
  }

  ghost predicate ReadableElems(conv: NumConv, docs: seq<Doc>, nest: nat) {
    forall e :: e in docs ==> Readable(conv, e) && nest <= DEC_RECLIMIT && Nests(e, DEC_RECLIMIT - nest)
  }

  ghost predicate ReadableMembers(conv: NumConv, ms: seq<Member>, nest: nat) {
    forall m :: m in ms ==>
      Canonical(m.key) && Readable(conv, m.doc) && nest <= DEC_RECLIMIT && Nests(m.doc, DEC_RECLIMIT - nest)
  }

  /** Parsing undoes document text, at any indentation and nesting, in front of anything that cannot
      continue a number. */
  lemma {:induction false} DocReads(st: Style, d: Doc, depth: nat, nest: nat, rest: bytes)
    requires Readable(st.conv, d) && WhiteGap(st.gap) && Stops(rest)
    requires nest <= DEC_RECLIMIT && Nests(d, DEC_RECLIMIT - nest)
    ensures ParseValue(st.conv, DocText(st, d, depth) + rest, nest) == Ok(d, EatWhite(rest))
    decreases d, 1
  {
    match d {
      case DArr(elems) =>
        ArrReads(st, elems, depth, nest, rest);
      case DObj(ms) =>
        ObjReads(st, ms, depth, nest, rest);
      case _ =>
        ScalarReads(st, d, depth, nest, rest);
    }
  }

  lemma ClosingWhite(st: Style, count: nat, depth: nat, bracket: byte, rest: bytes)
    requires WhiteGap(st.gap) && !IsWhite(bracket) && !IsNumberChar(bracket)
    ensures EatWhite(Closing(st, count, depth) + ([bracket] + rest)) == [bracket] + rest
    ensures Stops(Closing(st, count, depth) + ([bracket] + rest))
  {
    IndentWhite(st.gap, depth);
    EatWhitePrefix(Closing(st, count, depth), [bracket] + rest);
  }

  lemma {:induction false} ArrReads(st: Style, elems: seq<Doc>, depth: nat, nest: nat, rest: bytes)
    requires ReadableElems(st.conv, elems, nest + 1) && WhiteGap(st.gap) && nest < DEC_RECLIMIT
    ensures ParseValue(st.conv, DocText(st, DArr(elems), depth) + rest, nest) == Ok(DArr(elems), EatWhite(rest))
    decreases elems, 2
  {
    hide StringBody, NumberSpan, ParseMembers, Canonical, Closing, ElemsText, Indent;
    var tail := Closing(st, |elems|, depth) + ([RBRACKET] + rest);
    var s := DocText(st, DArr(elems), depth) + rest;
    assert s == [LBRACKET] + (ElemsText(st, elems, depth + 1) + tail);
    assert s[1..] == ElemsText(st, elems, depth + 1) + tail;
    ClosingWhite(st, |elems|, depth, RBRACKET, rest);
    assert ParseElems(st.conv, s[1..], nest + 1, []) == Ok(elems, rest) by {
      if elems == [] {
        NoElems(st, depth + 1, tail);
        assert tail == s[1..];
        assert ([RBRACKET] + rest)[1..] == rest;
      } else {
        FirstElemReads(st, elems, depth + 1, nest + 1, tail, rest);
      }
    }
  }

  lemma NoElems(st: Style, depth: nat, tail: bytes)
    ensures ElemsText(st, [], depth) + tail == tail && MembersText(st, [], depth) + tail == tail
  {
  }

  /** One element in front of the rest of an array. */
  lemma {:induction false} ElemReads(st: Style, docs: seq<Doc>, depth: nat, nest: nat, tail: bytes)
    requires docs != [] && ReadableElems(st.conv, docs, nest) && WhiteGap(st.gap) && Stops(tail)
    ensures var more := ElemsTail(st, docs[1..], depth) + tail;
      ParseValue(st.conv, ElemsText(st, docs, depth) + tail, nest) == Ok(docs[0], EatWhite(more)) &&
      EatWhite(ElemsText(st, docs, depth) + tail) == DocText(st, docs[0], depth) + more &&
      ParseValue(st.conv, DocText(st, docs[0], depth) + more, nest) == Ok(docs[0], EatWhite(more))
    decreases docs, 0
  {
    hide ParseValue, DocText, Readable, Nests, Indent, IsWhite;
    var d := docs[0];
    assert d in docs;
    var more := ElemsTail(st, docs[1..], depth) + tail;
    assert Stops(more);
    DocReads(st, d, depth, nest, more);
    ElemsTextSplit(st, docs, depth);
    var body := DocText(st, d, depth) + more;
    assert ElemsText(st, docs, depth) + tail == Indent(st.gap, depth) + body;
    IndentWhite(st.gap, depth);
    ParseValueWhite(st.conv, Indent(st.gap, depth), body, nest);
    EatWhitePrefix(Indent(st.gap, depth), body);
    DocStart(st, d, depth);
    assert body[0] == DocText(st, d, depth)[0];
    NotWhite(body);
  }

  lemma NotWhite(s: bytes)
    requires s != [] && !IsWhite(s[0])
    ensures EatWhite(s) == s
  {
  }

  lemma {:induction false} FirstElemReads(st: Style, docs: seq<Doc>, depth: nat, nest: nat, tail: bytes, rest: bytes)
    requires docs != [] && ReadableElems(st.conv, docs, nest) && WhiteGap(st.gap) && Stops(tail)
    requires EatWhite(tail) == [RBRACKET] + rest
    ensures ParseElems(st.conv, ElemsText(st, docs, depth) + tail, nest, []) == Ok(docs, rest)
    decreases docs, 1
  {
    hide ParseValue, DocText, ElemsText, Readable, Nests, IsWhite, EatWhite;
    ElemReads(st, docs, depth, nest, tail);
    DocStart(st, docs[0], depth);
    var more := ElemsTail(st, docs[1..], depth) + tail;
    ElemsRead(st, docs[1..], depth, nest, [docs[0]], tail, rest);
    EatWhiteTwice(more);
    assert [] + [docs[0]] == [docs[0]];
    assert [docs[0]] + docs[1..] == docs;
    ParseElemsWhite(st.conv, more, nest, [docs[0]]);
  }

  lemma ParseElemsWhite(conv: NumConv, s: bytes, nest: nat, acc: seq<Doc>)
    ensures ParseElems(conv, EatWhite(s), nest, acc) == ParseElems(conv, s, nest, acc)
  {
    EatWhiteTwice(s);
  }

  lemma {:induction false} ElemsRead(st: Style, docs: seq<Doc>, depth: nat, nest: nat, acc: seq<Doc>, tail: bytes, rest: bytes)
    requires acc != [] && ReadableElems(st.conv, docs, nest) && WhiteGap(st.gap) && Stops(tail)
    requires EatWhite(tail) == [RBRACKET] + rest
    ensures ParseElems(st.conv, ElemsTail(st, docs, depth) + tail, nest, acc) == Ok(acc + docs, rest)
    decreases docs, 1
  {
    hide ParseValue, ParseElems, DocText, ElemsText, Readable, Nests, EatWhite, Stops, WhiteGap, ElemsTail, ReadableElems;
    ElemsTailText(st, docs, depth, tail);
    if docs == [] {
      assert acc + docs == acc;
      ElemsEnd(st.conv, tail, nest, acc, rest);
    } else {
      ElemReads(st, docs, depth, nest, tail);
      RestElems(st.conv, docs, nest);
      NextElem(st.conv, ElemsText(st, docs, depth) + tail, nest, acc, docs[0], ElemsTail(st, docs[1..], depth) + tail);
      ElemsRead(st, docs[1..], depth, nest, acc + [docs[0]], tail, rest);
      assert acc + [docs[0]] + docs[1..] == acc + docs;
    }
  }

  lemma ElemsTailText(st: Style, docs: seq<Doc>, depth: nat, tail: bytes)
    ensures ElemsTail(st, docs, depth) + tail == if docs == [] then tail else [COMMA] + (ElemsText(st, docs, depth) + tail)
  {
    hide ElemsText;
  }

  lemma RestElems(conv: NumConv, docs: seq<Doc>, nest: nat)
    requires docs != [] && ReadableElems(conv, docs, nest)
    ensures ReadableElems(conv, docs[1..], nest)
  {
  }

  lemma ElemsEnd(conv: NumConv, tail: bytes, nest: nat, acc: seq<Doc>, rest: bytes)
    requires EatWhite(tail) == [RBRACKET] + rest
    ensures ParseElems(conv, tail, nest, acc) == Ok(acc, rest)
  {
    hide EatWhite;
    assert ([RBRACKET] + rest)[1..] == rest;
  }

  /** A further element is taken in, and what is behind it is read next. */
  lemma NextElem(conv: NumConv, s: bytes, nest: nat, acc: seq<Doc>, d: Doc, more: bytes)
    requires acc != [] && ParseValue(conv, s, nest) == Ok(d, EatWhite(more))
    ensures ParseElems(conv, [COMMA] + s, nest, acc) == ParseElems(conv, more, nest, acc + [d])
  {
    hide ParseValue;
    NotWhite([COMMA] + s);
    assert ([COMMA] + s)[1..] == s;
    ParseElemsWhite(conv, more, nest, acc + [d]);
  }

  // ----- objects -----

  lemma {:induction false} ObjReads(st: Style, ms: seq<Member>, depth: nat, nest: nat, rest: bytes)
    requires DistinctMembers(ms) && ReadableMembers(st.conv, ms, nest + 1) && WhiteGap(st.gap) && nest < DEC_RECLIMIT
    ensures ParseValue(st.conv, DocText(st, DObj(ms), depth) + rest, nest) == Ok(DObj(ms), EatWhite(rest))
    decreases ms, 2
  {
    hide StringBody, NumberSpan, ParseElems, Canonical, Closing, MembersText, Indent;
    var tail := Closing(st, |ms|, depth) + ([RCURLY] + rest);
    var s := DocText(st, DObj(ms), depth) + rest;
    assert s == [LCURLY] + (MembersText(st, ms, depth + 1) + tail);
    assert s[1..] == MembersText(st, ms, depth + 1) + tail;
    ClosingWhite(st, |ms|, depth, RCURLY, rest);
    assert ParseMembers(st.conv, s[1..], nest + 1, []) == Ok(ms, rest) by {
      if ms == [] {
        NoElems(st, depth + 1, tail);
        assert tail == s[1..];
        assert ([RCURLY] + rest)[1..] == rest;
      } else {
        FirstMemberReads(st, ms, depth + 1, nest + 1, tail, rest);
      }
    }
  }

  /** One key, colon and value in front of the rest of an object. */
  lemma {:induction false} MemberReads(st: Style, ms: seq<Member>, depth: nat, nest: nat, tail: bytes)
    requires ms != [] && ReadableMembers(st.conv, ms, nest) && WhiteGap(st.gap) && Stops(tail)
    ensures var more := MembersTail(st, ms[1..], depth) + tail;
      var t := EatWhite(MembersText(st, ms, depth) + tail);
      t != [] && t[0] == QUOTE && KeyValue(st.conv, t, nest) == Ok(ms[0], EatWhite(more))
    decreases ms, 0
  {
    hide ParseValue, DocText, Readable, Nests, IsWhite, MembersText, Canonical, Quote, Indent, EatWhite, KeyValue, ColonText;
    var m := ms[0];
    assert m in ms;
    var more := MembersTail(st, ms[1..], depth) + tail;
    assert Stops(more);
    DocReads(st, m.doc, depth, nest, more);
    MembersTextSplit(st, ms, depth);
    var value := DocText(st, m.doc, depth) + more;
    var body := Quote(m.key) + (ColonText(st.gap) + value);
    assert MembersText(st, ms, depth) + tail == Indent(st.gap, depth) + body;
    IndentWhite(st.gap, depth);
    EatWhitePrefix(Indent(st.gap, depth), body);
    QuoteStart(m.key, ColonText(st.gap) + value);
    NotWhite(body);
    KeyValueReads(st, m, value, nest, EatWhite(more));
  }

  lemma KeyValueReads(st: Style, m: Member, value: bytes, nest: nat, rest: bytes)
    requires Canonical(m.key) && ParseValue(st.conv, value, nest) == Ok(m.doc, rest)
    ensures KeyValue(st.conv, Quote(m.key) + (ColonText(st.gap) + value), nest) == Ok(m, rest)
  {
    hide ParseValue, Canonical, StringBody, QuoteBody, EatWhite, ColonText;
    var afterKey := ColonText(st.gap) + value;
    var body := Quote(m.key) + afterKey;
    StringReads(m.key, afterKey);
    assert body[1..] == QuoteBody(m.key) + ([QUOTE] + afterKey);
    ColonReads(st, value, nest);
  }

  lemma QuoteStart(key: bytes, rest: bytes)
    ensures var s := Quote(key) + rest; s != [] && s[0] == QUOTE && !IsWhite(s[0])
  {
  }

  lemma ColonReads(st: Style, value: bytes, nest: nat)
    ensures var t := EatWhite(ColonText(st.gap) + value);
      t != [] && t[0] == COLON && ParseValue(st.conv, t[1..], nest) == ParseValue(st.conv, value, nest)
  {
    hide ParseValue;
    var s := ColonText(st.gap) + value;
    NotWhite(s);
    if st.gap == [] {
      assert s[1..] == value;
    } else {
      assert s[1..] == [SPACE] + value;
      ParseValueWhite(st.conv, [SPACE], value, nest);
    }
  }

  lemma {:induction false} PutNew(ms: seq<Member>, m: Member)
    requires forall i :: 0 <= i < |ms| ==> ms[i].key != m.key
    ensures Put(ms, m.key, m.doc) == ms + [m]
  {
    if ms != [] { PutNew(ms[1..], m); }
  }

  lemma ParseMembersWhite(conv: NumConv, s: bytes, nest: nat, acc: seq<Member>)
    ensures ParseMembers(conv, EatWhite(s), nest, acc) == ParseMembers(conv, s, nest, acc)
  {
    EatWhiteTwice(s);
  }

  lemma {:induction false} FirstMemberReads(st: Style, ms: seq<Member>, depth: nat, nest: nat, tail: bytes, rest: bytes)
    requires ms != [] && DistinctMembers(ms) && ReadableMembers(st.conv, ms, nest) && WhiteGap(st.gap) && Stops(tail)
    requires EatWhite(tail) == [RCURLY] + rest
    ensures ParseMembers(st.conv, MembersText(st, ms, depth) + tail, nest, []) == Ok(ms, rest)
    decreases ms, 1
  {
    hide KeyValue, DocText, MembersText, Readable, Nests, IsWhite, EatWhite;
    MemberReads(st, ms, depth, nest, tail);
    var more := MembersTail(st, ms[1..], depth) + tail;
    assert [ms[0]] + ms[1..] == ms;
    MembersRead(st, ms[1..], depth, nest, [ms[0]], tail, rest);
    ParseMembersWhite(st.conv, more, nest, [ms[0]]);
  }

  lemma {:induction false} MembersRead(st: Style, ms: seq<Member>, depth: nat, nest: nat, acc: seq<Member>, tail: bytes, rest: bytes)
    requires acc != [] && DistinctMembers(acc + ms) && ReadableMembers(st.conv, ms, nest) && WhiteGap(st.gap) && Stops(tail)
    requires EatWhite(tail) == [RCURLY] + rest
    ensures ParseMembers(st.conv, MembersTail(st, ms, depth) + tail, nest, acc) == Ok(acc + ms, rest)
    decreases ms, 1
  {
    hide ParseMembers, KeyValue, DocText, MembersText, Readable, Nests, EatWhite, DistinctMembers, Put, Stops, WhiteGap, MembersTail, ReadableMembers;
    TailText(st, ms, depth, tail);
    if ms == [] {
      assert acc + ms == acc;
      MembersEnd(st.conv, tail, nest, acc, rest);
    } else {
      MemberReads(st, ms, depth, nest, tail);
      NewKey(acc, ms);
      RestReadable(st.conv, ms, nest);
      NextMember(st.conv, MembersText(st, ms, depth) + tail, nest, acc, ms[0], MembersTail(st, ms[1..], depth) + tail);
      MembersRead(st, ms[1..], depth, nest, acc + [ms[0]], tail, rest);
    }
  }

  lemma TailText(st: Style, ms: seq<Member>, depth: nat, tail: bytes)
    ensures MembersTail(st, ms, depth) + tail == if ms == [] then tail else [COMMA] + (MembersText(st, ms, depth) + tail)
  {
    hide MembersText;
  }

  lemma RestReadable(conv: NumConv, ms: seq<Member>, nest: nat)
    requires ms != [] && ReadableMembers(conv, ms, nest)
    ensures ReadableMembers(conv, ms[1..], nest)
  {
  }

  lemma MembersEnd(conv: NumConv, tail: bytes, nest: nat, acc: seq<Member>, rest: bytes)
    requires EatWhite(tail) == [RCURLY] + rest
    ensures ParseMembers(conv, tail, nest, acc) == Ok(acc, rest)
  {
    hide EatWhite;
    assert ([RCURLY] + rest)[1..] == rest;
  }

  lemma NewKey(acc: seq<Member>, ms: seq<Member>)
    requires ms != [] && DistinctMembers(acc + ms)
    ensures Put(acc, ms[0].key, ms[0].doc) == acc + [ms[0]] && acc + [ms[0]] + ms[1..] == acc + ms
  {
    forall i | 0 <= i < |acc| ensures acc[i].key != ms[0].key {
      assert (acc + ms)[i] == acc[i] && (acc + ms)[|acc|] == ms[0];
    }
    PutNew(acc, ms[0]);
  }

  /** A further member is taken in, and what is behind it is read next. */
  lemma NextMember(conv: NumConv, s: bytes, nest: nat, acc: seq<Member>, m: Member, more: bytes)
    requires acc != [] && EatWhite(s) != [] && KeyValue(conv, EatWhite(s), nest) == Ok(m, EatWhite(more))
    requires EatWhite(s)[0] == QUOTE && Put(acc, m.key, m.doc) == acc + [m]
    ensures ParseMembers(conv, [COMMA] + s, nest, acc) == ParseMembers(conv, more, nest, acc + [m])
  {
    hide KeyValue, Put;
    NotWhite([COMMA] + s);
    assert ([COMMA] + s)[1..] == s;
    ParseMembersWhite(conv, more, nest, acc + [m]);
  }

  // ----- from the heap and back -----

  ghost predicate ValReads(conv: NumConv, v: Val) {
    (v.Str? ==> Canonical(v.s)) && (v.Number? ==> NumberReads(conv, v.n))
  }

  /** The strings, keys and numbers of the heap read back. */
  ghost predicate HeapReads(conv: NumConv, h: Heap) {
    forall r {:trigger NodeReads(conv, h[r])} :: r in h ==> NodeReads(conv, h[r])
  }

  ghost predicate NodeReads(conv: NumConv, n: Node) {
    match n
    case FunctionObj => true
    case ArrayObj(slots) => forall s :: s in slots && s.Some? ==> ValReads(conv, s.value)
    case PlainObj(entries) =>
      DistinctKeys(entries) && forall e :: e in entries && Visible(e) ==> Canonical(e.value.key) && ValReads(conv, e.value.val)
  }

  /** What the serializer's walk yields is readable and nests within the limit. */
  lemma {:induction false} WalkReads(conv: NumConv, h: Heap, v: Val, path: seq<Ref>, limit: nat)
    requires HeapReads(conv, h) && ValReads(conv, v) && |path| <= limit
    ensures var w := Walk(h, v, path, limit); w.Document? ==> Readable(conv, w.doc) && Nests(w.doc, limit - |path|)
    decreases limit - |path|, 0, 1
  {
    hide Canonical, NumberReads;
    if v.Object? && v.ref in h && v.ref !in path && |path| < limit {
      assert NodeReads(conv, h[v.ref]);
      match h[v.ref]
      case FunctionObj =>
      case ArrayObj(slots) => WalkElemsReads(conv, h, slots, path + [v.ref], limit);
      case PlainObj(entries) => WalkMembersReads(conv, h, entries, path + [v.ref], limit);
    }
  }

  lemma {:induction false} WalkElemsReads(conv: NumConv, h: Heap, slots: seq<Option<Val>>, path: seq<Ref>, limit: nat)
    requires HeapReads(conv, h) && (forall s :: s in slots && s.Some? ==> ValReads(conv, s.value)) && |path| <= limit
    ensures var w := WalkElems(h, slots, path, limit);
      w.Elems? ==> forall d :: d in w.docs ==> Readable(conv, d) && Nests(d, limit - |path|)
    decreases limit - |path|, |slots| + 1, 0
  {
    if slots != [] {
      var last := slots[|slots| - 1];
      WalkElemsReads(conv, h, slots[..|slots| - 1], path, limit);
      if last.Some? { WalkReads(conv, h, last.value, path, limit); }
    }
  }

  lemma {:induction false} WalkMembersReads(conv: NumConv, h: Heap, entries: seq<Option<Entry>>, path: seq<Ref>, limit: nat)
    requires HeapReads(conv, h) && DistinctKeys(entries) && |path| <= limit
    requires forall e :: e in entries && Visible(e) ==> Canonical(e.value.key) && ValReads(conv, e.value.val)
    ensures var w := WalkMembers(h, entries, path, limit);
      w.Members? ==> DistinctMembers(w.members)
    ensures var w := WalkMembers(h, entries, path, limit);
      w.Members? ==> forall m :: m in w.members ==>
        Canonical(m.key) && Readable(conv, m.doc) && Nests(m.doc, limit - |path|) &&
        exists e :: e in entries && e.Some? && e.value.key == m.key
    decreases limit - |path|, |entries| + 1, 0
  {
    if entries != [] {
      var n := |entries| - 1;
      var last := entries[n];
      WalkMembersReads(conv, h, entries[..n], path, limit);
      if Visible(last) {
        assert last in entries;
        WalkReads(conv, h, last.value.val, path, limit);
      }
      var w := WalkMembers(h, entries[..n], path, limit);
      if w.Members? && Visible(last) {
        forall m | m in w.members ensures m.key != last.value.key {
          var e :| e in entries[..n] && e.Some? && e.value.key == m.key;
          var i :| 0 <= i < n && entries[i] == e;
        }
      }
      forall e | e in entries[..n] ensures e in entries { }
    }
  }

  /** Parsing undoes stringifying: whatever heap value JSON.stringify() turns into text, under any
      white-space gap, JSON.parse() reads that text to its very end and gives the document the value
      denotes. */
  lemma StringifyThenParse(h: Heap, st: Style, v: Val)
    requires HeapReads(st.conv, h) && ValReads(st.conv, v) && WhiteGap(st.gap)
    requires JsonEncoder.Expected(h, st, v).Text?
    ensures Parse(st.conv, JsonEncoder.Expected(h, st, v).text) == Ok(Walk(h, v, [], 1000).doc, [0])
  {
    hide HeapReads, ValReads, DocText, ParseValue, EatWhite;
    WalkReads(st.conv, h, v, [], JsonEncoder.ENC_RECLIMIT);
    DocReads(st, Walk(h, v, [], JsonEncoder.ENC_RECLIMIT).doc, 0, 0, [0]);
    NotWhite([0]);
  }
}
