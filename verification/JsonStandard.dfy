/** JSON.stringify() as section 15.12.3 of the ECMAScript Language Specification, Edition 5.1, has it: the text
    of a document in literal characters, and which properties of an object are in it. */
module JsonStandard {
  import opened Bytes
  import opened Xutf8
  import opened JsonDocument
  import JsonEncoder
  import JsonGraph

  // ----- Quote -----

  function LowerHex(n: int): byte
    requires 0 <= n < 16
  {
    if n < 10 then '0' as int + n else 'a' as int + (n - 10)
  }

  /** A codepoint within quotes.  Line and paragraph separator are escaped beyond what the standard asks. */
  function QuotedChar(cp: codepoint): bytes {
    if cp == '"' as int then ['\\' as int, '"' as int]
    else if cp == '\\' as int then ['\\' as int, '\\' as int]
    else if cp == 8 then ['\\' as int, 'b' as int]
    else if cp == 9 then ['\\' as int, 't' as int]
    else if cp == 10 then ['\\' as int, 'n' as int]
    else if cp == 12 then ['\\' as int, 'f' as int]
    else if cp == 13 then ['\\' as int, 'r' as int]
    else if cp < 32 || cp == 0x2028 || cp == 0x2029 then
      ['\\' as int, 'u' as int, LowerHex(cp / 4096), LowerHex(cp / 256 % 16), LowerHex(cp / 16 % 16), LowerHex(cp % 16)]
    else Encode(cp)
  }

  function QuotedChars(cps: seq<codepoint>): bytes {
    if cps == [] then [] else QuotedChar(cps[0]) + QuotedChars(cps[1..])
  }

  /** Quoting a string of codepoints, surrogates included. */
  lemma {:induction false} QuoteStandard(cps: seq<codepoint>)
    ensures Quote(EncodeAll(cps)) == ['"' as int] + QuotedChars(cps) + ['"' as int]
  {
    QuoteBodyStandard(cps);
  }

  lemma {:induction false} QuoteBodyStandard(cps: seq<codepoint>)
    ensures QuoteBody(EncodeAll(cps)) == QuotedChars(cps)
  {
    hide QuoteStep, QuotedChar, Encode;
    if cps != [] {
      var rest := EncodeAll(cps[1..]);
      StepStandard(cps[0], rest);
      QuoteBodyStandard(cps[1..]);
      assert (Encode(cps[0]) + rest)[Length(cps[0])..] == rest;
    }
  }

  lemma StepStandard(cp: codepoint, rest: bytes)
    ensures QuoteStep(Encode(cp) + rest) == (QuotedChar(cp), Length(cp))
  {
    hide Decode, EscapeU;
    DecodeEncode(cp, rest);
    if cp < 0x80 {
      assert Encode(cp) == [cp] && (Encode(cp) + rest)[0] == cp;
    } else {
      EncodeHigh(cp);
      assert (Encode(cp) + rest)[0] == Encode(cp)[0];
    }
    if cp < 0x10000 { HexDigits(cp); }
  }

  lemma HexDigits(cp: int)
    requires 0 <= cp < 0x10000
    ensures EscapeU(cp) ==
      ['\\' as int, 'u' as int, LowerHex(cp / 4096), LowerHex(cp / 256 % 16), LowerHex(cp / 16 % 16), LowerHex(cp % 16)]
  {
  }

  // ----- Str, JO and JA -----

  /** The texts one after the other with a separator between them. */
  function Joined(parts: seq<bytes>, sep: bytes): bytes {
    if parts == [] then [] else if |parts| == 1 then parts[0] else parts[0] + sep + Joined(parts[1..], sep)
  }

  /** What stands between brackets or braces: nothing, the parts with commas, or each on a line of its own,
      indented by `inner`, and the closing bracket on one indented by `outer`. */
  function Block(gap: bytes, parts: seq<bytes>, inner: bytes, outer: bytes): bytes {
    if parts == [] then []
    else if gap == [] then Joined(parts, [',' as int])
    else ['\n' as int] + inner + Joined(parts, [',' as int, '\n' as int] + inner) + ['\n' as int] + outer
  }

  /** The standard text of a document at indentation `indent`. */
  function Standard(conv: NumConv, gap: bytes, d: Doc, indent: bytes): bytes
    decreases d, 1
  {
    match d
    case DNull => ['n' as int, 'u' as int, 'l' as int, 'l' as int]
    case DBool(b) =>
      if b then ['t' as int, 'r' as int, 'u' as int, 'e' as int] else ['f' as int, 'a' as int, 'l' as int, 's' as int, 'e' as int]
    case DNum(n) => conv.text(n)
    case DStr(s) => Quote(s)
    case DArr(elems) => ['[' as int] + Block(gap, ElemParts(conv, gap, elems, indent + gap), indent + gap, indent) + [']' as int]
    case DObj(ms) => ['{' as int] + Block(gap, MemberParts(conv, gap, ms, indent + gap), indent + gap, indent) + ['}' as int]
  }

  function ElemParts(conv: NumConv, gap: bytes, elems: seq<Doc>, indent: bytes): (parts: seq<bytes>)
    ensures |parts| == |elems|
    decreases elems, 0
  {
    if elems == [] then [] else [Standard(conv, gap, elems[0], indent)] + ElemParts(conv, gap, elems[1..], indent)
  }

  function MemberParts(conv: NumConv, gap: bytes, ms: seq<Member>, indent: bytes): (parts: seq<bytes>)
    ensures |parts| == |ms|
    decreases ms, 0
  {
    if ms == [] then [] else
    var colon := if gap == [] then [':' as int] else [':' as int, ' ' as int];
    [Quote(ms[0].key) + colon + Standard(conv, gap, ms[0].doc, indent)] + MemberParts(conv, gap, ms[1..], indent)
  }

  /** The text written is the standard one, for every document, gap and depth. */
  lemma {:induction false} TextStandard(st: Style, d: Doc, depth: nat)
    ensures DocText(st, d, depth) == Standard(st.conv, st.gap, d, Repeat(st.gap, depth))
    decreases d, 1
  {
    hide Quote, Block, ElemsText, MembersText, Closing;
    match d
    case DArr(elems) =>
      ElemsStandard(st, elems, depth + 1);
      BlockText(st, ElemParts(st.conv, st.gap, elems, Repeat(st.gap, depth + 1)), depth, ElemsText(st, elems, depth + 1));
      Cat(['[' as int], ElemsText(st, elems, depth + 1), Closing(st, |elems|, depth));
    case DObj(ms) =>
      MembersStandard(st, ms, depth + 1);
      BlockText(st, MemberParts(st.conv, st.gap, ms, Repeat(st.gap, depth + 1)), depth, MembersText(st, ms, depth + 1));
      Cat(['{' as int], MembersText(st, ms, depth + 1), Closing(st, |ms|, depth));
    case _ =>
  }

  lemma Cat(a: bytes, b: bytes, c: bytes)
    ensures a + b + c == a + (b + c)
  {
  }

  /** Parts on lines of their own, or without line breaks where there is no gap. */
  function Lines(gap: bytes, parts: seq<bytes>, indent: bytes): bytes {
    if parts == [] then [] else if gap == [] then Joined(parts, [',' as int])
    else ['\n' as int] + indent + Joined(parts, [',' as int, '\n' as int] + indent)
  }

  lemma BlockText(st: Style, parts: seq<bytes>, depth: nat, text: bytes)
    requires text == Lines(st.gap, parts, Repeat(st.gap, depth + 1))
    ensures text + Closing(st, |parts|, depth) == Block(st.gap, parts, Repeat(st.gap, depth) + st.gap, Repeat(st.gap, depth))
  {
    hide Joined;
    assert Repeat(st.gap, depth + 1) == Repeat(st.gap, depth) + st.gap;
    if parts != [] && st.gap != [] {
      var body := ['\n' as int] + Repeat(st.gap, depth + 1) + Joined(parts, [',' as int, '\n' as int] + Repeat(st.gap, depth + 1));
      Cat(body, ['\n' as int], Repeat(st.gap, depth));
    }
  }

  lemma {:induction false} ElemsStandard(st: Style, elems: seq<Doc>, depth: nat)
    ensures ElemsText(st, elems, depth) == Lines(st.gap, ElemParts(st.conv, st.gap, elems, Repeat(st.gap, depth)), Repeat(st.gap, depth))
    decreases elems, 0
  {
    hide DocText, Standard;
    if elems != [] {
      var indent := Repeat(st.gap, depth);
      TextStandard(st, elems[0], depth);
      ElemsStandard(st, elems[1..], depth);
      var parts := ElemParts(st.conv, st.gap, elems, indent);
      assert parts[1..] == ElemParts(st.conv, st.gap, elems[1..], indent);
      NextLine(st.gap, parts, indent);
    }
  }

  /** The first line and the others. */
  lemma NextLine(gap: bytes, parts: seq<bytes>, indent: bytes)
    requires parts != []
    ensures var first := (if gap == [] then [] else ['\n' as int] + indent) + parts[0];
      Lines(gap, parts, indent) == if |parts| == 1 then first else first + ([',' as int] + Lines(gap, parts[1..], indent))
  {
    hide Joined;
    JoinedFirst(parts, [',' as int]);
    JoinedFirst(parts, [',' as int, '\n' as int] + indent);
    assert [] + parts[0] == parts[0];
    if |parts| > 1 {
      Cat(parts[0], [',' as int], Joined(parts[1..], [',' as int]));
      LineBreak(['\n' as int] + indent, parts[0], Joined(parts[1..], [',' as int, '\n' as int] + indent));
      assert [',' as int, '\n' as int] + indent == [',' as int] + (['\n' as int] + indent);
    }
  }

  lemma JoinedFirst(parts: seq<bytes>, sep: bytes)
    requires parts != []
    ensures Joined(parts, sep) == if |parts| == 1 then parts[0] else parts[0] + sep + Joined(parts[1..], sep)
  {
  }

  lemma LineBreak(start: bytes, first: bytes, rest: bytes)
    ensures start + (first + ([',' as int] + start) + rest) == start + first + ([',' as int] + (start + rest))
  {
  }

  lemma {:induction false} MembersStandard(st: Style, ms: seq<Member>, depth: nat)
    ensures MembersText(st, ms, depth) == Lines(st.gap, MemberParts(st.conv, st.gap, ms, Repeat(st.gap, depth)), Repeat(st.gap, depth))
    decreases ms, 0
  {
    hide DocText, Standard, Quote;
    if ms != [] {
      var indent := Repeat(st.gap, depth);
      TextStandard(st, ms[0].doc, depth);
      MembersStandard(st, ms[1..], depth);
      var parts := MemberParts(st.conv, st.gap, ms, indent);
      assert parts[1..] == MemberParts(st.conv, st.gap, ms[1..], indent);
      NextLine(st.gap, parts, indent);
      FirstMember(st, ms[0], depth);
    }
  }

  lemma FirstMember(st: Style, m: Member, depth: nat)
    ensures var colon := if st.gap == [] then [':' as int] else [':' as int, ' ' as int];
      MemberText(st, m, depth) ==
      (if st.gap == [] then [] else ['\n' as int] + Repeat(st.gap, depth)) + (Quote(m.key) + colon + DocText(st, m.doc, depth))
  {
    hide DocText, Quote;
    var a, b, c := Indent(st.gap, depth), Quote(m.key), DocText(st, m.doc, depth);
    assert a + b + ColonText(st.gap) + c == a + (b + ColonText(st.gap) + c);
  }

  // ----- what is written of a value -----

  /** Undefined as far as JSON is concerned: left out of objects, null in arrays. */
  predicate Omitted(h: Heap, v: Val) {
    v.Undefined? || v.LightFunc? || v.Opaque? || (v.Object? && (v.ref !in h || h[v.ref].FunctionObj?))
  }

  /** Is the property written?  Enumerable, not internal, that is not starting with the byte 0xff, and not
      undefined. */
  predicate Written(h: Heap, e: Option<Entry>) {
    e.Some? && e.value.enumerable && !(|e.value.key| > 0 && e.value.key[0] == 0xff) && !Omitted(h, e.value.val)
  }

  /** `at` are the positions of the written properties, in table order. */
  ghost predicate Positions(h: Heap, entries: seq<Option<Entry>>, at: seq<nat>) {
    && (forall j :: 0 <= j < |at| ==> at[j] < |entries| && Written(h, entries[at[j]]))
    && (forall j, k :: 0 <= j < k < |at| ==> at[j] < at[k])
    && (forall i :: 0 <= i < |entries| && Written(h, entries[i]) ==> i in at)
  }

  /** `d` is what is written of `v`. */
  ghost predicate Shown(h: Heap, v: Val, d: Doc)
    decreases d, 0
  {
    match v
    case Null => d == DNull
    case Bool(b) => d == DBool(b)
    case Number(n) => d == DNum(n)
    case NonFinite => d == DNull
    case Str(s) => d == DStr(s)
    case Object(ref) =>
      ref in h && !h[ref].FunctionObj? &&
      (if h[ref].ArrayObj? then d.DArr? && ElemsShown(h, h[ref].slots, d.elems)
       else d.DObj? && exists at: seq<nat> :: MembersShown(h, h[ref].entries, at, d.members))
    case _ => false
  }

  ghost predicate ElemsShown(h: Heap, slots: seq<Option<Val>>, docs: seq<Doc>)
    decreases docs, 0
  {
    |docs| == |slots| &&
    forall i :: 0 <= i < |docs| ==> ElemShown(h, slots[i], docs[i])
  }

  ghost predicate ElemShown(h: Heap, slot: Option<Val>, d: Doc)
    decreases d, 1
  {
    if slot.None? || Omitted(h, slot.value) then d == DNull else Shown(h, slot.value, d)
  }

  ghost predicate MembersShown(h: Heap, entries: seq<Option<Entry>>, at: seq<nat>, ms: seq<Member>)
    decreases ms, 0
  {
    Positions(h, entries, at) && |ms| == |at| &&
    forall j :: 0 <= j < |ms| ==> ms[j].key == entries[at[j]].value.key && Shown(h, entries[at[j]].value.val, ms[j].doc)
  }

  /** What the serializer's walk denotes is what is written of the value, and it denotes nothing exactly for
      undefined values. */
  lemma {:induction false} WalkShown(h: Heap, v: Val, path: seq<Ref>, limit: nat)
    requires |path| <= limit
    ensures Walk(h, v, path, limit).Absent? <==> Omitted(h, v)
    ensures Walk(h, v, path, limit).Document? ==> Shown(h, v, Walk(h, v, path, limit).doc)
    decreases limit - |path|, 0, 1
  {
    hide Positions, MembersShown, ElemsShown;
    if v.Object? && v.ref in h && v.ref !in path && |path| < limit {
      match h[v.ref]
      case FunctionObj =>
      case ArrayObj(slots) => ElemsAreShown(h, slots, path + [v.ref], limit);
      case PlainObj(entries) => var at := MembersAreShown(h, entries, path + [v.ref], limit);
    }
  }

  lemma {:induction false} ElemsAreShown(h: Heap, slots: seq<Option<Val>>, path: seq<Ref>, limit: nat)
    requires |path| <= limit
    ensures var w := WalkElems(h, slots, path, limit); w.Elems? ==> ElemsShown(h, slots, w.docs)
    decreases limit - |path|, |slots| + 1, 0
  {
    hide Shown, Omitted, Walk;
    if slots != [] {
      var n := |slots| - 1;
      ElemsAreShown(h, slots[..n], path, limit);
      if slots[n].Some? { WalkShown(h, slots[n].value, path, limit); }
      assert slots == slots[..n] + [slots[n]];
    }
  }

  lemma {:induction false} MembersAreShown(h: Heap, entries: seq<Option<Entry>>, path: seq<Ref>, limit: nat) returns (at: seq<nat>)
    requires |path| <= limit
    ensures var w := WalkMembers(h, entries, path, limit); w.Members? ==> MembersShown(h, entries, at, w.members)
    decreases limit - |path|, |entries| + 1, 0
  {
    hide Shown, Omitted, Walk;
    at := [];
    if entries != [] {
      var n := |entries| - 1;
      at := MembersAreShown(h, entries[..n], path, limit);
      if Visible(entries[n]) { WalkShown(h, entries[n].value.val, path, limit); }
      var before := WalkMembers(h, entries[..n], path, limit);
      if before.Members? {
        if Written(h, entries[n]) {
          PositionsMore(h, entries, at);
          at := at + [n];
        } else {
          PositionsSame(h, entries, at);
        }
      }
    }
  }

  lemma PositionsMore(h: Heap, entries: seq<Option<Entry>>, at: seq<nat>)
    requires entries != [] && Positions(h, entries[..|entries| - 1], at) && Written(h, entries[|entries| - 1])
    ensures Positions(h, entries, at + [|entries| - 1])
  {
    hide Omitted, Written;
    var n := |entries| - 1;
    var more := at + [n];
    forall i | 0 <= i < |entries| && Written(h, entries[i]) ensures i in more {
      if i < n { assert entries[..n][i] == entries[i]; } else { assert more[|at|] == n; }
    }
    forall j | 0 <= j < |at| ensures at[j] < n && Written(h, entries[at[j]]) {
      assert entries[..n][at[j]] == entries[at[j]];
    }
  }

  lemma PositionsSame(h: Heap, entries: seq<Option<Entry>>, at: seq<nat>)
    requires entries != [] && Positions(h, entries[..|entries| - 1], at) && !Written(h, entries[|entries| - 1])
    ensures Positions(h, entries, at)
  {
    hide Omitted, Written;
    var n := |entries| - 1;
    forall i | 0 <= i < |entries| && Written(h, entries[i]) ensures i in at {
      assert entries[..n][i] == entries[i];
    }
    forall j | 0 <= j < |at| ensures at[j] < n && Written(h, entries[at[j]]) {
      assert entries[..n][at[j]] == entries[at[j]];
    }
  }

  /** What JSON.stringify() gives: undefined exactly for undefined values, otherwise, unless it throws, the
      standard text of a document that shows the value. */
  lemma StringifyStandard(h: Heap, st: Style, v: Val)
    ensures JsonEncoder.Expected(h, st, v).UndefinedResult? <==> Omitted(h, v)
    ensures JsonEncoder.Expected(h, st, v).Text? ==>
      exists d :: Shown(h, v, d) && JsonEncoder.Expected(h, st, v).text == Standard(st.conv, st.gap, d, [])
  {
    hide Shown, Standard, DocText, Omitted, Walk;
    WalkShown(h, v, [], 1000);
    if JsonEncoder.Expected(h, st, v).Text? {
      var d := Walk(h, v, [], 1000).doc;
      TextStandard(st, d, 0);
      assert Repeat(st.gap, 0) == [];
      assert Shown(h, v, d) && JsonEncoder.Expected(h, st, v).text == Standard(st.conv, st.gap, d, []);
    }
  }
}
