/** What JSON.stringify() serializes and the text it stands for: the heap of objects the serializer
    walks, the finite documents that walk can produce, and the text of a document. */
module JsonDocument {
  import opened Bytes
  import opened Xutf8

  /** Identity of a heap object. */
  type Ref = nat

  /** A finite double, by an arbitrary numbering: number formatting and parsing are parameters. */
  type Num = int

  datatype NumConv = NumConv(text: Num -> bytes, parse: bytes -> Option<Num>)

  /** A tagged value. `NonFinite` is NaN or an infinity; buffers and pointers share `Opaque`. */
  datatype Val =
    | Undefined | Null | Bool(b: bool) | Number(n: Num) | NonFinite | Str(s: bytes)
    | LightFunc | Opaque | Object(ref: Ref)

  /** A property table slot that is in use. */
  datatype Entry = Entry(key: bytes, enumerable: bool, val: Val)

  datatype Node =
    | FunctionObj
    | ArrayObj(slots: seq<Option<Val>>)      // None: an unused slot of the array part
    | PlainObj(entries: seq<Option<Entry>>)  // None: a deleted slot of the entry part

  type Heap = map<Ref, Node>

  /** Internal keys start with a byte no valid string can start with. */
  predicate Internal(key: bytes) { key != [] && key[0] == 0xff }

  predicate Visible(e: Option<Entry>) { e.Some? && e.value.enumerable && !Internal(e.value.key) }

  ghost predicate ValInHeap(h: Heap, v: Val) { v.Object? ==> v.ref in h }

  ghost predicate DistinctKeys(entries: seq<Option<Entry>>) {
    forall i, j :: 0 <= i < j < |entries| && entries[i].Some? && entries[j].Some? ==>
      entries[i].value.key != entries[j].value.key
  }

  ghost predicate NodeValid(h: Heap, n: Node) {
    match n
    case FunctionObj => true
    case ArrayObj(slots) => forall i :: 0 <= i < |slots| && slots[i].Some? ==> ValInHeap(h, slots[i].value)
    case PlainObj(entries) =>
      DistinctKeys(entries) &&
      forall i :: 0 <= i < |entries| && entries[i].Some? ==> ValInHeap(h, entries[i].value.val)
  }

  /** Every reference an object holds is to an object of the heap, and keys are unique. */
  ghost predicate HeapValid(h: Heap) { forall r {:trigger NodeValid(h, h[r])} :: r in h ==> NodeValid(h, h[r]) }

  // ----- documents -----

  datatype Doc =
    | DNull | DBool(b: bool) | DNum(n: Num) | DStr(s: bytes)
    | DArr(elems: seq<Doc>) | DObj(members: seq<Member>)

  datatype Member = Member(key: bytes, doc: Doc)

  // ----- document text -----

  const QUOTE: byte := 0x22
  const BACKSLASH: byte := 0x5c
  const COMMA: byte := 0x2c
  const COLON: byte := 0x3a
  const SPACE: byte := 0x20
  const NEWLINE: byte := 0x0a
  const LBRACKET: byte := 0x5b
  const RBRACKET: byte := 0x5d
  const LCURLY: byte := 0x7b
  const RCURLY: byte := 0x7d

  const NULL_TEXT: bytes := [0x6e, 0x75, 0x6c, 0x6c]
  const TRUE_TEXT: bytes := [0x74, 0x72, 0x75, 0x65]
  const FALSE_TEXT: bytes := [0x66, 0x61, 0x6c, 0x73, 0x65]

  function HexDigit(n: int): byte
    requires 0 <= n < 16
  {
    if n < 10 then 0x30 + n else 0x61 + (n - 10)
  }

  /** The `\uXXXX` escape of a 16-bit codepoint. */
  function EscapeU(cp: int): (r: bytes)
    requires 0 <= cp < 0x10000
    ensures |r| == 6
  {
    [BACKSLASH, 0x75, HexDigit(cp / 0x1000), HexDigit(cp / 0x100 % 16), HexDigit(cp / 0x10 % 16), HexDigit(cp % 16)]
  }

  /** How an ASCII byte appears inside quotes. */
  function QuoteAscii(b: byte): bytes
    requires b < 0x80
  {
    if b == QUOTE || b == BACKSLASH then [BACKSLASH, b]
    else if b == 0x08 then [BACKSLASH, 0x62]
    else if b == 0x09 then [BACKSLASH, 0x74]
    else if b == 0x0a then [BACKSLASH, 0x6e]
    else if b == 0x0c then [BACKSLASH, 0x66]
    else if b == 0x0d then [BACKSLASH, 0x72]
    else if b < 0x20 then EscapeU(b)
    else [b]
  }

  /** How a codepoint from the non-ASCII path appears: line separators are escaped for the benefit
      of script readers, everything else is re-encoded. */
  function QuoteWide(cp: codepoint): bytes {
    if cp == 0x2028 || cp == 0x2029 then EscapeU(cp) else Encode(cp)
  }

  /** The text for the codepoint at the start of `s` and the bytes it takes; a byte that does not
      decode is taken as a codepoint itself. */
  function QuoteStep(s: bytes): (r: (bytes, nat))
    requires s != []
    ensures 1 <= r.1 <= |s|
  {
    if s[0] < 0x80 then (QuoteAscii(s[0]), 1)
    else match Decode(s)
      case Some((cp, n)) => (QuoteWide(cp), n)
      case None => (QuoteWide(s[0]), 1)
  }

  /** The text between the quotes. */
  function QuoteBody(s: bytes): bytes
    decreases |s|
  {
    if s == [] then [] else QuoteStep(s).0 + QuoteBody(s[QuoteStep(s).1..])
  }

  function Quote(s: bytes): bytes { [QUOTE] + QuoteBody(s) + [QUOTE] }

  /** Line break and indentation, nothing when no gap is in use. */
  function Indent(gap: bytes, depth: nat): bytes {
    if gap == [] then [] else [NEWLINE] + Repeat(gap, depth)
  }

  function ColonText(gap: bytes): bytes { if gap == [] then [COLON] else [COLON, SPACE] }

  datatype Style = Style(conv: NumConv, gap: bytes)

  /** The text of a document nested `depth` levels deep. */
  function DocText(st: Style, d: Doc, depth: nat): bytes
    decreases d, 1
  {
    match d
    case DNull => NULL_TEXT
    case DBool(b) => if b then TRUE_TEXT else FALSE_TEXT
    case DNum(n) => st.conv.text(n)
    case DStr(s) => Quote(s)
    case DArr(elems) =>
      [LBRACKET] + ElemsText(st, elems, depth + 1) + Closing(st, |elems|, depth) + [RBRACKET]
    case DObj(members) =>
      [LCURLY] + MembersText(st, members, depth + 1) + Closing(st, |members|, depth) + [RCURLY]
  }

  /** The line break before a closing bracket, for non-empty contents only. */
  function Closing(st: Style, count: nat, depth: nat): bytes {
    if count == 0 then [] else Indent(st.gap, depth)
  }

  /** One array element on its own line. */
  function ElemText(st: Style, d: Doc, depth: nat): bytes
    decreases d, 2
  {
    Indent(st.gap, depth) + DocText(st, d, depth)
  }

  /** One object member on its own line. */
  function MemberText(st: Style, m: Member, depth: nat): bytes
    decreases m, 0
  {
    Indent(st.gap, depth) + Quote(m.key) + ColonText(st.gap) + DocText(st, m.doc, depth)
  }

  /** Comma-separated elements at indentation `depth`. */
  function ElemsText(st: Style, elems: seq<Doc>, depth: nat): bytes
    decreases elems, 0
  {
    if elems == [] then []
    else if |elems| == 1 then ElemText(st, elems[0], depth)
    else ElemText(st, elems[0], depth) + ([COMMA] + ElemsText(st, elems[1..], depth))
  }

  /** Comma-separated members at indentation `depth`. */
  function MembersText(st: Style, members: seq<Member>, depth: nat): bytes
    decreases members, 0
  {
    if members == [] then []
    else if |members| == 1 then MemberText(st, members[0], depth)
    else MemberText(st, members[0], depth) + ([COMMA] + MembersText(st, members[1..], depth))
  }

  function Separator(count: nat): bytes { if count == 0 then [] else [COMMA] }

  lemma {:induction false} ElemsTextSnoc(st: Style, elems: seq<Doc>, d: Doc, depth: nat)
    ensures ElemsText(st, elems + [d], depth) ==
      ElemsText(st, elems, depth) + Separator(|elems|) + ElemText(st, d, depth)
  {
    if elems == [] {
      assert elems + [d] == [d];
    } else {
      var head, last := ElemText(st, elems[0], depth), ElemText(st, d, depth);
      var rest := ElemsText(st, elems[1..], depth);
      calc {
        ElemsText(st, elems + [d], depth);
        { assert (elems + [d])[1..] == elems[1..] + [d]; }
        head + ([COMMA] + ElemsText(st, elems[1..] + [d], depth));
        { ElemsTextSnoc(st, elems[1..], d, depth); }
        head + ([COMMA] + (rest + Separator(|elems| - 1) + last));
        { if |elems| == 1 { assert ElemsText(st, elems, depth) == head && rest == []; } else { assert ElemsText(st, elems, depth) == head + ([COMMA] + rest); } }
        ElemsText(st, elems, depth) + [COMMA] + last;
      }
    }
  }

  lemma {:induction false} MembersTextSnoc(st: Style, members: seq<Member>, m: Member, depth: nat)
    ensures MembersText(st, members + [m], depth) ==
      MembersText(st, members, depth) + Separator(|members|) + MemberText(st, m, depth)
  {
    if members == [] {
      assert members + [m] == [m];
    } else {
      var head, last := MemberText(st, members[0], depth), MemberText(st, m, depth);
      var rest := MembersText(st, members[1..], depth);
      calc {
        MembersText(st, members + [m], depth);
        { assert (members + [m])[1..] == members[1..] + [m]; }
        head + ([COMMA] + MembersText(st, members[1..] + [m], depth));
        { MembersTextSnoc(st, members[1..], m, depth); }
        head + ([COMMA] + (rest + Separator(|members| - 1) + last));
        { if |members| == 1 { assert MembersText(st, members, depth) == head && rest == []; } else { assert MembersText(st, members, depth) == head + ([COMMA] + rest); } }
        MembersText(st, members, depth) + [COMMA] + last;
      }
    }
  }

  // ----- the walk over the heap -----

  /** Why serialization fails: an object inside itself, or nesting beyond the recursion limit. */
  datatype WalkError = Cyclic | TooDeep

  /** What a value denotes; `Absent` is an undefined result, left out of objects. */
  datatype Walked = Document(doc: Doc) | Absent | Failed(error: WalkError)

  datatype WalkedElems = Elems(docs: seq<Doc>) | ElemsFailed(error: WalkError)
  datatype WalkedMembers = Members(members: seq<Member>) | MembersFailed(error: WalkError)

  /** The document `v` denotes when reached through the objects on `path`, outermost first. */
  function Walk(h: Heap, v: Val, path: seq<Ref>, limit: nat): Walked
    requires |path| <= limit
    decreases limit - |path|, 0, 1
  {
    match v
    case Undefined => Absent
    case Null => Document(DNull)
    case Bool(b) => Document(DBool(b))
    case Number(n) => Document(DNum(n))
    case NonFinite => Document(DNull)
    case Str(s) => Document(DStr(s))
    case LightFunc => Absent
    case Opaque => Absent
    case Object(ref) =>
      if ref !in h || h[ref].FunctionObj? then Absent
      else if ref in path then Failed(Cyclic)
      else if |path| >= limit then Failed(TooDeep)
      else if h[ref].ArrayObj? then
        match WalkElems(h, h[ref].slots, path + [ref], limit)
        case Elems(docs) => Document(DArr(docs))
        case ElemsFailed(e) => Failed(e)
      else
        match WalkMembers(h, h[ref].entries, path + [ref], limit)
        case Members(ms) => Document(DObj(ms))
        case MembersFailed(e) => Failed(e)
  }

  /** Array elements left to right, up to the first failure; missing and undefined ones become null. */
  function WalkElems(h: Heap, slots: seq<Option<Val>>, path: seq<Ref>, limit: nat): (r: WalkedElems)
    requires |path| <= limit
    ensures r.Elems? ==> |r.docs| == |slots|
    decreases limit - |path|, |slots| + 1, 0
  {
    if slots == [] then Elems([]) else
    var last := slots[|slots| - 1];
    match WalkElems(h, slots[..|slots| - 1], path, limit)
    case ElemsFailed(e) => ElemsFailed(e)
    case Elems(docs) =>
      if last.None? then Elems(docs + [DNull]) else
      match Walk(h, last.value, path, limit)
      case Failed(e) => ElemsFailed(e)
      case Absent => Elems(docs + [DNull])
      case Document(d) => Elems(docs + [d])
  }

  /** Visible properties in table order, up to the first failure; undefined ones are left out. */
  function WalkMembers(h: Heap, entries: seq<Option<Entry>>, path: seq<Ref>, limit: nat): WalkedMembers
    requires |path| <= limit
    decreases limit - |path|, |entries| + 1, 0
  {
    if entries == [] then Members([]) else
    var last := entries[|entries| - 1];
    match WalkMembers(h, entries[..|entries| - 1], path, limit)
    case MembersFailed(e) => MembersFailed(e)
    case Members(ms) =>
      if !Visible(last) then Members(ms) else
      match Walk(h, last.value.val, path, limit)
      case Failed(e) => MembersFailed(e)
      case Absent => Members(ms)
      case Document(d) => Members(ms + [Member(last.value.key, d)])
  }
}
