/** The recursive-descent parser.  It has no end-of-input checks: the text is followed by a NUL, no
    accepted text contains one, and the syntax checks stop at it. */
module JsonParser {
  import opened Bytes
  import opened Xutf8
  import opened JsonDocument
  import opened LookupTables

  const DEC_RECLIMIT: nat := 1000
  const DECSTR_CHUNK: nat := 64
  const MINUS: byte := 0x2d

  predicate IsWhite(b: byte) { b == 0x20 || b == 0x0a || b == 0x0d || b == 0x09 }

  predicate IsDigit(b: byte) { 0x30 <= b <= 0x39 }

  /** Bytes the lenient first pass over a number accepts: digits, '.', 'e', 'E', '-', '+'. */
  predicate IsNumberChar(b: byte) {
    IsDigit(b) || b == 0x2e || b == 0x65 || b == 0x45 || b == MINUS || b == 0x2b
  }

  // ----- what the parser computes, on what is left of the text -----

  datatype Parsed<+T> = Ok(value: T, rest: bytes) | SyntaxError | RangeError

  function EatWhite(s: bytes): (r: bytes)
    ensures |r| <= |s|
  {
    if s != [] && IsWhite(s[0]) then EatWhite(s[1..]) else s
  }

  function HexValue(b: byte): Option<nat> {
    if 0x30 <= b <= 0x39 then Some(b - 0x30)
    else if 0x41 <= b <= 0x46 then Some(b - 0x41 + 10)
    else if 0x61 <= b <= 0x66 then Some(b - 0x61 + 10)
    else None
  }

  /** `n` hex digits, accumulated behind `acc`. */
  function HexEscape(s: bytes, n: nat, acc: nat): (r: Option<(nat, bytes)>)
    ensures r.Some? ==> |r.value.1| + n == |s|
    decreases n
  {
    if n == 0 then Some((acc, s))
    else if s == [] || HexValue(s[0]).None? then None
    else HexEscape(s[1..], n - 1, acc * 16 + HexValue(s[0]).value)
  }

  /** The bytes an escape stands for; `s` starts behind the backslash. */
  function Unescape(s: bytes): (r: Option<(bytes, bytes)>)
    ensures r.Some? ==> |r.value.1| < |s|
  {
    if s == [] then None
    else if s[0] == BACKSLASH || s[0] == QUOTE || s[0] == 0x2f then Some((Encode(s[0]), s[1..]))
    else if s[0] == 0x74 then Some((Encode(0x09), s[1..]))
    else if s[0] == 0x6e then Some((Encode(0x0a), s[1..]))
    else if s[0] == 0x72 then Some((Encode(0x0d), s[1..]))
    else if s[0] == 0x66 then Some((Encode(0x0c), s[1..]))
    else if s[0] == 0x62 then Some((Encode(0x08), s[1..]))
    else if s[0] == 0x75 then
      match HexEscape(s[1..], 4, 0)
      case None => None
      case Some((cp, rest)) => if cp < CODEPOINTS then Some((Encode(cp), rest)) else None
    else None
  }

  /** A string's contents up to its closing quote. */
  function StringBody(s: bytes): (r: Option<(bytes, bytes)>)
    ensures r.Some? ==> |r.value.1| < |s|
    decreases |s|
  {
    if s == [] then None
    else if s[0] == QUOTE then Some(([], s[1..]))
    else if s[0] == BACKSLASH then
      match Unescape(s[1..])
      case None => None
      case Some((text, rest)) => Prepend(text, StringBody(rest))
    else if s[0] < 0x20 then None
    else Prepend([s[0]], StringBody(s[1..]))
  }

  function Prepend(text: bytes, r: Option<(bytes, bytes)>): (r': Option<(bytes, bytes)>)
    ensures r'.Some? <==> r.Some?
    ensures r.Some? ==> r'.value.1 == r.value.1
  {
    match r
    case None => None
    case Some((more, rest)) => Some((text + more, rest))
  }

  function NumberSpan(s: bytes): (n: nat)
    ensures n <= |s|
  {
    if s != [] && IsNumberChar(s[0]) then 1 + NumberSpan(s[1..]) else 0
  }

  /** Property definition: a repeated key gets a new value in its old place. */
  function Put(members: seq<Member>, key: bytes, doc: Doc): (r: seq<Member>)
    ensures r != []
  {
    if members == [] then [Member(key, doc)]
    else if members[0].key == key then [Member(key, doc)] + members[1..]
    else [members[0]] + Put(members[1..], key, doc)
  }

  function ParseValue(conv: NumConv, s: bytes, depth: nat): (r: Parsed<Doc>)
    ensures r.Ok? ==> |r.rest| < |s|
    decreases |s|, 0
  {
    var t := EatWhite(s);
    if t == [] then SyntaxError else
    var x, u := t[0], t[1..];
    if x == QUOTE then
      match StringBody(u)
      case None => SyntaxError
      case Some((str, rest)) => Ok(DStr(str), EatWhite(rest))
    else if IsDigit(x) || x == MINUS then
      var n := NumberSpan(t);
      match conv.parse(t[..n])
      case None => SyntaxError
      case Some(num) => Ok(DNum(num), EatWhite(t[n..]))
    else if x == TRUE_TEXT[0] then Keyword(u, TRUE_TEXT[1..], DBool(true))
    else if x == FALSE_TEXT[0] then Keyword(u, FALSE_TEXT[1..], DBool(false))
    else if x == NULL_TEXT[0] then Keyword(u, NULL_TEXT[1..], DNull)
    else if x == LCURLY then
      if depth >= DEC_RECLIMIT then RangeError else
      match ParseMembers(conv, u, depth + 1, [])
      case Ok(ms, rest) => Ok(DObj(ms), EatWhite(rest))
      case SyntaxError => SyntaxError
      case RangeError => RangeError
    else if x == LBRACKET then
      if depth >= DEC_RECLIMIT then RangeError else
      match ParseElems(conv, u, depth + 1, [])
      case Ok(docs, rest) => Ok(DArr(docs), EatWhite(rest))
      case SyntaxError => SyntaxError
      case RangeError => RangeError
    else SyntaxError
  }

  function Keyword(s: bytes, word: bytes, doc: Doc): (r: Parsed<Doc>)
    ensures r.Ok? ==> |r.rest| <= |s|
  {
    if word <= s then Ok(doc, EatWhite(s[|word|..])) else SyntaxError
  }

  /** The rest of an object whose first members are `members`. */
  function ParseMembers(conv: NumConv, s: bytes, depth: nat, members: seq<Member>): (r: Parsed<seq<Member>>)
    ensures r.Ok? ==> |r.rest| < |s|
    decreases |s|, 2
  {
    var t := EatWhite(s);
    if t == [] then SyntaxError
    else if t[0] == COMMA && members != [] then ParseMember(conv, EatWhite(t[1..]), depth, members)
    else if t[0] == RCURLY then Ok(members, t[1..])
    else if members == [] then ParseMember(conv, t, depth, members)
    else SyntaxError
  }

  /** A quoted key, a colon and a value. */
  function KeyValue(conv: NumConv, s: bytes, depth: nat): (r: Parsed<Member>)
    ensures r.Ok? ==> |r.rest| < |s|
    decreases |s|, 0
  {
    if s == [] || s[0] != QUOTE then SyntaxError else
    match StringBody(s[1..])
    case None => SyntaxError
    case Some((key, rest)) =>
      var t := EatWhite(rest);
      if t == [] || t[0] != COLON then SyntaxError else
      match ParseValue(conv, t[1..], depth)
      case SyntaxError => SyntaxError
      case RangeError => RangeError
      case Ok(doc, more) => Ok(Member(key, doc), more)
  }

  /** One more member, then the rest. */
  function ParseMember(conv: NumConv, s: bytes, depth: nat, members: seq<Member>): (r: Parsed<seq<Member>>)
    ensures r.Ok? ==> |r.rest| < |s|
    decreases |s|, 1
  {
    match KeyValue(conv, s, depth)
    case SyntaxError => SyntaxError
    case RangeError => RangeError
    case Ok(m, more) => ParseMembers(conv, more, depth, Put(members, m.key, m.doc))
  }

  /** The rest of an array whose first elements are `docs`. */
  function ParseElems(conv: NumConv, s: bytes, depth: nat, docs: seq<Doc>): (r: Parsed<seq<Doc>>)
    ensures r.Ok? ==> |r.rest| < |s|
    decreases |s|, 2
  {
    var t := EatWhite(s);
    if t == [] then SyntaxError
    else if t[0] == COMMA && docs != [] then ParseElem(conv, t[1..], depth, docs)
    else if t[0] == RBRACKET then Ok(docs, t[1..])
    else if docs == [] then ParseElem(conv, t, depth, docs)
    else SyntaxError
  }

  function ParseElem(conv: NumConv, s: bytes, depth: nat, docs: seq<Doc>): (r: Parsed<seq<Doc>>)
    ensures r.Ok? ==> |r.rest| < |s|
    decreases |s|, 1
  {
    match ParseValue(conv, s, depth)
    case SyntaxError => SyntaxError
    case RangeError => RangeError
    case Ok(doc, more) => ParseElems(conv, more, depth, docs + [doc])
  }

  /** The document a whole text stands for. */
  function Parse(conv: NumConv, text: bytes): Parsed<Doc> {
    match ParseValue(conv, text + [0], 0)
    case Ok(doc, rest) => if |rest| == 1 then Ok(doc, rest) else SyntaxError
    case SyntaxError => SyntaxError
    case RangeError => RangeError
  }

  // ----- the parser -----

  datatype DecResult<+T> = Done(value: T) | SyntaxFail | RangeFail

  /** The parsing context: a cursor into the text and its terminator. */
  class DecCtx {
    const conv: NumConv
    const buf: bytes
    const tables: bool  // a build with lookup tables or with comparisons
    var p: nat
    var depth: nat

    /** The cursor is on a readable byte: the text or its NUL. */
    predicate Valid()
      reads this
    {
      buf != [] && buf[|buf| - 1] == 0 && p < |buf| && depth <= DEC_RECLIMIT
    }

    function Left(): bytes
      requires p <= |buf|
      reads this
    {
      buf[p..]
    }

    constructor (conv: NumConv, text: bytes, tables: bool)
      ensures Valid() && this.conv == conv && buf == text + [0] && p == 0 && depth == 0
    {
      this.conv, this.tables := conv, tables;
      buf := text + [0];
      p, depth := 0, 0;
    }

    method EatWhiteSpace()
      requires Valid()
      modifies this`p
      ensures Valid() && Left() == EatWhite(old(Left())) && p >= old(p)
    {
      while true
        invariant Valid() && p >= old(p) && EatWhite(Left()) == EatWhite(old(Left()))
        decreases |buf| - p
      {
        assert Left()[1..] == buf[p + 1..];
        var white := IsWhiteByte(buf[p]);
        if !white { break; }
        p := p + 1;
      }
    }

    method IsWhiteByte(t: byte) returns (white: bool)
      ensures white == IsWhite(t)
    {
      hide Eatwhite;
      EatwhiteIs(t);
      if tables {
        white := Eatwhite(t) != 0;
      } else {
        white := t == 0x20 || t == 0x0a || t == 0x0d || t == 0x09;
      }
    }

    /** The next byte.  Only the terminating NUL leaves the cursor beyond the text. */
    method DecGet() returns (x: byte)
      requires Valid()
      modifies this`p
      ensures p == old(p) + 1 && x == buf[old(p)]
      ensures old(Left()) == [x] + Left()
      ensures x != 0 ==> Valid()
    {
      x := buf[p];
      p := p + 1;
    }

    method DecGetNonwhite() returns (x: byte)
      requires Valid()
      modifies this`p
      ensures old(p) < p <= |buf| && EatWhite(old(Left())) == [x] + Left()
      ensures x != 0 ==> Valid()
      ensures p > 0 && buf[p - 1] == x
    {
      EatWhiteSpace();
      x := DecGet();
    }

    /** Step back over the byte just read. */
    method Backtrack(ghost x: byte)
      requires 0 < p <= |buf| && buf[p - 1] == x && buf[|buf| - 1] == 0 && depth <= DEC_RECLIMIT
      modifies this`p
      ensures Valid() && p == old(p) - 1 && Left() == [x] + old(Left())
    {
      p := p - 1;
    }

    method DecodeHexEscape(n: nat) returns (r: Option<nat>)
      requires Valid()
      modifies this`p
      ensures match HexEscape(old(Left()), n, 0)
        case None => r.None?
        case Some((cp, rest)) => r == Some(cp) && Valid() && Left() == rest
      ensures r.Some? ==> Valid()
      ensures p >= old(p)
    {
      hide HexDectab;
      var res: nat := 0;
      var i := 0;
      while i < n
        invariant i <= n && Valid() && p >= old(p)
        invariant HexEscape(Left(), n - i, res) == HexEscape(old(Left()), n, 0)
      {
        var x := DecGet();
        var t := HexDectab(x);
        HexDectabIs(x);
        if t < 0 { return None; }
        res := res * 16 + t;
        i := i + 1;
      }
      return Some(res);
    }

    /** The remainder of a keyword whose first letter has been read. */
    method DecReqStr(word: bytes) returns (ok: bool)
      requires Valid() && forall b :: b in word ==> b != 0
      modifies this`p
      ensures ok == (word <= old(Left()))
      ensures ok ==> Valid() && Left() == old(Left())[|word|..] && p == old(p) + |word|
    {
      var i := 0;
      while i < |word|
        invariant i <= |word| && Valid()
        invariant p == old(p) + i && buf[old(p)..p] == word[..i]
      {
        ghost var q := p;
        var y := DecGet();
        if word[i] != y {
          assert old(Left())[i] == buf[q];
          return false;
        }
        assert word[i] in word;
        assert buf[old(p)..p] == buf[old(p)..q] + [y];
        i := i + 1;
      }
      assert old(Left())[..|word|] == buf[old(p)..p];
      return true;
    }

    method DecStringEscape() returns (r: Option<bytes>)
      requires Valid()
      modifies this`p
      ensures match Unescape(old(Left()))
        case None => r.None?
        case Some((text, rest)) => r == Some(text) && Valid() && Left() == rest
      ensures p >= old(p)
    {
      hide Encode, HexEscape;
      var cp: nat := DecGet();
      assert old(Left())[1..] == Left();
      if cp == BACKSLASH || cp == QUOTE || cp == 0x2f {
      } else if cp == 0x74 {
        cp := 0x09;
      } else if cp == 0x6e {
        cp := 0x0a;
      } else if cp == 0x72 {
        cp := 0x0d;
      } else if cp == 0x66 {
        cp := 0x0c;
      } else if cp == 0x62 {
        cp := 0x08;
      } else if cp == 0x75 {
        HexEscapeBound(Left(), 4, 0);
        var u := DecodeHexEscape(4);
        if u.None? { return None; }
        cp := u.value;
      } else {
        return None;
      }
      return Some(Encode(cp));
    }

    /** A string, in chunks of plain bytes; each escape ends a chunk. */
    method DecString() returns (r: Option<bytes>)
      requires Valid()
      modifies this`p
      ensures match StringBody(old(Left()))
        case None => r.None?
        case Some((text, rest)) => r == Some(text) && Valid() && Left() == rest
      ensures r.Some? ==> p > old(p)
    {
      hide Decstr;
      var out: bytes := [];
      PrependNothing(StringBody(Left()));
      while true
        invariant Valid() && p >= old(p)
        invariant Prepend(out, StringBody(Left())) == StringBody(old(Left()))
        decreases |buf| - p
      {
        var safe := DECSTR_CHUNK;
        ghost var start := p;
        while safe > 0
          invariant Valid() && p >= start >= old(p) && (safe < DECSTR_CHUNK ==> p > start)
          invariant Prepend(out, StringBody(Left())) == StringBody(old(Left()))
          decreases safe
        {
          safe := safe - 1;
          ghost var here := Left();
          var b := DecGet();
          assert here[1..] == Left();
          var x := Decstr(b);
          DecstrIs(b);
          if x != 0 {
            PrependTwice(out, [b], StringBody(Left()));
            out := out + [b];
          } else if b == QUOTE {
            assert out + [] == out;
            return Some(out);
          } else if b == BACKSLASH {
            var e := DecStringEscape();
            if e.None? { return None; }
            PrependTwice(out, e.value, StringBody(Left()));
            out := out + e.value;
            break;
          } else {
            return None;
          }
        }
      }
    }

    /** A parse step gave what the specification gives, and left the cursor where it does. */
    ghost predicate Agrees<T>(r: DecResult<T>, spec: Parsed<T>)
      reads this
    {
      match spec
      case Ok(v, rest) => r == Done(v) && Valid() && Left() == rest
      case SyntaxError => r == SyntaxFail
      case RangeError => r == RangeFail
    }

    method IsNumberByte(t: byte) returns (more: bool)
      ensures more == IsNumberChar(t)
    {
      hide Decnumber;
      DecnumberIs(t);
      if tables {
        more := Decnumber(t) != 0;
      } else {
        more := (0x30 <= t && t <= 0x39) || t == 0x2e || t == 0x65 || t == 0x45 || t == MINUS || t == 0x2b;
      }
    }

    /** Extent of a number first, strict parsing of its text second. */
    method DecNumber() returns (r: DecResult<Num>)
      requires Valid()
      modifies this`p
      ensures var n := NumberSpan(old(Left()));
        match conv.parse(old(Left())[..n])
        case None => r == SyntaxFail
        case Some(num) => r == Done(num) && Valid() && Left() == old(Left())[n..] && p == old(p) + n
    {
      var start := p;
      while true
        invariant Valid() && start <= p
        invariant NumberSpan(buf[start..]) == p - start + NumberSpan(Left())
        decreases |buf| - p
      {
        assert Left()[1..] == buf[p + 1..];
        var more := IsNumberByte(buf[p]);
        if !more { break; }
        p := p + 1;
      }
      assert buf[start..][..p - start] == buf[start..p];
      match conv.parse(buf[start..p]) {
        case None => return SyntaxFail;
        case Some(num) => return Done(num);
      }
    }

    /** The member whose first byte `x` has been read. */
    method DecKeyValue(x: byte) returns (r: DecResult<Member>)
      requires p <= |buf| && (x != 0 ==> Valid())
      modifies this
      ensures Agrees(r, KeyValue(conv, [x] + old(Left()), old(depth)))
      ensures r.Done? ==> depth == old(depth) && p > old(p)
      decreases |buf| - p, 1
    {
      hide StringBody, EatWhite, ParseValue;
      if x != QUOTE { return SyntaxFail; }
      assert ([x] + Left())[1..] == Left();
      var key := DecString();
      if key.None? { return SyntaxFail; }
      var y := DecGetNonwhite();
      if y != COLON { return SyntaxFail; }
      var v := DecValue();
      match v {
        case SyntaxFail => return SyntaxFail;
        case RangeFail => return RangeFail;
        case Done(doc) => return Done(Member(key.value, doc));
      }
    }

    method DecObject() returns (r: DecResult<seq<Member>>)
      requires Valid()
      modifies this
      ensures Agrees(r, if old(depth) >= DEC_RECLIMIT then RangeError else ParseMembers(conv, old(Left()), old(depth) + 1, []))
      ensures r.Done? ==> depth == old(depth) && p > old(p)
      decreases |buf| - p, 2
    {
      hide EatWhite, KeyValue;
      if depth >= DEC_RECLIMIT { return RangeFail; }
      depth := depth + 1;
      var members: seq<Member> := [];
      while true
        invariant Valid() && p >= old(p) && depth == old(depth) + 1
        invariant ParseMembers(conv, Left(), depth, members) == ParseMembers(conv, old(Left()), depth, [])
        decreases |buf| - p
      {
        ghost var t := EatWhite(Left());
        var x := DecGetNonwhite();
        assert t[1..] == Left();
        if x == COMMA && members != [] {
          x := DecGetNonwhite();
        } else if x == RCURLY {
          depth := depth - 1;
          return Done(members);
        } else if members != [] {
          return SyntaxFail;
        }
        var m := DecKeyValue(x);
        match m {
          case SyntaxFail => return SyntaxFail;
          case RangeFail => return RangeFail;
          case Done(kv) => members := Put(members, kv.key, kv.doc);
        }
      }
    }

    method DecArray() returns (r: DecResult<seq<Doc>>)
      requires Valid()
      modifies this
      ensures Agrees(r, if old(depth) >= DEC_RECLIMIT then RangeError else ParseElems(conv, old(Left()), old(depth) + 1, []))
      ensures r.Done? ==> depth == old(depth) && p > old(p)
      decreases |buf| - p, 1
    {
      hide EatWhite, ParseValue;
      if depth >= DEC_RECLIMIT { return RangeFail; }
      depth := depth + 1;
      var docs: seq<Doc> := [];
      while true
        invariant Valid() && p >= old(p) && depth == old(depth) + 1
        invariant ParseElems(conv, Left(), depth, docs) == ParseElems(conv, old(Left()), depth, [])
        decreases |buf| - p
      {
        ghost var t := EatWhite(Left());
        var x := DecGetNonwhite();
        assert t[1..] == Left();
        if x == COMMA && docs != [] {
        } else if x == RBRACKET {
          depth := depth - 1;
          return Done(docs);
        } else if docs == [] {
          Backtrack(x);
        } else {
          return SyntaxFail;
        }
        var v := DecValue();
        match v {
          case SyntaxFail => return SyntaxFail;
          case RangeFail => return RangeFail;
          case Done(doc) => docs := docs + [doc];
        }
      }
    }

    /** The rest of a keyword that stands for `doc`. */
    method DecKeyword(word: bytes, doc: Doc) returns (r: DecResult<Doc>)
      requires Valid() && forall b :: b in word ==> b != 0
      modifies this`p
      ensures r == if word <= old(Left()) then Done(doc) else SyntaxFail
      ensures r.Done? ==> p >= old(p) && Valid() && Keyword(old(Left()), word, doc) == Ok(doc, EatWhite(Left()))
      ensures r.SyntaxFail? ==> Keyword(old(Left()), word, doc) == SyntaxError
    {
      hide EatWhite;
      var ok := DecReqStr(word);
      r := if ok then Done(doc) else SyntaxFail;
    }

    method DecValue() returns (r: DecResult<Doc>)
      requires Valid()
      modifies this
      ensures Agrees(r, ParseValue(conv, old(Left()), old(depth)))
      ensures r.Done? ==> depth == old(depth) && p > old(p)
      decreases |buf| - p, 0
    {
      hide StringBody, EatWhite, NumberSpan, ParseMembers, ParseElems, ParseMember, ParseElem, Keyword;
      ghost var spec := ParseValue(conv, Left(), depth);
      ghost var start := p;
      var x := DecGetNonwhite();
      if x == QUOTE {
        var str := DecString();
        if str.None? { return SyntaxFail; }
        r := Done(DStr(str.value));
        assert spec == Ok(r.value, EatWhite(Left()));
      } else if IsDigit(x) || x == MINUS {
        Backtrack(x);
        assert NumberSpan(Left()) > 0 by { NumberSpanStart(Left()); }
        var num := DecNumber();
        if num.SyntaxFail? { return SyntaxFail; }
        r := Done(DNum(num.value));
        assert spec == Ok(r.value, EatWhite(Left()));
      } else if x == TRUE_TEXT[0] {
        r := DecKeyword(TRUE_TEXT[1..], DBool(true));
        if r.SyntaxFail? { return; }
      } else if x == FALSE_TEXT[0] {
        r := DecKeyword(FALSE_TEXT[1..], DBool(false));
        if r.SyntaxFail? { return; }
      } else if x == NULL_TEXT[0] {
        r := DecKeyword(NULL_TEXT[1..], DNull);
        if r.SyntaxFail? { return; }
      } else if x == LCURLY {
        var ms := DecObject();
        match ms {
          case SyntaxFail => return SyntaxFail;
          case RangeFail => return RangeFail;
          case Done(members) => r := Done(DObj(members)); assert spec == Ok(r.value, EatWhite(Left()));
        }
      } else if x == LBRACKET {
        var ds := DecArray();
        match ds {
          case SyntaxFail => return SyntaxFail;
          case RangeFail => return RangeFail;
          case Done(docs) => r := Done(DArr(docs)); assert spec == Ok(r.value, EatWhite(Left()));
        }
      } else {
        return SyntaxFail;
      }
      assert p > start;
      EatWhiteSpace();
    }

    /** JSON.parse() without a reviver: on every text whatsoever the cursor stays on the text and its
        terminator, and a document is accepted only if it ends exactly at the terminator. */
    method ParseText() returns (r: DecResult<Doc>)
      requires Valid() && p == 0 && depth == 0
      modifies this
      ensures match Parse(conv, buf[..|buf| - 1])
        case Ok(doc, _) => r == Done(doc) && p == |buf| - 1
        case SyntaxError => r == SyntaxFail
        case RangeError => r == RangeFail
    {
      assert Left() == buf[..|buf| - 1] + [0];
      r := DecValue();
      if r.Done? && p != |buf| - 1 {
        return SyntaxFail;
      }
    }
  }

  lemma NumberSpanStart(s: bytes)
    ensures NumberSpan(s) > 0 <==> s != [] && IsNumberChar(s[0])
  {
  }

  function Pow16(n: nat): nat
    requires n <= 4
  {
    if n == 0 then 1 else if n == 1 then 0x10 else if n == 2 then 0x100 else if n == 3 then 0x1000 else 0x10000
  }

  lemma {:induction false} HexEscapeBound(s: bytes, n: nat, acc: nat)
    requires n <= 4
    ensures var r := HexEscape(s, n, acc); r.Some? ==> r.value.0 < (acc + 1) * Pow16(n)
    decreases n
  {
    if n > 0 && s != [] && HexValue(s[0]).Some? {
      HexEscapeBound(s[1..], n - 1, acc * 16 + HexValue(s[0]).value);
    }
  }

  lemma PrependNothing(r: Option<(bytes, bytes)>)
    ensures Prepend([], r) == r
  {
    if r.Some? { assert [] + r.value.0 == r.value.0; }
  }

  lemma PrependTwice(a: bytes, b: bytes, r: Option<(bytes, bytes)>)
    ensures Prepend(a, Prepend(b, r)) == Prepend(a + b, r)
  {
    if r.Some? { assert a + (b + r.value.0) == a + b + r.value.0; }
  }
}
