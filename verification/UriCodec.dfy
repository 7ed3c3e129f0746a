/** encodeURI, decodeURI, their Component forms, escape and unescape: one codepoint at a time. */
module UriCodec {
  import opened Bytes
  import opened LookupTables
  import opened Xutf8

  const PERCENT: byte := 0x25
  const LC_U: byte := 0x75

  // ----- character classes as bit tables -----

  function Bit(i: nat): bv8
    requires i < 8
  {
    match i
    case 0 => 0x01
    case 1 => 0x02
    case 2 => 0x04
    case 3 => 0x08
    case 4 => 0x10
    case 5 => 0x20
    case 6 => 0x40
    case 7 => 0x80
  }

  /** First character in the lowest bit. */
  function MkBits(a: bv8, b: bv8, c: bv8, d: bv8, e: bv8, f: bv8, g: bv8, h: bv8): bv8 {
    a | (b << 1) | (c << 2) | (d << 3) | (e << 4) | (f << 5) | (g << 6) | (h << 7)
  }

  type Table = t: seq<bv8> | |t| == 16 witness [0, 0, 0, 0, 0, 0, 0, 0, 0, 0, 0, 0, 0, 0, 0, 0]

  const URI_UNESCAPED: Table := [
    0, 0, 0, 0,
    MkBits(0, 1, 0, 1, 1, 0, 1, 1), MkBits(1, 1, 1, 1, 1, 1, 1, 1),
    MkBits(1, 1, 1, 1, 1, 1, 1, 1), MkBits(1, 1, 1, 1, 0, 1, 0, 1),
    MkBits(1, 1, 1, 1, 1, 1, 1, 1), MkBits(1, 1, 1, 1, 1, 1, 1, 1),
    MkBits(1, 1, 1, 1, 1, 1, 1, 1), MkBits(1, 1, 1, 0, 0, 0, 0, 1),
    MkBits(0, 1, 1, 1, 1, 1, 1, 1), MkBits(1, 1, 1, 1, 1, 1, 1, 1),
    MkBits(1, 1, 1, 1, 1, 1, 1, 1), MkBits(1, 1, 1, 0, 0, 0, 1, 0)]

  const URI_COMPONENT_UNESCAPED: Table := [
    0, 0, 0, 0,
    MkBits(0, 1, 0, 0, 0, 0, 0, 1), MkBits(1, 1, 1, 0, 0, 1, 1, 0),
    MkBits(1, 1, 1, 1, 1, 1, 1, 1), MkBits(1, 1, 0, 0, 0, 0, 0, 0),
    MkBits(0, 1, 1, 1, 1, 1, 1, 1), MkBits(1, 1, 1, 1, 1, 1, 1, 1),
    MkBits(1, 1, 1, 1, 1, 1, 1, 1), MkBits(1, 1, 1, 0, 0, 0, 0, 1),
    MkBits(0, 1, 1, 1, 1, 1, 1, 1), MkBits(1, 1, 1, 1, 1, 1, 1, 1),
    MkBits(1, 1, 1, 1, 1, 1, 1, 1), MkBits(1, 1, 1, 0, 0, 0, 1, 0)]

  const URI_RESERVED: Table := [
    0, 0, 0, 0,
    MkBits(0, 0, 0, 1, 1, 0, 1, 0), MkBits(0, 0, 0, 1, 1, 0, 0, 1),
    0, MkBits(0, 0, 1, 1, 0, 1, 0, 1),
    MkBits(1, 0, 0, 0, 0, 0, 0, 0), 0,
    0, 0, 0, 0, 0, 0]

  const URI_COMPONENT_RESERVED: Table := [0, 0, 0, 0, 0, 0, 0, 0, 0, 0, 0, 0, 0, 0, 0, 0]

  const ESCAPE_UNESCAPED: Table := [
    0, 0, 0, 0,
    0, MkBits(0, 0, 1, 1, 0, 1, 1, 1),
    MkBits(1, 1, 1, 1, 1, 1, 1, 1), MkBits(1, 1, 0, 0, 0, 0, 0, 0),
    MkBits(1, 1, 1, 1, 1, 1, 1, 1), MkBits(1, 1, 1, 1, 1, 1, 1, 1),
    MkBits(1, 1, 1, 1, 1, 1, 1, 1), MkBits(1, 1, 1, 0, 0, 0, 0, 1),
    MkBits(0, 1, 1, 1, 1, 1, 1, 1), MkBits(1, 1, 1, 1, 1, 1, 1, 1),
    MkBits(1, 1, 1, 1, 1, 1, 1, 1), MkBits(1, 1, 1, 0, 0, 0, 0, 0)]

  predicate InTable(table: Table, cp: int)
    requires 0 <= cp < 0x80
  {
    table[cp / 8] & Bit(cp % 8) != 0
  }

  function Unescaped(component: bool): Table { if component then URI_COMPONENT_UNESCAPED else URI_UNESCAPED }

  function Reserved(component: bool): Table { if component then URI_COMPONENT_RESERVED else URI_RESERVED }

  /** No set of unescaped characters holds the percent sign. */
  lemma PercentIsEscaped()
    ensures !InTable(URI_UNESCAPED, 0x25) && !InTable(URI_COMPONENT_UNESCAPED, 0x25) && !InTable(ESCAPE_UNESCAPED, 0x25)
  {
  }

  lemma MaskSubset(r: bv8, u: bv8, m: bv8)
    requires r & u == r && r & m != 0
    ensures u & m != 0
  {
  }

  /** What decoding leaves escaped, encoding never escapes. */
  lemma ReservedIsUnescaped(component: bool, cp: int)
    requires 0 <= cp < 0x80 && InTable(Reserved(component), cp)
    ensures InTable(Unescaped(component), cp)
  {
    ReservedMasks(component, cp / 8);
    MaskSubset(Reserved(component)[cp / 8], Unescaped(component)[cp / 8], Bit(cp % 8));
  }

  lemma ReservedMasks(component: bool, i: int)
    requires 0 <= i < 16
    ensures Reserved(component)[i] & Unescaped(component)[i] == Reserved(component)[i]
  {
    if component { assert Reserved(component)[i] == 0; }
  }

  // ----- hex -----

  const UC_NYBBLES: bytes := [0x30, 0x31, 0x32, 0x33, 0x34, 0x35, 0x36, 0x37, 0x38, 0x39, 0x41, 0x42, 0x43, 0x44, 0x45, 0x46]

  /** Value of a hex digit, -1 for anything else. */
  function HexDigit(ch: byte): (t: int)
    ensures -1 <= t < 16
  {
    if 0x30 <= ch <= 0x39 then ch as int - 0x30
    else if 0x41 <= ch <= 0x46 then ch as int - 0x41 + 10
    else if 0x61 <= ch <= 0x66 then ch as int - 0x61 + 10
    else -1
  }

  function Pow16(n: nat): (p: nat)
    ensures p > 0
  {
    if n == 0 then 1 else 16 * Pow16(n - 1)
  }

  lemma HexBounds()
    ensures Pow16(2) == 0x100 && Pow16(4) == 0x10000
  {
    assert Pow16(4) == 16 * (16 * Pow16(2));
  }

  /** The value of the first `n` hex digits, -1 if one is not a hex digit. */
  function HexValue(s: bytes, n: nat): (t: int)
    requires n <= |s|
    ensures -1 <= t < Pow16(n)
  {
    if n == 0 then 0 else
    var head := HexValue(s, n - 1);
    var digit := HexDigit(s[n - 1]);
    if head < 0 || digit < 0 then -1 else head * 16 + digit
  }

  method DecodeHexEscape(s: bytes, start: nat, n: nat) returns (t: int)
    requires start + n <= |s|
    ensures t == HexValue(s[start..], n)
  {
    hide HexDectab;
    t := 0;
    var p := start;
    while p < start + n
      invariant start <= p <= start + n && t >= 0 && t == HexValue(s[start..], p - start)
    {
      t := t * 16;
      var ch := HexDectab(s[p]);
      HexDectabIs(s[p]);
      if ch >= 0 {
        t := t + ch;
      } else {
        HexFails(s[start..], p + 1 - start, n);
        return -1;
      }
      p := p + 1;
    }
  }

  lemma {:induction false} HexFails(s: bytes, k: nat, n: nat)
    requires k <= n <= |s| && HexValue(s, k) < 0
    ensures HexValue(s, n) == -1
  {
    if k < n { HexFails(s, k, n - 1); }
  }

  function HexByte(b: byte): bytes { [UC_NYBBLES[b / 16], UC_NYBBLES[b % 16]] }

  /** `%XX`. */
  function Pct(b: byte): (r: bytes)
    ensures |r| == 3
  {
    [PERCENT] + HexByte(b)
  }

  function PctAll(s: bytes): (r: bytes)
    ensures |r| == 3 * |s|
  {
    if s == [] then [] else Pct(s[0]) + PctAll(s[1..])
  }

  lemma NybbleReads(n: int)
    requires 0 <= n < 16
    ensures HexDigit(UC_NYBBLES[n]) == n && UC_NYBBLES[n] < 0x80
  {
  }

  lemma HexByteReads(b: byte, rest: bytes)
    ensures HexValue(HexByte(b) + rest, 2) == b
  {
    hide HexDigit;
    var s := HexByte(b) + rest;
    NybbleReads(b / 16);
    NybbleReads(b % 16);
    assert HexValue(s, 1) == b / 16;
  }

  // ----- what one call of a callback does -----

  datatype Kind = EncodeUri(component: bool) | DecodeUri(component: bool) | Escape | Unescape

  /** Bytes written and further input bytes consumed; None throws. */
  type Step = Option<(bytes, nat)>

  function JoinSurrogates(hi: int, lo: int): int { (hi - 0xd800) * 0x400 + (lo - 0xdc00) + 0x10000 }

  function EncodeUriStep(table: Table, cp: codepoint, rest: bytes): (r: Step)
    ensures r.Some? ==> r.value.1 <= |rest|
  {
    if cp >= 0x80000000 then None
    else if cp < 0x80 && InTable(table, cp) then Some(([cp], 0))
    else if 0xdc00 <= cp <= 0xdfff then None
    else if 0xd800 <= cp <= 0xdbff then
      match Decode(rest)
      case None => None
      case Some((lo, n)) =>
        if 0xdc00 <= lo <= 0xdfff then Some((PctAll(Encode(JoinSurrogates(cp, lo))), n)) else None
    else if cp > 0x10ffff then None
    else Some((PctAll(Encode(cp)), 0))
  }

  /** The codepoint of an `n`-byte sequence of escapes: `acc` holds the bits of the first `i` bytes. */
  function Gather(acc: int, s: bytes, i: nat, n: nat): Option<int>
    requires |s| >= n * 3 - 1
    decreases n - i
  {
    if i >= n then Some(acc) else
    var t := HexValue(s[3 * i..], 2);
    if 0x80 <= t < 0xc0 then Gather(acc * 64 + t % 64, s, i + 1, n) else None
  }

  /** CESU-8: codepoints beyond the BMP as surrogate pairs. */
  function Cesu(cp: int): bytes
    requires 0 <= cp <= 0x10ffff
  {
    if cp >= 0x10000 then
      Encode((cp - 0x10000) / 0x400 + 0xd800) + Encode((cp - 0x10000) % 0x400 + 0xdc00)
    else Encode(cp)
  }

  predicate Scalar(cp: int) { 0 <= cp <= 0x10ffff && !(0xd800 <= cp <= 0xdfff) }

  function MultiByte(t: int, n: nat, s: bytes): Step
    requires 0xc0 <= t < 0xf8 && 2 <= n <= 4
  {
    if |s| < n * 3 - 1 then None else
    var bits := if n == 2 then t % 0x20 else if n == 3 then t % 0x10 else t % 0x08;
    var minCp := if n == 2 then 0x80 else if n == 3 then 0x800 else 0x10000;
    match Gather(bits, s, 1, n)
    case None => None
    case Some(cp) => if cp >= minCp && Scalar(cp) then Some((Cesu(cp), n * 3 - 1)) else None
  }

  /** After a percent sign. */
  function DecodeUriStep(table: Table, s: bytes): (r: Step)
    ensures r.Some? ==> r.value.1 <= |s|
  {
    if |s| < 2 then None else
    var t := HexValue(s, 2);
    if t < 0 then None
    else if t < 0x80 then Some((if InTable(table, t) then [PERCENT, s[0], s[1]] else [t], 2))
    else if t < 0xc0 || t >= 0xf8 then None
    else MultiByte(t, if t < 0xe0 then 2 else if t < 0xf0 then 3 else 4, s)
  }

  function EscapeStep(cp: codepoint): Option<bytes> {
    if cp >= 0x80000000 then None
    else if cp < 0x80 && InTable(ESCAPE_UNESCAPED, cp) then Some([cp])
    else if cp < 0x100 then Some(Pct(cp))
    else if cp < 0x10000 then Some([PERCENT, LC_U] + HexByte(cp / 0x100) + HexByte(cp % 0x100))
    else None
  }

  /** After a percent sign: the character escaped, or a lone percent sign. */
  function UnescapeStep(s: bytes): (r: (int, nat))
    ensures 0 <= r.0 < 0x10000 && r.1 <= |s|
  {
    HexBounds();
    if |s| >= 5 && s[0] == LC_U && HexValue(s[1..], 4) >= 0 then (HexValue(s[1..], 4), 5)
    else if |s| >= 2 && HexValue(s, 2) >= 0 then (HexValue(s, 2), 2)
    else (0x25, 0)
  }

  function CallbackStep(kind: Kind, cp: codepoint, rest: bytes): (r: Step)
    ensures r.Some? ==> r.value.1 <= |rest|
  {
    match kind
    case EncodeUri(component) => EncodeUriStep(Unescaped(component), cp, rest)
    case DecodeUri(component) =>
      if cp == 0x25 then DecodeUriStep(Reserved(component), rest) else Some((Encode(cp), 0))
    case Escape =>
      (match EscapeStep(cp)
       case None => None
       case Some(out) => Some((out, 0)))
    case Unescape =>
      if cp == 0x25 then Some((Encode(UnescapeStep(rest).0), UnescapeStep(rest).1)) else Some((Encode(cp), 0))
  }

  function Prepend(a: bytes, b: Option<bytes>): Option<bytes> {
    match b
    case None => None
    case Some(v) => Some(a + v)
  }

  /** The whole text. */
  function Transform(kind: Kind, s: bytes): Option<bytes>
    decreases |s|
  {
    if s == [] then Some([]) else
    match Decode(s)
    case None => None
    case Some((cp, n)) =>
      match CallbackStep(kind, cp, s[n..])
      case None => None
      case Some((out, k)) => Prepend(out, Transform(kind, s[n..][k..]))
  }

  // ----- the transform -----

  class TransformContext {
    const str: bytes
    var p: nat
    var bw: bytes

    constructor (s: bytes)
      ensures str == s && p == 0 && bw == []
    {
      str := s;
      p, bw := 0, [];
    }

    /** What a callback did: the step expected of it, or nothing but failing. */
    twostate predicate Did(step: Step, ok: bool)
      reads this
    {
      match step
      case None => !ok
      case Some((out, k)) => ok && bw == old(bw) + out && p == old(p) + k
    }

    method WriteEscaped(s: bytes)
      modifies this`bw
      ensures bw == old(bw) + PctAll(s)
    {
      ghost var b := bw;
      var i := 0;
      assert s[0..] == s;
      while i < |s|
        invariant i <= |s| && bw + PctAll(s[i..]) == b + PctAll(s)
      {
        var t := s[i];
        assert s[i..][1..] == s[i + 1..];
        Cat(bw, Pct(t), PctAll(s[i + 1..]));
        bw := bw + [PERCENT, UC_NYBBLES[t / 16], UC_NYBBLES[t % 16]];
        i := i + 1;
      }
      assert bw + [] == bw;
    }

    /** duk__transform_callback_encode_uri(). */
    method CallbackEncodeUri(table: Table, cp: codepoint) returns (ok: bool)
      requires p <= |str|
      modifies this
      ensures Did(EncodeUriStep(table, cp, old(str[p..])), ok)
    {
      hide Encode, Decode, InTable;
      var cp1: int := cp;
      if cp >= 0x80000000 {
        return false;
      } else if cp < 0x80 && InTable(table, cp) {
        bw := bw + [cp];
        return true;
      } else if cp >= 0xdc00 && cp <= 0xdfff {
        return false;
      } else if cp >= 0xd800 && cp <= 0xdbff {
        var next := Decode(str[p..]);
        if next.None? {
          return false;
        }
        var (cp2, n) := next.value;
        p := p + n;
        if !(cp2 >= 0xdc00 && cp2 <= 0xdfff) {
          return false;
        }
        cp1 := (cp - 0xd800) * 0x400 + (cp2 - 0xdc00) + 0x10000;
      } else if cp > 0x10ffff {
        return false;
      }
      WriteEscaped(Encode(cp1));
      ok := true;
    }

    /** The bytes of a multi-byte sequence after the first; `p0` is at the digits of the first. */
    method GatherEscapes(p0: nat, bits: int, n: nat) returns (r: Option<int>)
      requires p0 + n * 3 - 1 <= |str| && 1 <= n
      ensures r == Gather(bits, str[p0..], 1, n)
    {
      hide HexValue;
      var cp := bits;
      var q := p0 + 3;
      var i := 1;
      while i < n
        invariant 1 <= i <= n && q == p0 + 3 * i
        invariant Gather(bits, str[p0..], 1, n) == Gather(cp, str[p0..], i, n)
      {
        assert str[p0..][3 * i..] == str[q..];
        var t := DecodeHexEscape(str, q, 2);
        if t < 0 {
          return None;
        }
        if !(0x80 <= t < 0xc0) {
          return None;
        }
        cp := cp * 64 + t % 64;
        q := q + 3;
        i := i + 1;
      }
      r := Some(cp);
    }

    method MultiByteEscape(t: int, n: nat) returns (ok: bool)
      requires 0xc0 <= t < 0xf8 && 2 <= n <= 4 && p <= |str|
      modifies this
      ensures Did(MultiByte(t, n, old(str[p..])), ok)
    {
      hide Gather, Encode;
      var cp := if n == 2 then t % 0x20 else if n == 3 then t % 0x10 else t % 0x08;
      var minCp := if n == 2 then 0x80 else if n == 3 then 0x800 else 0x10000;
      if |str| - p < n * 3 - 1 {
        return false;
      }
      var r := GatherEscapes(p, cp, n);
      if r.None? {
        return false;
      }
      cp := r.value;
      p := p + n * 3 - 1;
      if cp < minCp || cp > 0x10ffff || (cp >= 0xd800 && cp <= 0xdfff) {
        return false;
      }
      if cp >= 0x10000 {
        cp := cp - 0x10000;
        bw := bw + Encode(cp / 0x400 + 0xd800);
        bw := bw + Encode(cp % 0x400 + 0xdc00);
      } else {
        bw := bw + Encode(cp);
      }
      ok := true;
    }

    /** duk__transform_callback_decode_uri(). */
    method CallbackDecodeUri(table: Table, cp: codepoint) returns (ok: bool)
      requires p <= |str|
      modifies this
      ensures Did(if cp == 0x25 then DecodeUriStep(table, old(str[p..])) else Some((Encode(cp), 0)), ok)
    {
      hide Encode, InTable, HexValue, MultiByte;
      if cp != 0x25 {
        bw := bw + Encode(cp);
        return true;
      }
      if |str| - p < 2 {
        return false;
      }
      var t := DecodeHexEscape(str, p, 2);
      if t < 0 {
        return false;
      }
      if t < 0x80 {
        if InTable(table, t) {
          bw := bw + [PERCENT, str[p], str[p + 1]];
        } else {
          bw := bw + [t];
        }
        p := p + 2;
        return true;
      }
      if t < 0xc0 {
        return false;
      } else if t < 0xe0 {
        ok := MultiByteEscape(t, 2);
      } else if t < 0xf0 {
        ok := MultiByteEscape(t, 3);
      } else if t < 0xf8 {
        ok := MultiByteEscape(t, 4);
      } else {
        return false;
      }
    }

    /** duk__transform_callback_escape(). */
    method CallbackEscape(cp: codepoint) returns (ok: bool)
      modifies this
      ensures Did(match EscapeStep(cp) { case None => None case Some(out) => Some((out, 0)) }, ok)
    {
      hide InTable, HexByte;
      if 0x100 <= cp < 0x10000 { FourDigits(cp); }
      TwoDigits(cp);
      if cp >= 0x80000000 {
        return false;
      } else if cp < 0x80 && InTable(ESCAPE_UNESCAPED, cp) {
        bw := bw + [cp];
      } else if cp < 0x100 {
        bw := bw + [PERCENT, UC_NYBBLES[cp / 16], UC_NYBBLES[cp % 16]];
      } else if cp < 0x10000 {
        Cat([PERCENT, LC_U], HexByte(cp / 0x100), HexByte(cp % 0x100));
        bw := bw + [PERCENT, LC_U, UC_NYBBLES[cp / 0x1000], UC_NYBBLES[cp / 0x100 % 16], UC_NYBBLES[cp / 16 % 16], UC_NYBBLES[cp % 16]];
      } else {
        return false;
      }
      ok := true;
    }

    /** duk__transform_callback_unescape(). */
    method CallbackUnescape(cp: codepoint) returns (ok: bool)
      requires p <= |str|
      modifies this
      ensures Did(Some(if cp == 0x25 then (Encode(UnescapeStep(old(str[p..])).0), UnescapeStep(old(str[p..])).1) else (Encode(cp), 0)), ok)
    {
      hide Encode, HexValue;
      var out: codepoint := cp;
      if cp == 0x25 {
        ghost var s := str[p..];
        HexBounds();
        var t := -1;
        if |str| - p >= 5 && str[p] == LC_U {
          t := DecodeHexEscape(str, p + 1, 4);
          assert s[1..] == str[p + 1..];
        }
        if t >= 0 {
          out := t;
          p := p + 5;
        } else if |str| - p >= 2 {
          t := DecodeHexEscape(str, p, 2);
          if t >= 0 {
            out := t;
            p := p + 2;
          }
        }
      }
      bw := bw + Encode(out);
      ok := true;
    }

    method Callback(kind: Kind, cp: codepoint) returns (ok: bool)
      requires p <= |str|
      modifies this
      ensures Did(CallbackStep(kind, cp, old(str[p..])), ok)
    {
      hide EncodeUriStep, DecodeUriStep, EscapeStep, UnescapeStep, Encode;
      match kind {
        case EncodeUri(component) => ok := CallbackEncodeUri(Unescaped(component), cp);
        case DecodeUri(component) => ok := CallbackDecodeUri(Reserved(component), cp);
        case Escape => ok := CallbackEscape(cp);
        case Unescape => ok := CallbackUnescape(cp);
      }
    }

    /** duk__transform_helper(). */
    method Run(kind: Kind) returns (ok: bool)
      requires p == 0 && bw == []
      modifies this
      ensures Transform(kind, str) == if ok then Some(bw) else None
    {
      hide Decode, CallbackStep;
      assert str[0..] == str;
      PrependNothing(Transform(kind, str));
      while p < |str|
        invariant p <= |str| && Prepend(bw, Transform(kind, str[p..])) == Transform(kind, str)
        decreases |str| - p
      {
        ghost var s, b := str[p..], bw;
        var next := Decode(str[p..]);
        if next.None? {
          return false;
        }
        var (cp, n) := next.value;
        p := p + n;
        assert s[n..] == str[p..];
        ghost var step := CallbackStep(kind, cp, s[n..]);
        ok := Callback(kind, cp);
        if !ok {
          return false;
        }
        assert s[n..][step.value.1..] == str[p..];
        PrependTwice(b, step.value.0, Transform(kind, str[p..]));
      }
      assert str[p..] == [] && bw + [] == bw;
      ok := true;
    }
  }

  lemma TwoDigits(cp: int)
    ensures 0 <= cp < 0x100 ==> Pct(cp) == [PERCENT, UC_NYBBLES[cp / 16], UC_NYBBLES[cp % 16]]
  {
  }

  lemma Nybbles(cp: int)
    requires 0 <= cp < 0x10000
    ensures cp / 0x100 / 16 == cp / 0x1000 && cp % 0x100 / 16 == cp / 16 % 16 && cp % 0x100 % 16 == cp % 16
  {
  }

  lemma FourDigits(cp: int)
    requires 0 <= cp < 0x10000
    ensures HexByte(cp / 0x100) + HexByte(cp % 0x100) ==
      [UC_NYBBLES[cp / 0x1000], UC_NYBBLES[cp / 0x100 % 16], UC_NYBBLES[cp / 16 % 16], UC_NYBBLES[cp % 16]]
  {
    Nybbles(cp);
  }

  lemma Cat(a: bytes, b: bytes, c: bytes)
    ensures a + b + c == a + (b + c)
  {
  }

  lemma PrependNothing(c: Option<bytes>)
    ensures Prepend([], c) == c
  {
    if c.Some? { assert [] + c.value == c.value; }
  }

  lemma PrependTwice(a: bytes, b: bytes, c: Option<bytes>)
    ensures Prepend(a, Prepend(b, c)) == Prepend(a + b, c)
  {
    if c.Some? { assert a + (b + c.value) == a + b + c.value; }
  }

  // ----- what encoding accepts and what it gives -----

  predicate High(cp: int) { 0xd800 <= cp <= 0xdbff }

  predicate Low(cp: int) { 0xdc00 <= cp <= 0xdfff }

  /** Every surrogate has its partner and no codepoint is beyond Unicode. */
  predicate WellPaired(cps: seq<codepoint>) {
    if cps == [] then true
    else if High(cps[0]) then |cps| > 1 && Low(cps[1]) && WellPaired(cps[2..])
    else !Low(cps[0]) && cps[0] <= 0x10ffff && WellPaired(cps[1..])
  }

  /** Surrogate pairs joined: the Unicode scalar values of a string. */
  function Joined(cps: seq<codepoint>): (r: seq<codepoint>)
    requires WellPaired(cps)
    ensures forall cp :: cp in r ==> Scalar(cp)
  {
    if cps == [] then []
    else if High(cps[0]) then [JoinSurrogates(cps[0], cps[1])] + Joined(cps[2..])
    else [cps[0]] + Joined(cps[1..])
  }

  /** The escaped text of scalar values. */
  function UriText(table: Table, cps: seq<codepoint>): bytes {
    if cps == [] then []
    else (if cps[0] < 0x80 && InTable(table, cps[0]) then [cps[0]] else PctAll(Encode(cps[0]))) + UriText(table, cps[1..])
  }

  /** One codepoint of a transform whose callback consumes nothing more. */
  lemma TransformFirst(kind: Kind, cp: codepoint, rest: bytes)
    ensures var step := CallbackStep(kind, cp, rest);
      Transform(kind, Encode(cp) + rest) ==
      if step.None? then None else Prepend(step.value.0, Transform(kind, rest[step.value.1..]))
  {
    hide Encode, Decode, CallbackStep;
    var s := Encode(cp) + rest;
    DecodeEncode(cp, rest);
    assert s[Length(cp)..] == rest;
  }

  /** Encoding succeeds exactly when surrogates are paired and no codepoint exceeds U+10FFFF; it then
      gives the escaped UTF-8 of the scalar values. */
  lemma {:induction false} EncodeUriExact(component: bool, cps: seq<codepoint>)
    ensures Transform(EncodeUri(component), EncodeAll(cps)) ==
      if WellPaired(cps) then Some(UriText(Unescaped(component), Joined(cps))) else None
    decreases |cps|
  {
    hide Encode, Decode, Transform, InTable;
    var table := Unescaped(component);
    if cps == [] {
      NothingToDo(EncodeUri(component));
    } else {
      var cp, rest := cps[0], EncodeAll(cps[1..]);
      TransformFirst(EncodeUri(component), cp, rest);
      if High(cp) {
        if |cps| > 1 {
          var more := EncodeAll(cps[2..]);
          assert cps[1..][1..] == cps[2..];
          DecodeEncode(cps[1], more);
          assert rest == Encode(cps[1]) + more && rest[Length(cps[1])..] == more;
          EncodeUriExact(component, cps[2..]);
        } else {
          assert rest == [] && Decode(rest) == None by { NothingDecodes(); }
        }
      } else {
        assert rest[0..] == rest;
        EncodeUriExact(component, cps[1..]);
      }
    }
  }

  lemma NothingToDo(kind: Kind)
    ensures Transform(kind, []) == Some([])
  {
  }

  lemma NothingDecodes()
    ensures Decode([]) == None
  {
  }

  // ----- decoding what encoding gave -----

  lemma {:induction false} PctAt(bs: bytes, rest: bytes, i: nat)
    requires i < |bs|
    ensures (PctAll(bs) + rest)[3 * i..] == Pct(bs[i]) + (PctAll(bs[i + 1..]) + rest)
  {
    hide Pct;
    var s := PctAll(bs) + rest;
    if i == 0 {
      assert s == Pct(bs[0]) + (PctAll(bs[1..]) + rest);
    } else {
      var tail := PctAll(bs[1..]) + rest;
      assert s == Pct(bs[0]) + tail;
      assert s[3 * i..] == tail[3 * (i - 1)..];
      PctAt(bs[1..], rest, i - 1);
      assert bs[1..][i..] == bs[i + 1..];
    }
  }

  /** The digits of byte `i` of an escaped sequence, seen from behind its first percent sign. */
  lemma OctetReads(bs: bytes, rest: bytes, i: nat)
    requires i < |bs|
    ensures var s := (PctAll(bs) + rest)[1..];
      3 * i + 2 <= |s| && HexValue(s[3 * i..], 2) == bs[i]
  {
    hide HexByte, HexValue, PctAll;
    var all := PctAll(bs) + rest;
    var more := PctAll(bs[i + 1..]) + rest;
    PctAt(bs, rest, i);
    HexByteReads(bs[i], more);
    assert Pct(bs[i]) + more == [PERCENT] + (HexByte(bs[i]) + more);
    assert all[1..][3 * i..] == all[3 * i..][1..] == HexByte(bs[i]) + more;
  }

  /** The escapes in `s`, from behind the first percent sign on, denote the bytes `bs`; what stands
      between them is not looked at. */
  ghost predicate Octets(s: bytes, bs: bytes) {
    |s| >= 3 * |bs| - 1 && forall i {:trigger bs[i]} :: 0 <= i < |bs| ==> HexValue(s[3 * i..], 2) == bs[i]
  }

  lemma OctetsOfText(bs: bytes, rest: bytes)
    requires bs != []
    ensures Octets((PctAll(bs) + rest)[1..], bs)
  {
    hide HexValue, PctAll;
    forall i | 0 <= i < |bs| ensures HexValue((PctAll(bs) + rest)[1..][3 * i..], 2) == bs[i] {
      OctetReads(bs, rest, i);
    }
  }

  lemma {:induction false} GatherReads(s: bytes, bs: bytes, i: nat, acc: nat)
    requires 1 <= i <= |bs| && Octets(s, bs) && forall j :: i <= j < |bs| ==> 0x80 <= bs[j] < 0xc0
    ensures Gather(acc, s, i, |bs|) == Some(Accumulate(acc, bs[i..], |bs| - i))
    decreases |bs| - i
  {
    hide HexValue;
    if i < |bs| {
      GatherReads(s, bs, i + 1, acc * 64 + bs[i] % 64);
      assert bs[i..][1..] == bs[i + 1..];
    }
  }

  /** Encoding of a scalar value beyond ASCII: first byte, number of bytes, value gathered. */
  lemma EncodingGathers(cp: codepoint)
    requires 0x80 <= cp <= 0x10ffff
    ensures var bs, n := Encode(cp), Length(cp);
      2 <= n <= 4 && |bs| == n && 0xc0 <= bs[0] < 0xf8 && (n == 2 <==> bs[0] < 0xe0) && (n <= 3 <==> bs[0] < 0xf0) &&
      (forall j :: 1 <= j < n ==> 0x80 <= bs[j] < 0xc0) &&
      Accumulate(if n == 2 then bs[0] % 0x20 else if n == 3 then bs[0] % 0x10 else bs[0] % 0x08, bs[1..], n - 1) == cp
  {
    hide Accumulate, Continuation, Marker, Capacity;
    var n := Length(cp);
    LeadFits(cp);
    LeadPayload(cp);
    var c := Capacity(n - 1);
    var tail := Continuation(cp % c, n - 1);
    AccumulateContinuation(cp / c, cp % c, n - 1, []);
    assert tail + [] == tail && Encode(cp)[1..] == tail;
  }

  /** `s`, from behind a percent sign on, is the escaped shortest form of `cp`. */
  ghost predicate Escapes(s: bytes, cp: codepoint) {
    Scalar(cp) && cp >= 0x80 && Octets(s, Encode(cp))
  }

  /** The escaped shortest form of a scalar value decodes to it. */
  lemma MultiByteReads(s: bytes, cp: codepoint, table: Table)
    requires Escapes(s, cp)
    ensures DecodeUriStep(table, s) == Some((Cesu(cp), 3 * Length(cp) - 1))
  {
    hide HexValue, Encode, Gather, Cesu, Accumulate, InTable;
    var bs, n := Encode(cp), Length(cp);
    EncodingGathers(cp);
    assert s[3 * 0..] == s && HexValue(s[3 * 0..], 2) == bs[0];
    GatherReads(s, bs, 1, if n == 2 then bs[0] % 0x20 else if n == 3 then bs[0] % 0x10 else bs[0] % 0x08);
  }

  lemma Strict2(x: int, y: int)
    requires 0 <= x < 0x20 && 0 <= y < 64 && x * 64 + y >= 0x80
    ensures Encode(x * 64 + y) == [0xc0 + x, 0x80 + y]
  {
    hide Continuation;
    var cp := x * 64 + y;
    assert cp / 64 == x && cp % 64 == y;
    LastContinuation(y);
  }

  lemma LastContinuation(y: int)
    requires 0 <= y < 64
    ensures Continuation(y, 1) == [0x80 + y]
  {
    ContinuationStep(y, 1, y, 0);
  }

  lemma TwoContinuations(y: int, z: int)
    requires 0 <= y < 64 && 0 <= z < 64
    ensures Continuation(y * 64 + z, 2) == [0x80 + y, 0x80 + z]
  {
    hide Continuation;
    assert (y * 64 + z) / 64 == y && (y * 64 + z) % 64 == z;
    ContinuationStep(y * 64 + z, 2, y, z);
    LastContinuation(z);
  }

  lemma Strict3(x: int, y: int, z: int)
    requires 0 <= x < 0x10 && 0 <= y < 64 && 0 <= z < 64 && (x * 64 + y) * 64 + z >= 0x800
    ensures Encode((x * 64 + y) * 64 + z) == [0xe0 + x, 0x80 + y, 0x80 + z]
  {
    hide Continuation;
    var cp := (x * 64 + y) * 64 + z;
    assert cp / 0x1000 == x && cp % 0x1000 == y * 64 + z;
    TwoContinuations(y, z);
  }

  lemma Strict4(x: int, y: int, z: int, w: int)
    requires 0 <= x < 8 && 0 <= y < 64 && 0 <= z < 64 && 0 <= w < 64 && ((x * 64 + y) * 64 + z) * 64 + w >= 0x10000
    ensures Encode(((x * 64 + y) * 64 + z) * 64 + w) == [0xf0 + x, 0x80 + y, 0x80 + z, 0x80 + w]
  {
    hide Continuation;
    var cp := ((x * 64 + y) * 64 + z) * 64 + w;
    var low := (y * 64 + z) * 64 + w;
    assert cp / 0x40000 == x && cp % 0x40000 == low;
    assert low / 0x1000 == y && low % 0x1000 == z * 64 + w;
    ContinuationStep(low, 3, y, z * 64 + w);
    TwoContinuations(z, w);
  }

  lemma GatherStep(acc: int, s: bytes, i: nat, n: nat)
    requires i < n && |s| >= n * 3 - 1 && Gather(acc, s, i, n).Some?
    ensures var b := HexValue(s[3 * i..], 2);
      0x80 <= b < 0xc0 && Gather(acc, s, i, n) == Gather(acc * 64 + (b - 0x80), s, i + 1, n)
  {
    hide HexValue;
  }

  lemma GatherEnd(acc: int, s: bytes, n: nat)
    requires |s| >= n * 3 - 1
    ensures Gather(acc, s, n, n) == Some(acc)
  {
  }

  /** The accepted value of a sequence starting with `t`. */
  lemma Accepted2(t: int, s: bytes) returns (cp: codepoint)
    requires |s| >= 2 && HexValue(s, 2) == t && 0xc0 <= t < 0xe0 && MultiByte(t, 2, s).Some?
    ensures Escapes(s, cp)
  {
    hide HexValue, Encode, Cesu, Gather;
    assert s[3 * 0..] == s;
    var x, b := t - 0xc0, HexValue(s[3 * 1..], 2);
    assert t % 0x20 == x;
    GatherStep(x, s, 1, 2);
    cp := x * 64 + (b - 0x80);
    GatherEnd(cp, s, 2);
    Strict2(x, b - 0x80);
  }

  lemma Accepted3(t: int, s: bytes) returns (cp: codepoint)
    requires |s| >= 2 && HexValue(s, 2) == t && 0xe0 <= t < 0xf0 && MultiByte(t, 3, s).Some?
    ensures Escapes(s, cp)
  {
    hide HexValue, Encode, Cesu, Gather;
    assert s[3 * 0..] == s;
    var x, b, c := t - 0xe0, HexValue(s[3 * 1..], 2), HexValue(s[3 * 2..], 2);
    assert t % 0x10 == x;
    GatherStep(x, s, 1, 3);
    GatherStep(x * 64 + (b - 0x80), s, 2, 3);
    cp := (x * 64 + (b - 0x80)) * 64 + (c - 0x80);
    GatherEnd(cp, s, 3);
    Strict3(x, b - 0x80, c - 0x80);
  }

  lemma Accepted4(t: int, s: bytes) returns (cp: codepoint)
    requires |s| >= 2 && HexValue(s, 2) == t && 0xf0 <= t < 0xf8 && MultiByte(t, 4, s).Some?
    ensures Escapes(s, cp)
  {
    hide HexValue, Encode, Cesu, Gather;
    assert s[3 * 0..] == s;
    var x, b, c, d := t - 0xf0, HexValue(s[3 * 1..], 2), HexValue(s[3 * 2..], 2), HexValue(s[3 * 3..], 2);
    assert t % 0x08 == x;
    GatherStep(x, s, 1, 4);
    GatherStep(x * 64 + (b - 0x80), s, 2, 4);
    GatherStep((x * 64 + (b - 0x80)) * 64 + (c - 0x80), s, 3, 4);
    cp := ((x * 64 + (b - 0x80)) * 64 + (c - 0x80)) * 64 + (d - 0x80);
    GatherEnd(cp, s, 4);
    Strict4(x, b - 0x80, c - 0x80, d - 0x80);
  }

  /** An accepted multi-byte escape is the shortest form of a scalar value. */
  lemma AcceptedIsShortest(s: bytes, table: Table) returns (cp: codepoint)
    requires |s| >= 2 && HexValue(s, 2) >= 0x80 && DecodeUriStep(table, s).Some?
    ensures Escapes(s, cp)
  {
    hide HexValue, MultiByte, Escapes, InTable;
    var t := HexValue(s, 2);
    if t < 0xe0 {
      cp := Accepted2(t, s);
    } else if t < 0xf0 {
      cp := Accepted3(t, s);
    } else {
      cp := Accepted4(t, s);
    }
  }

  /** Decoding accepts a multi-byte escape exactly when its bytes are the shortest form of a codepoint from
      U+0080 to U+10FFFF that is not a surrogate. */
  lemma MultiByteExact(s: bytes, table: Table)
    requires |s| >= 2 && HexValue(s, 2) >= 0x80
    ensures DecodeUriStep(table, s).Some? <==> exists cp: codepoint :: Escapes(s, cp)
  {
    hide HexValue, DecodeUriStep, Escapes;
    if DecodeUriStep(table, s).Some? {
      var cp := AcceptedIsShortest(s, table);
    } else if cp: codepoint :| Escapes(s, cp) {
      MultiByteReads(s, cp, table);
    }
  }

  /** `s` is the bytes `bs` escaped one by one, in digits of either case. */
  predicate EscapedText(s: bytes, bs: bytes) {
    if bs == [] then s == []
    else |s| >= 3 && s[0] == PERCENT && HexValue(s[1..], 2) == bs[0] && EscapedText(s[3..], bs[1..])
  }

  /** Each of `n` escapes but the first has its percent sign; `s` starts behind the first one. */
  predicate Separated(s: bytes, n: nat)
    requires |s| >= 3 * n - 1
  {
    forall i {:trigger Separator(i)} :: 0 < i < n ==> s[Separator(i)] == PERCENT
  }

  /** Where the percent sign of escape `i` belongs. */
  function Separator(i: int): int { 3 * i - 1 }

  /** An escape that is accepted is one the grammar has exactly if its percent signs are there. */
  lemma AcceptedGrammatical(s: bytes, cp: codepoint)
    requires Escapes(s, cp)
    ensures EscapedText([PERCENT] + s[..3 * Length(cp) - 1], Encode(cp)) <==> Separated(s, Length(cp))
  {
    hide HexValue, Encode;
    var n := Length(cp);
    var t := s[..3 * n - 1];
    forall i | 0 <= i < n ensures HexValue(t[3 * i..], 2) == Encode(cp)[i] {
      TwoDigitsOnly(t[3 * i..], s[3 * i..]);
    }
    SeparatedText(t, Encode(cp));
  }

  lemma {:induction false} SeparatedText(s: bytes, bs: bytes)
    requires bs != [] && |s| == 3 * |bs| - 1 && Octets(s, bs)
    ensures EscapedText([PERCENT] + s, bs) <==> Separated(s, |bs|)
    decreases |bs|
  {
    hide HexValue;
    var t := [PERCENT] + s;
    assert t[1..] == s && s[3 * 0..] == s;
    if |bs| == 1 {
      assert t[3..] == [] && bs[1..] == [];
    } else {
      var more := s[3..];
      assert t[3..] == [s[2]] + more;
      forall i | 0 <= i < |bs| - 1 ensures HexValue(more[3 * i..], 2) == bs[1..][i] {
        assert more[3 * i..] == s[3 * (i + 1)..] && bs[1..][i] == bs[i + 1];
      }
      SeparatedText(more, bs[1..]);
      SeparatedRest(s, |bs|);
      if s[2] == PERCENT {
        assert t[3..] == [PERCENT] + more;
      }
    }
  }

  lemma SeparatedRest(s: bytes, n: nat)
    requires n > 1 && |s| == 3 * n - 1
    ensures Separated(s, n) <==> s[2] == PERCENT && Separated(s[3..], n - 1)
  {
    assert Separator(1) == 2;
    if Separated(s, n) {
      forall i | 0 < i < n - 1 ensures s[3..][Separator(i)] == PERCENT {
        assert s[3..][Separator(i)] == s[Separator(i + 1)];
      }
    }
    if s[2] == PERCENT && Separated(s[3..], n - 1) {
      forall i | 0 < i < n ensures s[Separator(i)] == PERCENT {
        assert i > 1 ==> s[Separator(i)] == s[3..][Separator(i - 1)];
      }
    }
  }

  lemma TwoDigitsOnly(s: bytes, t: bytes)
    requires |s| >= 2 && |t| >= 2 && s[..2] == t[..2]
    ensures HexValue(s, 2) == HexValue(t, 2)
  {
    assert s[0] == s[..2][0] && t[0] == t[..2][0] && s[1] == s[..2][1] && t[1] == t[..2][1];
    assert HexValue(s, 1) == HexValue(t, 1);
  }

  /** Texts that differ only where separators belong. */
  ghost predicate SameDigits(s: bytes, t: bytes) {
    |s| == |t| && forall k :: 0 <= k < |s| && k % 3 != 2 ==> s[k] == t[k]
  }

  /** What separates the escapes of one codepoint changes neither whether they are accepted nor what they
      stand for. */
  lemma SeparatorsIgnored(s: bytes, t: bytes, table: Table)
    requires SameDigits(s, t) && |s| >= 2 && HexValue(s, 2) >= 0x80
    ensures DecodeUriStep(table, s) == DecodeUriStep(table, t)
  {
    hide HexValue, InTable, Cesu, Scalar;
    TwoDigitsOnly(s, t);
    var v := HexValue(s, 2);
    if 0xc0 <= v < 0xf8 {
      var n := if v < 0xe0 then 2 else if v < 0xf0 then 3 else 4;
      if |s| >= 3 * n - 1 {
        SameGathered(if n == 2 then v % 0x20 else if n == 3 then v % 0x10 else v % 0x08, s, t, 1, n);
      }
    }
  }

  lemma {:induction false} SameGathered(acc: int, s: bytes, t: bytes, i: nat, n: nat)
    requires SameDigits(s, t) && |s| >= 3 * n - 1
    ensures Gather(acc, s, i, n) == Gather(acc, t, i, n)
    decreases n - i
  {
    hide HexValue;
    if i < n {
      assert s[3 * i] == t[3 * i] && s[3 * i + 1] == t[3 * i + 1];
      TwoDigitsOnly(s[3 * i..], t[3 * i..]);
      SameGathered(acc * 64 + HexValue(s[3 * i..], 2) % 64, s, t, i + 1, n);
    }
  }

  /** So "C3xA9" is taken like "C3%A9". */
  lemma SeparatorIgnored(table: Table)
    ensures DecodeUriStep(table, [0x43, 0x33, 0x78, 0x41, 0x39]) == Some((Encode(0xe9), 5))
  {
    hide DecodeUriStep, Encode, HexValue;
    var s: bytes := [0x43, 0x33, 0x78, 0x41, 0x39];
    Strict2(3, 0x29);
    HexPair(s[3 * 0..], 0xc, 3);
    HexPair(s[3 * 1..], 0xa, 9);
    MultiByteReads(s, 0xe9, table);
  }

  lemma HexPair(s: bytes, a: int, b: int)
    requires |s| >= 2 && HexDigit(s[0]) == a && HexDigit(s[1]) == b && 0 <= a && 0 <= b
    ensures HexValue(s, 2) == a * 16 + b
  {
    assert HexValue(s, 1) == a;
  }

  lemma AsciiReads(cp: codepoint, rest: bytes, table: Table)
    requires cp < 0x80 && !InTable(table, cp)
    ensures var s := (PctAll(Encode(cp)) + rest)[1..];
      DecodeUriStep(table, s) == Some(([cp], 2)) && s[2..] == rest
  {
    hide HexValue, InTable, HexByte;
    var s := (PctAll(Encode(cp)) + rest)[1..];
    OctetReads(Encode(cp), rest, 0);
    assert s[3 * 0..] == s;
    assert PctAll(Encode(cp)) == Pct(cp) by { assert PctAll([]) == []; assert Encode(cp) == [cp] && [cp][1..] == []; assert Pct(cp) + [] == Pct(cp); }
  }

  /** Text starting with an escape. */
  lemma TransformEscape(kind: Kind, bs: bytes, rest: bytes)
    requires bs != []
    ensures var s := (PctAll(bs) + rest)[1..];
      var step := CallbackStep(kind, 0x25, s);
      Transform(kind, PctAll(bs) + rest) == if step.None? then None else Prepend(step.value.0, Transform(kind, s[step.value.1..]))
  {
    hide CallbackStep, Transform, HexByte;
    var all := PctAll(bs) + rest;
    assert all == Encode(0x25) + all[1..];
    TransformFirst(kind, 0x25, all[1..]);
  }

  function CesuAll(cps: seq<codepoint>): bytes
    requires forall cp :: cp in cps ==> Scalar(cp)
  {
    if cps == [] then [] else
    assert Scalar(cps[0]);
    Cesu(cps[0]) + CesuAll(cps[1..])
  }

  /** Decoding the text of scalar values gives them in CESU-8. */
  lemma {:induction false} DecodeUriReads(component: bool, cps: seq<codepoint>)
    requires forall cp :: cp in cps ==> Scalar(cp)
    ensures Transform(DecodeUri(component), UriText(Unescaped(component), cps)) == Some(CesuAll(cps))
  {
    hide Transform, InTable, Encode, Cesu, DecodeUriStep, PctAll, Octets;
    var kind, table := DecodeUri(component), Unescaped(component);
    if cps == [] {
      NothingToDo(kind);
    } else {
      var cp, more := cps[0], UriText(table, cps[1..]);
      DecodeUriReads(component, cps[1..]);
      CesuAscii(cp);
      if cp < 0x80 && InTable(table, cp) {
        PercentIsEscaped();
        TransformFirst(kind, cp, more);
        assert more[0..] == more;
      } else {
        EncodeNonempty(cp);
        TransformEscape(kind, Encode(cp), more);
        if cp < 0x80 {
          if InTable(Reserved(component), cp) { ReservedIsUnescaped(component, cp); }
          AsciiReads(cp, more, Reserved(component));
        } else {
          var bs := Encode(cp);
          OctetsOfText(bs, more);
          MultiByteReads((PctAll(bs) + more)[1..], cp, Reserved(component));
          assert (PctAll(bs) + more)[1..][3 * |bs| - 1..] == more;
        }
      }
    }
  }

  lemma CesuAscii(cp: codepoint)
    requires Scalar(cp)
    ensures cp < 0x80 ==> Cesu(cp) == Encode(cp) == [cp]
  {
  }

  lemma EncodeNonempty(cp: codepoint)
    ensures Encode(cp) != []
  {
  }

  // ----- round trips -----

  predicate Bmp(cps: seq<codepoint>) { cps == [] || (cps[0] < 0x10000 && Bmp(cps[1..])) }

  lemma PairInCesu(hi: codepoint, lo: codepoint)
    requires High(hi) && Low(lo)
    ensures Cesu(JoinSurrogates(hi, lo)) == Encode(hi) + Encode(lo)
  {
    hide Encode;
  }

  lemma CesuSize(cp: codepoint)
    requires Scalar(cp)
    ensures cp < 0x10000 ==> Cesu(cp) == Encode(cp)
    ensures cp >= 0x10000 ==> |Cesu(cp)| == |Encode(cp)| + 2
  {
  }

  /** Joining surrogates and writing CESU-8 restores a string exactly when it has no codepoint beyond the
      BMP; otherwise the text grows. */
  lemma {:induction false} CesuRestores(cps: seq<codepoint>)
    requires WellPaired(cps)
    ensures |CesuAll(Joined(cps))| >= |EncodeAll(cps)|
    ensures Bmp(cps) ==> CesuAll(Joined(cps)) == EncodeAll(cps)
    ensures !Bmp(cps) ==> |CesuAll(Joined(cps))| > |EncodeAll(cps)|
    decreases |cps|
  {
    hide Encode, Cesu;
    if cps != [] {
      var all := Joined(cps);
      if High(cps[0]) {
        PairInCesu(cps[0], cps[1]);
        CesuRestores(cps[2..]);
        assert cps == [cps[0], cps[1]] + cps[2..] && cps[1..][1..] == cps[2..];
        assert all[1..] == Joined(cps[2..]);
        assert EncodeAll(cps[1..]) == Encode(cps[1]) + EncodeAll(cps[2..]);
        assert Bmp(cps[1..]) == Bmp(cps[2..]);
        Cat(Encode(cps[0]), Encode(cps[1]), EncodeAll(cps[2..]));
      } else {
        CesuSize(cps[0]);
        CesuRestores(cps[1..]);
        assert cps == [cps[0]] + cps[1..];
        assert all[1..] == Joined(cps[1..]);
      }
    }
  }

  /** Decoding undoes encoding, for decodeURI after encodeURI as for the Component forms, on every
      string that encoding accepts and that holds no codepoint beyond the BMP; only on those. */
  lemma UriRoundTrip(component: bool, cps: seq<codepoint>)
    ensures var text := Transform(EncodeUri(component), EncodeAll(cps));
      text.Some? ==> (Transform(DecodeUri(component), text.value) == Some(EncodeAll(cps)) <==> Bmp(cps))
    ensures Transform(EncodeUri(component), EncodeAll(cps)).Some? <==> WellPaired(cps)
  {
    hide Transform, UriText, WellPaired, Bmp;
    EncodeUriExact(component, cps);
    if WellPaired(cps) {
      DecodeUriReads(component, Joined(cps));
      CesuRestores(cps);
    }
  }

  function EscapeText(cps: seq<codepoint>): bytes
    requires Bmp(cps)
  {
    if cps == [] then [] else EscapeStep(cps[0]).value + EscapeText(cps[1..])
  }

  /** escape() accepts exactly the strings without codepoints beyond the BMP. */
  lemma {:induction false} EscapeExact(cps: seq<codepoint>)
    ensures Transform(Escape, EncodeAll(cps)) == if Bmp(cps) then Some(EscapeText(cps)) else None
  {
    hide Transform, Encode, InTable, Pct, HexByte;
    if cps == [] {
      NothingToDo(Escape);
    } else {
      var rest := EncodeAll(cps[1..]);
      TransformFirst(Escape, cps[0], rest);
      assert rest[0..] == rest && cps == [cps[0]] + cps[1..];
      EscapeExact(cps[1..]);
    }
  }

  lemma HexWord(cp: codepoint, rest: bytes)
    requires cp < 0x10000
    ensures HexValue(HexByte(cp / 0x100) + HexByte(cp % 0x100) + rest, 4) == cp
  {
    hide HexByte, HexValue;
    var a, b := cp / 0x1000, cp / 0x100 % 16;
    var c, d := cp / 16 % 16, cp % 16;
    FourDigits(cp);
    var w := [UC_NYBBLES[a], UC_NYBBLES[b], UC_NYBBLES[c], UC_NYBBLES[d]];
    HexFour(w + rest, a, b, c, d);
    Digits16(cp);
  }

  lemma Digits16(cp: int)
    requires 0 <= cp < 0x10000
    ensures cp / 0x1000 * 0x1000 + cp / 0x100 % 16 * 0x100 + cp / 16 % 16 * 16 + cp % 16 == cp
  {
    assert cp / 0x1000 == cp / 0x100 / 16 && cp / 0x100 == cp / 16 / 16;
  }

  lemma HexFour(s: bytes, a: int, b: int, c: int, d: int)
    requires 0 <= a < 16 && 0 <= b < 16 && 0 <= c < 16 && 0 <= d < 16 && |s| >= 4
    requires s[0] == UC_NYBBLES[a] && s[1] == UC_NYBBLES[b] && s[2] == UC_NYBBLES[c] && s[3] == UC_NYBBLES[d]
    ensures HexValue(s, 4) == a * 0x1000 + b * 0x100 + c * 16 + d
  {
    hide HexDigit;
    NybbleReads(a);
    NybbleReads(b);
    NybbleReads(c);
    NybbleReads(d);
    assert HexValue(s, 1) == a;
    assert HexValue(s, 2) == a * 16 + b;
    assert HexValue(s, 3) == (a * 16 + b) * 16 + c;
  }

  lemma NoLowerU(b: byte)
    ensures HexByte(b)[0] != LC_U
  {
  }

  /** unescape() undoes escape() for every string within the BMP, surrogates paired or not. */
  lemma {:induction false} UnescapeReads(cps: seq<codepoint>)
    requires Bmp(cps)
    ensures Transform(Unescape, EscapeText(cps)) == Some(EncodeAll(cps))
  {
    hide Transform, Encode, InTable, HexByte, HexValue;
    if cps == [] {
      NothingToDo(Unescape);
    } else {
      var cp, more := cps[0], EscapeText(cps[1..]);
      UnescapeReads(cps[1..]);
      if cp < 0x80 && InTable(ESCAPE_UNESCAPED, cp) {
        PercentIsEscaped();
        assert [cp] == Encode(cp) by { AsciiEncodes(cp); }
        TransformFirst(Unescape, cp, more);
        assert more[0..] == more;
      } else {
        var digits := Digits(cp);
        EscapeDigits(cp, more);
        assert EscapeText(cps) == [PERCENT] + (digits + more) by { EscapeIsDigits(cp); }
        assert Encode(0x25) == [PERCENT] by { AsciiEncodes(0x25); }
        TransformFirst(Unescape, 0x25, digits + more);
        assert (digits + more)[|digits|..] == more;
      }
    }
  }

  lemma AsciiEncodes(cp: codepoint)
    requires cp < 0x80
    ensures Encode(cp) == [cp]
  {
  }

  /** What escape() writes after the percent sign. */
  function Digits(cp: codepoint): bytes
    requires cp < 0x10000
  {
    if cp < 0x100 then HexByte(cp)
    else
      var hi, lo: byte := cp / 0x100, cp % 0x100;
      [LC_U] + HexByte(hi) + HexByte(lo)
  }

  lemma EscapeIsDigits(cp: codepoint)
    requires cp < 0x10000 && !(cp < 0x80 && InTable(ESCAPE_UNESCAPED, cp))
    ensures EscapeStep(cp) == Some([PERCENT] + Digits(cp))
  {
    hide HexByte, InTable;
    if cp >= 0x100 {
      var a, b := HexByte(cp / 0x100), HexByte(cp % 0x100);
      assert [PERCENT, LC_U] + a + b == [PERCENT] + ([LC_U] + a + b);
    }
  }

  lemma EscapeDigits(cp: codepoint, more: bytes)
    requires cp < 0x10000
    ensures UnescapeStep(Digits(cp) + more) == (cp as int, |Digits(cp)|)
  {
    hide HexValue, HexByte;
    var s := Digits(cp) + more;
    HexSizes(cp);
    if cp < 0x100 {
      ByteSize(cp);
      NoLowerU(cp);
      HexByteReads(cp, more);
    } else {
      HexWord(cp, more);
      assert s[1..] == HexByte(cp / 0x100) + HexByte(cp % 0x100) + more;
    }
  }

  lemma ByteSize(b: byte)
    ensures |HexByte(b)| == 2
  {
  }

  lemma HexSizes(cp: int)
    requires 0 <= cp < 0x10000
    ensures |HexByte(cp / 0x100)| == 2 && |HexByte(cp % 0x100)| == 2
  {
  }
}
