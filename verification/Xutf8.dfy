/** Extended UTF-8: the codepoint encoding of every string the engine holds, up to seven bytes and
    the full unsigned 32-bit codepoint range. */
module Xutf8 {
  import opened Bytes

  const CODEPOINTS := 0x1_0000_0000

  type codepoint = cp: int | 0 <= cp < CODEPOINTS

  function Length(cp: codepoint): (n: nat)
    ensures 1 <= n <= 7
  {
    if cp < 0x80 then 1
    else if cp < 0x800 then 2
    else if cp < 0x10000 then 3
    else if cp < 0x200000 then 4
    else if cp < 0x4000000 then 5
    else if cp < 0x80000000 then 6
    else 7
  }

  /** 64 to the power `k`: what `k` continuation bytes can hold. */
  function Capacity(k: nat): (r: nat)
    requires k <= 6
    ensures r > 0
  {
    if k == 0 then 1
    else if k == 1 then 0x40
    else if k == 2 then 0x1000
    else if k == 3 then 0x40000
    else if k == 4 then 0x1000000
    else if k == 5 then 0x40000000
    else 0x1000000000
  }

  /** The tag bits of the first byte of an `n`-byte sequence. */
  function Marker(n: nat): (m: byte)
    requires 1 <= n <= 7
  {
    if n == 1 then 0x00
    else if n == 2 then 0xc0
    else if n == 3 then 0xe0
    else if n == 4 then 0xf0
    else if n == 5 then 0xf8
    else if n == 6 then 0xfc
    else 0xfe
  }

  /** The `k` low-order groups of six bits of `x`, as continuation bytes. */
  function Continuation(x: nat, k: nat): (r: bytes)
    requires k <= 6 && x < Capacity(k)
    ensures |r| == k
    ensures forall i :: 0 <= i < k ==> 0x80 <= r[i] < 0xc0
  {
    if k == 0 then [] else
    DivBelow(x, Capacity(k - 1));
    [0x80 + x / Capacity(k - 1)] + Continuation(x % Capacity(k - 1), k - 1)
  }

  lemma DivBelow(x: nat, d: nat)
    requires d > 0 && x < 64 * d
    ensures 0 <= x / d < 64 && 0 <= x % d < d && x == x / d * d + x % d
  {
  }

  function Encode(cp: codepoint): (r: bytes)
    ensures |r| == Length(cp)
  {
    var n := Length(cp);
    if n == 1 then [cp] else
    LeadFits(cp);
    [Marker(n) + cp / Capacity(n - 1)] + Continuation(cp % Capacity(n - 1), n - 1)
  }

  /** Every encoding in numbers: RFC 3629 up to four bytes, and its scheme continued to seven. */
  lemma EncodeInNumbers(cp: codepoint)
    ensures cp < 0x80 ==> Encode(cp) == [cp]
    ensures 0x80 <= cp < 0x800 ==> Encode(cp) == [0xc0 + cp / 0x40] + Groups(cp, 1)
    ensures 0x800 <= cp < 0x10000 ==> Encode(cp) == [0xe0 + cp / 0x1000] + Groups(cp, 2)
    ensures 0x10000 <= cp < 0x200000 ==> Encode(cp) == [0xf0 + cp / 0x40000] + Groups(cp, 3)
    ensures 0x200000 <= cp < 0x4000000 ==> Encode(cp) == [0xf8 + cp / 0x1000000] + Groups(cp, 4)
    ensures 0x4000000 <= cp < 0x80000000 ==> Encode(cp) == [0xfc + cp / 0x40000000] + Groups(cp, 5)
    ensures 0x80000000 <= cp ==> Encode(cp) == [0xfe] + Groups(cp, 6)
  {
    hide Encode, Groups;
    if cp >= 0x80 { EncodeLow(cp); } else { EncodeAscii(cp); }
  }

  lemma EncodeAscii(cp: codepoint)
    requires cp < 0x80
    ensures Encode(cp) == [cp]
  {
  }

  lemma EncodeLow(cp: codepoint)
    requires cp >= 0x80
    ensures var n := Length(cp); n >= 2 && 0 <= Marker(n) + cp / Capacity(n - 1) < 0xff
    ensures var n := Length(cp); Encode(cp) == [Marker(n) + cp / Capacity(n - 1)] + Groups(cp, n - 1)
  {
    hide Continuation, Groups, Capacity, Marker;
    LeadFits(cp);
    var n := Length(cp);
    ContinuationLow(cp % Capacity(n - 1), n - 1);
    LowModulo(cp, n - 1);
  }

  /** The low six bits, the next six and so on, `k` groups, highest first, as continuation bytes. */
  function Groups(x: nat, k: nat): bytes {
    if k == 0 then [] else Groups(x / 0x40, k - 1) + [0x80 + x % 0x40]
  }

  lemma {:induction false} ContinuationLow(x: nat, k: nat)
    requires k <= 6 && x < Capacity(k)
    ensures Continuation(x, k) == Groups(x, k)
    decreases k
  {
    hide Capacity;
    if k > 0 {
      CapacityStep(k);
      DivBelow(x, Capacity(k - 1));
      ContinuationLow(x % Capacity(k - 1), k - 1);
      LowModulo(x, k - 1);
      LowFirst(x, k);
    }
  }

  lemma {:induction false} LowFirst(x: nat, k: nat)
    requires 0 < k <= 6
    ensures Groups(x, k) == [0x80 + x / Capacity(k - 1) % 0x40] + Groups(x, k - 1)
    decreases k
  {
    if k == 1 {
      assert Groups(x, 1) == Groups(x / 0x40, 0) + [0x80 + x % 0x40] && Groups(x, 0) == [];
    } else {
      LowFirst(x / 0x40, k - 1);
      Quotient(x, k);
      LowSteps(x, k, 0x80 + x / Capacity(k - 1) % 0x40);
    }
  }

  lemma LowSteps(x: nat, k: nat, first: byte)
    requires 1 < k && Groups(x / 0x40, k - 1) == [first] + Groups(x / 0x40, k - 2)
    ensures Groups(x, k) == [first] + Groups(x, k - 1)
  {
    assert Groups(x, k) == [first] + (Groups(x / 0x40, k - 2) + [0x80 + x % 0x40]);
  }

  lemma Quotient(x: nat, k: nat)
    requires 1 < k <= 6
    ensures x / 0x40 / Capacity(k - 2) == x / Capacity(k - 1)
  {
  }

  lemma {:induction false} LowModulo(x: nat, k: nat)
    requires k <= 6
    ensures Groups(x % Capacity(k), k) == Groups(x, k)
    decreases k
  {
    hide Capacity;
    if k > 0 {
      LowModulo(x / 0x40, k - 1);
      Remainder(x, k);
    }
  }

  lemma Remainder(x: nat, k: nat)
    requires 0 < k <= 6
    ensures x % Capacity(k) / 0x40 == x / 0x40 % Capacity(k - 1) && x % Capacity(k) % 0x40 == x % 0x40
  {
    hide Capacity;
    CapacityStep(k);
    RemainderIn(x, Capacity(k - 1));
  }

  lemma RemainderIn(x: nat, c: nat)
    requires c > 0
    ensures x % (64 * c) / 64 == x / 64 % c && x % (64 * c) % 64 == x % 64
  {
    var y, d := x / 64, x % 64;
    var q, r := y / c, y % c;
    var low := 64 * r + d;
    assert x == 64 * c * q + low by { Distribute(c, q, r); }
    assert low < 64 * c;
    QuotientRemainder(x, 64 * c, q, low);
    assert low / 64 == r && low % 64 == d;
  }

  lemma Distribute(c: nat, q: nat, r: nat)
    ensures 64 * (c * q + r) == 64 * c * q + 64 * r
  {
  }

  lemma QuotientRemainder(x: int, n: nat, q: int, r: int)
    requires n > 0 && x == n * q + r && 0 <= r < n
    ensures x / n == q && x % n == r
  {
    var d := q - x / n;
    assert n * d == x % n - r by { Difference(n, q, x / n); }
    if d >= 1 { More(n, d); }
    if d <= -1 { More(n, -d); }
  }

  lemma Difference(n: int, a: int, b: int)
    ensures n * (a - b) == n * a - n * b
  {
  }

  lemma More(n: int, d: int)
    requires n > 0 && d >= 1
    ensures n * d >= n && n * -d <= -n
  {
  }

  lemma LeadFits(cp: codepoint)
    requires cp >= 0x80
    ensures var n := Length(cp); n >= 2 && 0 <= Marker(n) + cp / Capacity(n - 1) < 0xff
    ensures var n := Length(cp); 0 <= cp % Capacity(n - 1) < Capacity(n - 1)
  {
  }

  /** The number of continuation bytes a first byte announces and the payload bits it carries;
      None for bytes that cannot start a sequence. */
  function Lead(ch: byte): (r: Option<(nat, nat)>)
    ensures r.Some? ==> r.value.0 <= 6
  {
    if ch < 0x80 then Some((0, ch))
    else if ch < 0xc0 then None
    else if ch < 0xe0 then Some((1, ch % 0x20))
    else if ch < 0xf0 then Some((2, ch % 0x10))
    else if ch < 0xf8 then Some((3, ch % 0x08))
    else if ch < 0xfc then Some((4, ch % 0x04))
    else if ch < 0xfe then Some((5, ch % 0x02))
    else if ch < 0xff then Some((6, 0))
    else None
  }

  /** `res` extended with the low six bits of the first `k` bytes of `s`. */
  function Accumulate(res: nat, s: bytes, k: nat): nat
    requires k <= |s|
    decreases k
  {
    if k == 0 then res else Accumulate(res * 64 + s[0] % 64, s[1..], k - 1)
  }

  /** The codepoint at the start of `s` and the bytes it takes.  Continuation bytes are not
      validated; the result register is 32 bits wide. */
  function Decode(s: bytes): (r: Option<(codepoint, nat)>)
    ensures r.Some? ==> 1 <= r.value.1 <= |s| && r.value.1 <= 7
    ensures s != [] && s[0] < 0x80 ==> r == Some((s[0], 1))
  {
    if s == [] then None else
    match Lead(s[0])
    case None => None
    case Some((n, bits)) =>
      if 1 + n > |s| then None
      else Some((Accumulate(bits, s[1..], n) % CODEPOINTS, 1 + n))
  }

  /** The first byte and the low six bits of `k` more, most significant first. */
  function Value(first: int, s: bytes, k: nat): int
    requires k < |s|
  {
    if k == 0 then first else Value(first, s, k - 1) * 0x40 + s[k] % 0x40
  }

  lemma {:induction false} AccumulateValue(first: nat, s: bytes, i: nat, k: nat)
    requires i <= k < |s| && Value(first, s, i) >= 0
    ensures Accumulate(Value(first, s, i), s[i + 1..], k - i) == Value(first, s, k)
    decreases k - i
  {
    if i < k {
      assert s[i + 1..][1..] == s[i + 2..];
      AccumulateValue(first, s, i + 1, k);
    }
  }

  /** What is decoded, in numbers: any byte passes for a continuation byte, and seven bytes hold 32 bits only. */
  lemma DecodeInNumbers(s: bytes)
    ensures s == [] || 0x80 <= s[0] < 0xc0 || s[0] == 0xff ==> Decode(s) == None
    ensures s != [] && s[0] < 0x80 ==> Decode(s) == Some((s[0], 1))
    ensures s != [] && 0xc0 <= s[0] < 0xe0 ==> Decode(s) == Sequence(s, 0xc0, 1)
    ensures s != [] && 0xe0 <= s[0] < 0xf0 ==> Decode(s) == Sequence(s, 0xe0, 2)
    ensures s != [] && 0xf0 <= s[0] < 0xf8 ==> Decode(s) == Sequence(s, 0xf0, 3)
    ensures s != [] && 0xf8 <= s[0] < 0xfc ==> Decode(s) == Sequence(s, 0xf8, 4)
    ensures s != [] && 0xfc <= s[0] < 0xfe ==> Decode(s) == Sequence(s, 0xfc, 5)
    ensures s != [] && s[0] == 0xfe ==> Decode(s) == Sequence(s, 0xfe, 6)
  {
    hide Accumulate, Value;
    if s != [] && Lead(s[0]).Some? {
      var (n, bits) := Lead(s[0]).value;
      if n < |s| { AccumulateFirst(bits, s, n); }
    }
  }

  lemma AccumulateFirst(first: nat, s: bytes, k: nat)
    requires k < |s|
    ensures Accumulate(first, s[1..], k) == Value(first, s, k)
  {
    AccumulateValue(first, s, 0, k);
  }

  /** The sequence of `k` more bytes after a first one, which holds what it is above `mark`. */
  function Sequence(s: bytes, mark: byte, k: nat): Option<(codepoint, nat)>
    requires s != []
  {
    if |s| <= k then None else Some((Value(s[0] - mark, s, k) % 0x1_0000_0000, k + 1))
  }

  lemma ContinuationStep(x: nat, k: nat, q: nat, r: nat)
    requires 0 < k <= 6 && x < Capacity(k)
    requires q == x / Capacity(k - 1) < 64 && r == x % Capacity(k - 1) < Capacity(k - 1)
    ensures Continuation(x, k) == [0x80 + q] + Continuation(r, k - 1)
  {
  }

  lemma AccumulateStep(res: nat, q: nat, tail: bytes, k: nat)
    requires q < 64 && 0 < k <= |tail| + 1
    ensures Accumulate(res, [0x80 + q] + tail, k) == Accumulate(res * 64 + q, tail, k - 1)
  {
    assert ([0x80 + q] + tail)[1..] == tail;
  }

  lemma CapacityStep(k: nat)
    requires 0 < k <= 6
    ensures Capacity(k) == 64 * Capacity(k - 1)
  {
  }

  lemma Regroup(res: int, q: int, c: int, r: int)
    ensures (res * 64 + q) * c + r == res * (64 * c) + (q * c + r)
  {
    assert (res * 64 + q) * c == (res * 64) * c + q * c;
  }

  lemma AccumulateGlue(res: nat, x: nat, k: nat, rest: bytes)
    requires 0 < k <= 6 && x < Capacity(k)
    requires var c := Capacity(k - 1);
      x / c < 64 && x % c < c &&
      Accumulate(res * 64 + x / c, Continuation(x % c, k - 1) + rest, k - 1) == (res * 64 + x / c) * c + x % c
    ensures Accumulate(res, Continuation(x, k) + rest, k) == res * Capacity(k) + x
  {
    hide Continuation, Accumulate, Capacity;
    var c := Capacity(k - 1);
    var q, r := x / c, x % c;
    var tail := Continuation(r, k - 1) + rest;
    calc {
      Accumulate(res, Continuation(x, k) + rest, k);
      { ContinuationStep(x, k, q, r); assert Continuation(x, k) + rest == [0x80 + q] + tail; AccumulateStep(res, q, tail, k); }
      Accumulate(res * 64 + q, tail, k - 1);
      (res * 64 + q) * c + r;
      { Regroup(res, q, c, r); }
      res * (64 * c) + (q * c + r);
      { CapacityStep(k); }
      res * Capacity(k) + x;
    }
  }

  lemma {:induction false} AccumulateContinuation(res: nat, x: nat, k: nat, rest: bytes)
    requires k <= 6 && x < Capacity(k)
    ensures Accumulate(res, Continuation(x, k) + rest, k) == res * Capacity(k) + x
    decreases k
  {
    if k > 0 {
      var c := Capacity(k - 1);
      DivBelow(x, c);
      AccumulateContinuation(res * 64 + x / c, x % c, k - 1, rest);
      AccumulateGlue(res, x, k, rest);
    }
  }

  /** Decoding undoes encoding for every 32-bit codepoint, whatever follows. */
  lemma DecodeEncode(cp: codepoint, rest: bytes)
    ensures Decode(Encode(cp) + rest) == Some((cp, Length(cp)))
  {
    hide Continuation, Accumulate, Capacity, Marker, Lead;
    var n := Length(cp);
    if n > 1 {
      var c := Capacity(n - 1);
      LeadFits(cp);
      LeadPayload(cp);
      var s := Encode(cp) + rest;
      assert s[1..] == Continuation(cp % c, n - 1) + rest;
      AccumulateContinuation(cp / c, cp % c, n - 1, rest);
      assert s[0] == Marker(n) + cp / c;
    }
  }

  lemma LeadPayload(cp: codepoint)
    requires cp >= 0x80
    ensures var n := Length(cp); n >= 2 && Marker(n) + cp / Capacity(n - 1) < 256
    ensures var n := Length(cp); Lead(Marker(n) + cp / Capacity(n - 1)) == Some((n - 1, cp / Capacity(n - 1)))
    ensures var n := Length(cp); cp / Capacity(n - 1) * Capacity(n - 1) + cp % Capacity(n - 1) == cp
  {
  }

  /** Strings that are a run of shortest-form encodings: what string concatenation of codepoints
      gives, CESU-8 text included (its surrogates are ordinary three-byte codepoints here). */
  ghost predicate Canonical(s: bytes)
    decreases |s|
  {
    s == [] ||
    match Decode(s)
    case None => false
    case Some((cp, n)) => s[..n] == Encode(cp) && Canonical(s[n..])
  }

  function EncodeAll(cps: seq<codepoint>): bytes {
    if cps == [] then [] else Encode(cps[0]) + EncodeAll(cps[1..])
  }

  lemma {:induction false} EncodeAllCanonical(cps: seq<codepoint>)
    ensures Canonical(EncodeAll(cps))
  {
    if cps != [] {
      var rest := EncodeAll(cps[1..]);
      EncodeAllCanonical(cps[1..]);
      DecodeEncode(cps[0], rest);
      assert (Encode(cps[0]) + rest)[..Length(cps[0])] == Encode(cps[0]);
      assert (Encode(cps[0]) + rest)[Length(cps[0])..] == rest;
    }
  }

  /** A multi-byte encoding has no byte below 0x80. */
  lemma EncodeHigh(cp: codepoint)
    requires cp >= 0x80
    ensures forall i :: 0 <= i < |Encode(cp)| ==> Encode(cp)[i] >= 0x80
  {
    LeadFits(cp);
    var n := Length(cp);
    assert Encode(cp)[0] == Marker(n) + cp / Capacity(n - 1);
  }
}
