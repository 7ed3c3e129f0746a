/** How much quoting one chunk of a string writes, against the room reserved for it: six bytes per byte of
    the chunk. */
module JsonReserve {
  import opened Bytes
  import opened Xutf8
  import opened JsonDocument

  const EXPANSION := 6

  /** The text of the codepoints that start in the first `now` bytes; the last may reach beyond them. */
  function ChunkText(s: bytes, now: nat): bytes
    requires now <= |s|
  {
    if now == 0 then [] else
    var (text, n) := QuoteStep(s);
    text + (if n >= now then [] else ChunkText(s[n..], now - n))
  }

  /** A control character without a short escape: six bytes for one. */
  predicate EscapedLong(b: byte) { b < 0x20 && !(b == 0x08 || b == 0x09 || b == 0x0a || b == 0x0c || b == 0x0d) }

  /** A codepoint beyond 31 bits starts here: written in seven bytes. */
  predicate SevenBytes(s: bytes) {
    match Decode(s)
    case None => false
    case Some((cp, _)) => Length(cp) == 7
  }

  /** All of the chunk expands six times but its last byte, and there a seven-byte codepoint starts. */
  predicate Overruns(s: bytes, now: nat)
    requires now <= |s|
  {
    now > 0 && if now == 1 then SevenBytes(s) else EscapedLong(s[0]) && Overruns(s[1..], now - 1)
  }

  /** One codepoint: at most six bytes for each byte of the chunk it takes, exactly six only for a long
      escape or at the chunk's last byte, and seven for one only where a seven-byte codepoint starts there. */
  lemma StepRoom(s: bytes, now: nat)
    requires 0 < now <= |s|
    ensures EscapedLong(s[0]) ==> QuoteStep(s).1 == 1
    ensures var (text, n) := QuoteStep(s); n >= now ==> (|text| > EXPANSION * now <==> now == 1 && SevenBytes(s))
    ensures var (text, n) := QuoteStep(s); n >= now ==> |text| <= EXPANSION * now + 1 && (now > 1 ==> !EscapedLong(s[0]))
    ensures var (text, n) := QuoteStep(s); n < now ==> |text| <= EXPANSION * n && (|text| == EXPANSION * n <==> n == 1 && EscapedLong(s[0]))
  {
    hide Encode, Accumulate;
    if s[0] >= 0x80 { assert Decode(s).Some? ==> Decode(s).value.1 >= 2; }
  }

  /** A chunk never writes more than one byte beyond its reservation, and does so exactly when it overruns. */
  lemma {:induction false} ChunkRoom(s: bytes, now: nat)
    requires now <= |s|
    ensures |ChunkText(s, now)| <= EXPANSION * now + 1
    ensures |ChunkText(s, now)| > EXPANSION * now <==> Overruns(s, now)
    decreases now
  {
    hide QuoteStep, SevenBytes, EscapedLong;
    if now > 0 {
      StepRoom(s, now);
      var n := QuoteStep(s).1;
      if n < now { ChunkRoom(s[n..], now - n); }
    }
  }

  /** The reservation is enough for every string without the byte 0xfe, CESU-8 text in particular. */
  lemma {:induction false} NoOverrun(s: bytes, now: nat)
    requires now <= |s| && 0xfe !in s
    ensures !Overruns(s, now)
    decreases now
  {
    hide SevenBytes;
    if now == 1 {
      if SevenBytes(s) { SevenNeedsLead(s); }
    } else if now > 1 {
      NoOverrun(s[1..], now - 1);
    }
  }

  lemma SevenNeedsLead(s: bytes)
    requires s != [] && SevenBytes(s)
    ensures s[0] == 0xfe
  {
    hide Accumulate;
    var (n, bits) := Lead(s[0]).value;
    AccumulateBound(bits, s[1..], n);
  }

  lemma {:induction false} AccumulateBound(res: nat, s: bytes, k: nat)
    requires k <= |s| && k <= 6
    ensures Accumulate(res, s, k) < (res + 1) * Capacity(k)
    decreases k
  {
    if k > 0 {
      AccumulateBound(res * 64 + s[0] % 64, s[1..], k - 1);
      CapacityStep(k);
      var c := Capacity(k - 1);
      calc {
        Accumulate(res, s, k);
      <
        (res * 64 + s[0] % 64 + 1) * c;
      <= { LessTimes(res * 64 + s[0] % 64 + 1, (res + 1) * 64, c); }
        ((res + 1) * 64) * c;
      ==
        (res + 1) * (64 * c);
      }
    }
  }

  lemma LessTimes(a: nat, b: nat, c: nat)
    requires a <= b
    ensures a * c <= b * c
  {
  }

  /** One byte too many: 63 control characters and a seven-byte codepoint in a chunk of 64. */
  lemma ReservationFallsShort()
    ensures var s := Repeat([0x01], 63) + Encode(0x80000000); Overruns(s, 64)
  {
    hide Encode, Decode, EscapedLong;
    Controls(63, Encode(0x80000000));
    DecodeEncode(0x80000000, []);
    assert Encode(0x80000000) + [] == Encode(0x80000000);
  }

  lemma {:induction false} Controls(n: nat, s: bytes)
    requires s != []
    ensures Overruns(Repeat([0x01], n) + s, n + 1) <==> SevenBytes(s)
  {
    hide SevenBytes;
    if n == 0 {
      assert Repeat([0x01], 0) + s == s;
    } else {
      Controls(n - 1, s);
      RepeatSum([0x01], 1, n - 1);
      assert Repeat([0x01], 1) == [0x01];
      var t := Repeat([0x01], n) + s;
      assert t == [0x01] + (Repeat([0x01], n - 1) + s);
      assert t[1..] == Repeat([0x01], n - 1) + s;
    }
  }
}
