/** Base-64: both builds of the encoder and of the decoder against one reference. */
module Base64 {
  import opened Bytes

  type octet = bv8
  type octets = seq<bv8>

  const EQUALS: octet := 0x3d

  predicate IsSpace(ch: octet) { ch == 0x09 || ch == 0x0a || ch == 0x0d || ch == 0x20 }

  // ----- lookup tables -----

  /** The encoding alphabet, sixteen characters a row. */
  const ENC_TABLE: seq<seq<octet>> := [
    [0x41, 0x42, 0x43, 0x44, 0x45, 0x46, 0x47, 0x48, 0x49, 0x4a, 0x4b, 0x4c, 0x4d, 0x4e, 0x4f, 0x50],
    [0x51, 0x52, 0x53, 0x54, 0x55, 0x56, 0x57, 0x58, 0x59, 0x5a, 0x61, 0x62, 0x63, 0x64, 0x65, 0x66],
    [0x67, 0x68, 0x69, 0x6a, 0x6b, 0x6c, 0x6d, 0x6e, 0x6f, 0x70, 0x71, 0x72, 0x73, 0x74, 0x75, 0x76],
    [0x77, 0x78, 0x79, 0x7a, 0x30, 0x31, 0x32, 0x33, 0x34, 0x35, 0x36, 0x37, 0x38, 0x39, 0x2b, 0x2f]]

  /** The decoding table: sextets, and signed bytes below zero for error, whitespace and padding. */
  const DEC_TABLE: seq<seq<octet>> := [
    [0xff, 0xff, 0xff, 0xff, 0xff, 0xff, 0xff, 0xff, 0xff, 0xfe, 0xfe, 0xff, 0xff, 0xfe, 0xff, 0xff],
    [0xff, 0xff, 0xff, 0xff, 0xff, 0xff, 0xff, 0xff, 0xff, 0xff, 0xff, 0xff, 0xff, 0xff, 0xff, 0xff],
    [0xfe, 0xff, 0xff, 0xff, 0xff, 0xff, 0xff, 0xff, 0xff, 0xff, 0xff, 62, 0xff, 0xff, 0xff, 63],
    [52, 53, 54, 55, 56, 57, 58, 59, 60, 61, 0xff, 0xff, 0xff, 0xfd, 0xff, 0xff],
    [0xff, 0, 1, 2, 3, 4, 5, 6, 7, 8, 9, 10, 11, 12, 13, 14],
    [15, 16, 17, 18, 19, 20, 21, 22, 23, 24, 25, 0xff, 0xff, 0xff, 0xff, 0xff],
    [0xff, 26, 27, 28, 29, 30, 31, 32, 33, 34, 35, 36, 37, 38, 39, 40],
    [41, 42, 43, 44, 45, 46, 47, 48, 49, 50, 51, 0xff, 0xff, 0xff, 0xff, 0xff],
    [0xff, 0xff, 0xff, 0xff, 0xff, 0xff, 0xff, 0xff, 0xff, 0xff, 0xff, 0xff, 0xff, 0xff, 0xff, 0xff],
    [0xff, 0xff, 0xff, 0xff, 0xff, 0xff, 0xff, 0xff, 0xff, 0xff, 0xff, 0xff, 0xff, 0xff, 0xff, 0xff],
    [0xff, 0xff, 0xff, 0xff, 0xff, 0xff, 0xff, 0xff, 0xff, 0xff, 0xff, 0xff, 0xff, 0xff, 0xff, 0xff],
    [0xff, 0xff, 0xff, 0xff, 0xff, 0xff, 0xff, 0xff, 0xff, 0xff, 0xff, 0xff, 0xff, 0xff, 0xff, 0xff],
    [0xff, 0xff, 0xff, 0xff, 0xff, 0xff, 0xff, 0xff, 0xff, 0xff, 0xff, 0xff, 0xff, 0xff, 0xff, 0xff],
    [0xff, 0xff, 0xff, 0xff, 0xff, 0xff, 0xff, 0xff, 0xff, 0xff, 0xff, 0xff, 0xff, 0xff, 0xff, 0xff],
    [0xff, 0xff, 0xff, 0xff, 0xff, 0xff, 0xff, 0xff, 0xff, 0xff, 0xff, 0xff, 0xff, 0xff, 0xff, 0xff],
    [0xff, 0xff, 0xff, 0xff, 0xff, 0xff, 0xff, 0xff, 0xff, 0xff, 0xff, 0xff, 0xff, 0xff, 0xff, 0xff]]

  function EncTab(x: bv32): octet
    requires x < 64
  {
    ENC_TABLE[(x >> 4) as int][(x & 0xf) as int]
  }

  const DEC_ERROR: bv32 := 0xffff_ffff
  const DEC_SPACE: bv32 := 0xffff_fffe
  const DEC_EQUALS: bv32 := 0xffff_fffd

  /** A signed byte in 32 bits. */
  function Extended(x: octet): bv32 { if x & 0x80 != 0 then 0xffff_ff00 | x as bv32 else x as bv32 }

  /** A look into the decoding table. */
  function DecTab(ch: octet): bv32 { Extended(DEC_TABLE[(ch >> 4) as int][(ch & 0xf) as int]) }

  predicate IsChar(ch: octet) { DecTab(ch) < 64 }

  // ----- the tables against comparisons -----

  /** The character of a sextet by its range. */
  function CharOf(x: bv32): octet
    requires x < 64
  {
    if x <= 25 then (x + 0x41) as bv8
    else if x <= 51 then (x - 26 + 0x61) as bv8
    else if x <= 61 then (x - 52 + 0x30) as bv8
    else if x == 62 then 0x2b
    else 0x2f
  }

  /** What a character is by its range. */
  function ValueOf(ch: octet): bv32 {
    if 0x41 <= ch <= 0x5a then ch as bv32 - 0x41
    else if 0x61 <= ch <= 0x7a then ch as bv32 - 0x61 + 26
    else if 0x30 <= ch <= 0x39 then ch as bv32 - 0x30 + 52
    else if ch == 0x2b then 62
    else if ch == 0x2f then 63
    else if ch == EQUALS then DEC_EQUALS
    else if IsSpace(ch) then DEC_SPACE
    else DEC_ERROR
  }

  /** The encoding table holds for each sextet the character that comparisons give. */
  lemma EncTableRight(x: bv32)
    requires x < 64
    ensures EncTab(x) == CharOf(x)
  {
    var j := x & 0xf;
    if x >> 4 == 0 { EncRow(0, j); } else if x >> 4 == 1 { EncRow(1, j); } else if x >> 4 == 2 { EncRow(2, j); } else { EncRow(3, j); }
  }

  lemma EncRow(i: int, j: bv32)
    requires 0 <= i < 4 && j < 16
    ensures i == 0 ==> ENC_TABLE[0][j as int] == 0x41 + j as bv8
    ensures i == 1 ==> ENC_TABLE[1][j as int] == if j < 10 then 0x51 + j as bv8 else 0x57 + j as bv8
    ensures i == 2 ==> ENC_TABLE[2][j as int] == 0x67 + j as bv8
    ensures i == 3 ==> ENC_TABLE[3][j as int] == if j < 4 then 0x77 + j as bv8 else if j < 14 then 0x2c + j as bv8 else if j == 14 then 0x2b else 0x2f
  {
  }

  /** The decoding table holds for each of the 256 characters what comparisons say it is. */
  lemma DecTableRight(ch: octet)
    ensures DecTab(ch) == ValueOf(ch)
  {
    var i, j := ch >> 4, ch & 0xf;
    if i == 0 { DecRow0(j); } else if i == 2 { DecRow2(j); } else if i == 3 { DecRow3(j); }
    else if i == 4 { DecRow4(j); } else if i == 5 { DecRow5(j); } else if i == 6 { DecRow6(j); } else if i == 7 { DecRow7(j); }
    else { DecRowEmpty(i as int, j); }
  }

  lemma DecRow0(j: octet)
    requires j < 16
    ensures DEC_TABLE[0][j as int] == if j == 9 || j == 10 || j == 13 then 0xfe else 0xff
  {
  }

  lemma DecRow2(j: octet)
    requires j < 16
    ensures DEC_TABLE[2][j as int] == if j == 0 then 0xfe else if j == 11 then 62 else if j == 15 then 63 else 0xff
  {
  }

  lemma DecRow3(j: octet)
    requires j < 16
    ensures DEC_TABLE[3][j as int] == if j < 10 then 52 + j else if j == 13 then 0xfd else 0xff
  {
  }

  lemma DecRow4(j: octet)
    requires j < 16
    ensures DEC_TABLE[4][j as int] == if j == 0 then 0xff else j - 1
  {
  }

  lemma DecRow5(j: octet)
    requires j < 16
    ensures DEC_TABLE[5][j as int] == if j < 11 then 15 + j else 0xff
  {
  }

  lemma DecRow6(j: octet)
    requires j < 16
    ensures DEC_TABLE[6][j as int] == if j == 0 then 0xff else 25 + j
  {
  }

  lemma DecRow7(j: octet)
    requires j < 16
    ensures DEC_TABLE[7][j as int] == if j < 11 then 41 + j else 0xff
  {
  }

  lemma DecRowEmpty(i: int, j: octet)
    requires (i == 1 || 8 <= i < 16) && j < 16
    ensures DEC_TABLE[i][j as int] == 0xff
  {
  }

  lemma TablesInverse(x: bv32)
    requires x < 64
    ensures DecTab(EncTab(x)) == x && EncTab(x) != EQUALS && !IsSpace(EncTab(x))
  {
    hide EncTab, DecTab;
    EncTableRight(x);
    DecTableRight(EncTab(x));
  }

  lemma TableClasses(ch: octet)
    ensures DecTab(ch) < 64 || DecTab(ch) == DEC_SPACE || DecTab(ch) == DEC_EQUALS || DecTab(ch) == DEC_ERROR
    ensures DecTab(ch) == DEC_SPACE <==> IsSpace(ch)
    ensures DecTab(ch) == DEC_EQUALS <==> ch == EQUALS
  {
    hide DecTab;
    DecTableRight(ch);
  }

  // ----- reference -----

  function Wide(x: octet): (t: bv32)
    ensures t <= 0xff
  {
    x as bv32
  }

  /** The three octets of a 24-bit group. */
  function Octets(t: bv32): (r: octets)
    ensures |r| == 3
  {
    [((t >> 16) & 0xff) as bv8, ((t >> 8) & 0xff) as bv8, (t & 0xff) as bv8]
  }

  function Join4(a: bv32, b: bv32, c: bv32, d: bv32): bv32 { (a << 18) | (b << 12) | (c << 6) | d }

  /** Four characters, or a padded two or three, as the octets they carry. */
  function Unit(a: octet, b: octet, c: octet, d: octet): Option<octets> {
    if !IsChar(a) || !IsChar(b) then None
    else if c == EQUALS && d == EQUALS then Some(Octets(Join4(DecTab(a), DecTab(b), 0, 0))[..1])
    else if !IsChar(c) then None
    else if d == EQUALS then Some(Octets(Join4(DecTab(a), DecTab(b), DecTab(c), 0))[..2])
    else if !IsChar(d) then None
    else Some(Octets(Join4(DecTab(a), DecTab(b), DecTab(c), DecTab(d))))
  }

  function Prepend(a: octets, b: Option<octets>): Option<octets> {
    match b
    case None => None
    case Some(v) => Some(a + v)
  }

  /** Unit after unit; padding may end any unit. */
  function DecodeUnits(s: octets): Option<octets> {
    if s == [] then Some([])
    else if |s| < 4 then None
    else
      match Unit(s[0], s[1], s[2], s[3])
      case None => None
      case Some(v) => Prepend(v, DecodeUnits(s[4..]))
  }

  function Strip(s: octets): octets {
    if s == [] then []
    else if IsSpace(s[0]) then Strip(s[1..])
    else [s[0]] + Strip(s[1..])
  }

  /** What a base-64 text stands for: whitespace does not count. */
  function Decode(s: octets): Option<octets> { DecodeUnits(Strip(s)) }

  /** The characters of three, two and one octets. */
  function Word3(x: octet, y: octet, z: octet): (t: bv32)
    ensures t <= 0xff_ffff
  {
    (((Wide(x) << 8) + Wide(y)) << 8) + Wide(z)
  }

  function Group3(t: bv32): (r: octets)
    requires t <= 0xff_ffff
    ensures |r| == 4
  {
    [EncTab(t >> 18), EncTab((t >> 12) & 0x3f), EncTab((t >> 6) & 0x3f), EncTab(t & 0x3f)]
  }

  function Word2(x: octet, y: octet): (t: bv32)
    ensures t <= 0xffff
  {
    (Wide(x) << 8) + Wide(y)
  }

  function Group2(t: bv32): (r: octets)
    requires t <= 0xffff
    ensures |r| == 4
  {
    [EncTab(t >> 10), EncTab((t >> 4) & 0x3f), EncTab((t << 2) & 0x3f), EQUALS]
  }

  function Group1(t: bv32): (r: octets)
    requires t <= 0xff
    ensures |r| == 4
  {
    [EncTab(t >> 2), EncTab((t << 4) & 0x3f), EQUALS, EQUALS]
  }

  function Encode(s: octets): octets {
    if s == [] then []
    else if |s| == 1 then Group1(Wide(s[0]))
    else if |s| == 2 then Group2(Word2(s[0], s[1]))
    else Group3(Word3(s[0], s[1], s[2])) + Encode(s[3..])
  }

  // ----- properties of the reference -----

  /** The size the caller reserves for an encoding. */
  function EncodeSize(n: nat): nat { (n + 2) / 3 * 4 }

  lemma {:induction false} EncodeLength(s: octets)
    ensures |Encode(s)| == EncodeSize(|s|)
  {
    hide Group1, Group2, Group3;
    if |s| > 2 { EncodeLength(s[3..]); }
  }

  /** Splitting 24 bits in six-bit pieces and in octets. */
  lemma Sextets(t: bv32)
    requires t <= 0xff_ffff
    ensures t >> 18 < 64 && Join4(t >> 18, (t >> 12) & 0x3f, (t >> 6) & 0x3f, t & 0x3f) == t
  {
  }

  lemma ThreeOctets(x: octet, y: octet, z: octet)
    ensures Octets(Word3(x, y, z)) == [x, y, z]
  {
  }

  lemma TwoOctets(x: octet, y: octet)
    ensures Octets(Word2(x, y) << 8) == [x, y, 0]
  {
  }

  lemma OneOctet(x: octet)
    ensures Octets(Wide(x) << 16) == [x, 0, 0]
  {
  }

  lemma Sextets2(t: bv32)
    requires t <= 0xffff
    ensures t >> 10 < 64 && Join4(t >> 10, (t >> 4) & 0x3f, (t << 2) & 0x3f, 0) == t << 8
  {
  }

  lemma Sextets1(t: bv32)
    requires t <= 0xff
    ensures t >> 2 < 64 && Join4(t >> 2, (t << 4) & 0x3f, 0, 0) == t << 16
  {
  }

  /** Sextets written out and read back, with none, one or two of them padding. */
  lemma UnitOfSextets(a: bv32, b: bv32, c: bv32, d: bv32)
    requires a < 64 && b < 64 && c < 64 && d < 64
    ensures Unit(EncTab(a), EncTab(b), EncTab(c), EncTab(d)) == Some(Octets(Join4(a, b, c, d)))
    ensures Unit(EncTab(a), EncTab(b), EncTab(c), EQUALS) == Some(Octets(Join4(a, b, c, 0))[..2])
    ensures Unit(EncTab(a), EncTab(b), EQUALS, EQUALS) == Some(Octets(Join4(a, b, 0, 0))[..1])
  {
    hide EncTab, DecTab, IsSpace, Octets, Join4;
    TablesInverse(a);
    TablesInverse(b);
    TablesInverse(c);
    TablesInverse(d);
  }

  lemma UnitFirst(u: octets, rest: octets)
    requires |u| == 4
    ensures DecodeUnits(u + rest) ==
      match Unit(u[0], u[1], u[2], u[3]) { case None => None case Some(v) => Prepend(v, DecodeUnits(rest)) }
  {
    hide Unit;
    assert (u + rest)[4..] == rest;
  }

  lemma Group3Decodes(x: octet, y: octet, z: octet, rest: octets)
    ensures DecodeUnits(Group3(Word3(x, y, z)) + rest) == Prepend([x, y, z], DecodeUnits(rest))
  {
    hide Unit, DecodeUnits, Octets, Word3, Group3;
    ThreeOctets(x, y, z);
    UnitOfThree(Word3(x, y, z));
    UnitFirst(Group3(Word3(x, y, z)), rest);
  }

  lemma UnitOfThree(t: bv32)
    requires t <= 0xff_ffff
    ensures var g := Group3(t); Unit(g[0], g[1], g[2], g[3]) == Some(Octets(t))
  {
    hide Unit, EncTab, Octets, Join4;
    Sextets(t);
    UnitOfSextets(t >> 18, (t >> 12) & 0x3f, (t >> 6) & 0x3f, t & 0x3f);
  }

  lemma Group2Decodes(x: octet, y: octet, rest: octets)
    ensures DecodeUnits(Group2(Word2(x, y)) + rest) == Prepend([x, y], DecodeUnits(rest))
  {
    hide Unit, DecodeUnits, Octets, Word2, Group2;
    TwoOctets(x, y);
    UnitOfTwo(Word2(x, y));
    UnitFirst(Group2(Word2(x, y)), rest);
    assert [x, y, 0][..2] == [x, y];
  }

  lemma UnitOfTwo(t: bv32)
    requires t <= 0xffff
    ensures var g := Group2(t); Unit(g[0], g[1], g[2], g[3]) == Some(Octets(t << 8)[..2])
  {
    hide Unit, EncTab, Octets, Join4;
    Sextets2(t);
    UnitOfSextets(t >> 10, (t >> 4) & 0x3f, (t << 2) & 0x3f, 0);
  }

  lemma Group1Decodes(x: octet, rest: octets)
    ensures DecodeUnits(Group1(Wide(x)) + rest) == Prepend([x], DecodeUnits(rest))
  {
    hide Unit, DecodeUnits, Octets, Wide, Group1;
    OneOctet(x);
    UnitOfOne(Wide(x));
    UnitFirst(Group1(Wide(x)), rest);
    assert [x, 0, 0][..1] == [x];
  }

  lemma UnitOfOne(t: bv32)
    requires t <= 0xff
    ensures var g := Group1(t); Unit(g[0], g[1], g[2], g[3]) == Some(Octets(t << 16)[..1])
  {
    hide Unit, EncTab, Octets, Join4;
    Sextets1(t);
    UnitOfSextets(t >> 2, (t << 4) & 0x3f, 0, 0);
  }

  /** Decoding undoes encoding, whatever follows. */
  lemma {:induction false} DecodeUndoesEncode(s: octets, rest: octets)
    ensures DecodeUnits(Encode(s) + rest) == Prepend(s, DecodeUnits(rest))
  {
    hide Group1, Group2, Group3, Word2, Word3, DecodeUnits;
    if s == [] {
      assert Encode(s) + rest == rest;
      PrependNothing(DecodeUnits(rest));
    } else if |s| == 1 {
      Group1Decodes(s[0], rest);
      assert s == [s[0]];
    } else if |s| == 2 {
      Group2Decodes(s[0], s[1], rest);
      assert s == [s[0], s[1]];
    } else {
      var more := Encode(s[3..]) + rest;
      assert Encode(s) + rest == Group3(Word3(s[0], s[1], s[2])) + more;
      Group3Decodes(s[0], s[1], s[2], more);
      DecodeUndoesEncode(s[3..], rest);
      PrependTwice([s[0], s[1], s[2]], s[3..], DecodeUnits(rest));
      assert [s[0], s[1], s[2]] + s[3..] == s;
    }
  }

  lemma PrependNothing(c: Option<octets>)
    ensures Prepend([], c) == c
  {
    if c.Some? { assert [] + c.value == c.value; }
  }

  lemma PrependTwice(a: octets, b: octets, c: Option<octets>)
    ensures Prepend(a, Prepend(b, c)) == Prepend(a + b, c)
  {
    if c.Some? { assert a + (b + c.value) == a + b + c.value; }
  }

  lemma {:induction false} StripCat(a: octets, b: octets)
    ensures Strip(a + b) == Strip(a) + Strip(b)
  {
    hide IsSpace;
    if a == [] {
      assert a + b == b;
    } else {
      assert (a + b)[1..] == a[1..] + b;
      StripCat(a[1..], b);
    }
  }

  lemma {:induction false} StripClean(s: octets)
    requires forall ch :: ch in s ==> !IsSpace(ch)
    ensures Strip(s) == s
  {
    if s != [] { StripClean(s[1..]); }
  }

  lemma {:induction false} StripSpaces(s: octets)
    requires forall ch :: ch in s ==> IsSpace(ch)
    ensures Strip(s) == []
  {
    if s != [] { StripSpaces(s[1..]); }
  }

  lemma {:induction false} EncodeHasNoSpaces(s: octets)
    ensures Strip(Encode(s)) == Encode(s)
  {
    hide EncTab, IsSpace, Strip;
    EncodeChars(s);
    StripClean(Encode(s));
  }

  lemma {:induction false} EncodeChars(s: octets)
    ensures forall ch :: ch in Encode(s) ==> !IsSpace(ch)
  {
    hide Group1, Group2, Group3, Word2, Word3, Wide, IsSpace;
    if |s| == 1 {
      GroupChars(Wide(s[0]));
    } else if |s| == 2 {
      GroupChars(Word2(s[0], s[1]));
    } else if |s| > 2 {
      GroupChars(Word3(s[0], s[1], s[2]));
      EncodeChars(s[3..]);
    }
  }

  lemma GroupChars(t: bv32)
    requires t <= 0xff_ffff
    ensures forall ch :: ch in Group3(t) ==> !IsSpace(ch)
    ensures t <= 0xffff ==> forall ch :: ch in Group2(t) ==> !IsSpace(ch)
    ensures t <= 0xff ==> forall ch :: ch in Group1(t) ==> !IsSpace(ch)
  {
    hide EncTab, IsSpace;
    forall x: bv32 | x < 64 ensures !IsSpace(EncTab(x)) { TablesInverse(x); }
    EqualsIsNoSpace();
  }

  lemma EqualsIsNoSpace()
    ensures !IsSpace(EQUALS)
  {
  }

  /** Encoded pieces, padded or not, may be written one after the other. */
  lemma DecodeConcatenated(a: octets, b: octets)
    ensures Decode(Encode(a) + Encode(b)) == Some(a + b)
  {
    hide Encode, DecodeUnits, Strip;
    StripCat(Encode(a), Encode(b));
    EncodeHasNoSpaces(a);
    EncodeHasNoSpaces(b);
    DecodeUndoesEncode(a, Encode(b));
    DecodeUndoesEncode(b, []);
    NoUnits();
    assert Encode(b) + [] == Encode(b);
    assert b + [] == b;
  }

  lemma NoUnits()
    ensures DecodeUnits([]) == Some([])
  {
  }

  /** Every octet string survives. */
  lemma RoundTrip(s: octets)
    ensures Decode(Encode(s)) == Some(s)
  {
    hide Decode;
    DecodeConcatenated(s, []);
    assert Encode(s) + Encode([]) == Encode(s) && s + [] == s;
  }

  /** Whitespace anywhere makes no difference to what a text decodes to, or whether it does. */
  lemma SpacesIgnored(a: octets, spaces: octets, b: octets)
    requires forall ch :: ch in spaces ==> IsSpace(ch)
    ensures Decode(a + spaces + b) == Decode(a + b)
  {
    hide DecodeUnits, Strip, IsSpace;
    StripCat(a + spaces, b);
    StripCat(a, spaces);
    StripSpaces(spaces);
    assert Strip(a) + [] == Strip(a);
    StripCat(a, b);
  }

  /** A text decodes to at most three octets for every four characters. */
  lemma {:induction false} DecodeBound(s: octets)
    ensures DecodeUnits(s).Some? ==> 4 * |DecodeUnits(s).value| <= 3 * |s|
  {
    hide Unit;
    if |s| >= 4 {
      UnitSize(s[0], s[1], s[2], s[3]);
      DecodeBound(s[4..]);
    }
  }

  lemma UnitSize(a: octet, b: octet, c: octet, d: octet)
    ensures Unit(a, b, c, d).Some? ==> 1 <= |Unit(a, b, c, d).value| <= 3
  {
    hide Join4, IsChar, DecTab;
  }

  // ----- encoders -----

  lemma EncodeFirst(src: octets, i: nat)
    requires i + 3 <= |src|
    ensures Encode(src[i..]) == Group3(Word3(src[i], src[i + 1], src[i + 2])) + Encode(src[i + 3..])
  {
    hide Group3, Word3;
    assert src[i..][3..] == src[i + 3..];
  }

  lemma Extend(a: octets, b: octets, c: octets, d: octets, all: octets)
    requires a + (b + c) == all && d == a + b
    ensures d + c == all
  {
  }

  method Put4(dst: array<octet>, q: nat, a: octet, b: octet, c: octet, d: octet)
    requires q + 4 <= dst.Length
    modifies dst
    ensures dst[..q + 4] == old(dst[..q]) + [a, b, c, d]
  {
    dst[q] := a;
    dst[q + 1] := b;
    dst[q + 2] := c;
    dst[q + 3] := d;
  }

  /** duk__base64_encode_helper() of the fast build: three octets at a time, then what is left. */
  method EncodeFast(src: octets, dst: array<octet>)
    requires dst.Length == EncodeSize(|src|)
    modifies dst
    ensures dst[..] == Encode(src)
  {
    hide EncTab, Wide, Encode, Word3, Group3;
    var nFull3 := |src| / 3 * 3;
    var p, q := 0, 0;
    assert src[0..] == src;
    while p != nFull3
      invariant p <= nFull3 && p % 3 == 0 && q == p / 3 * 4
      invariant dst[..q] + Encode(src[p..]) == Encode(src)
    {
      ghost var before := dst[..q];
      EncodeFirst(src, p);
      EmitGroup3(src[p], src[p + 1], src[p + 2], dst, q);
      Extend(before, Group3(Word3(src[p], src[p + 1], src[p + 2])), Encode(src[p + 3..]), dst[..q + 4], Encode(src));
      p := p + 3;
      q := q + 4;
    }
    EncodeRest(src, p, dst, q);
  }

  method EmitGroup3(x: octet, y: octet, z: octet, dst: array<octet>, q: nat)
    requires q + 4 <= dst.Length
    modifies dst
    ensures dst[..q + 4] == old(dst[..q]) + Group3(Word3(x, y, z))
  {
    hide EncTab;
    var t := Wide(x);
    t := (t << 8) + Wide(y);
    t := (t << 8) + Wide(z);
    Put4(dst, q, EncTab(t >> 18), EncTab((t >> 12) & 0x3f), EncTab((t >> 6) & 0x3f), EncTab(t & 0x3f));
  }

  method EmitGroup2(x: octet, y: octet, dst: array<octet>, q: nat)
    requires q + 4 <= dst.Length
    modifies dst
    ensures dst[..q + 4] == old(dst[..q]) + Group2(Word2(x, y))
  {
    hide EncTab;
    var t := Wide(x);
    t := (t << 8) + Wide(y);
    Put4(dst, q, EncTab(t >> 10), EncTab((t >> 4) & 0x3f), EncTab((t << 2) & 0x3f), EQUALS);
  }

  method EmitGroup1(x: octet, dst: array<octet>, q: nat)
    requires q + 4 <= dst.Length
    modifies dst
    ensures dst[..q + 4] == old(dst[..q]) + Group1(Wide(x))
  {
    hide EncTab;
    var t := Wide(x);
    Put4(dst, q, EncTab(t >> 2), EncTab((t << 4) & 0x3f), EQUALS, EQUALS);
  }

  method EncodeRest(src: octets, p: nat, dst: array<octet>, q: nat)
    requires p <= |src| < p + 3 && dst.Length == q + (if p == |src| then 0 else 4)
    modifies dst
    ensures dst[..] == old(dst[..q]) + Encode(src[p..])
  {
    hide Group1, Group2, Wide, Word2;
    ghost var rest := src[p..];
    match |src| - p {
      case 1 => EmitGroup1(src[p], dst, q);
      case 2 => EmitGroup2(src[p], src[p + 1], dst, q);
      case _ =>
    }
    assert dst[..] == dst[..dst.Length];
    assert Encode(rest) == if |rest| == 0 then [] else if |rest| == 1 then Group1(Wide(rest[0])) else Group2(Word2(rest[0], rest[1]));
  }

  /** The top six bits of a 24-bit group. */
  function Top6(t: bv32): (x: bv32)
    ensures x < 64
  {
    (t >> 18) & 0x3f
  }

  function Shift6(t: bv32): bv32 { t << 6 }

  function ShiftBy(t: bv32, i: nat): bv32 { if i == 0 then t else Shift6(ShiftBy(t, i - 1)) }

  /** The characters of a 24-bit group of which the first `snip` count. */
  function Quad(t: bv32, snip: int): (r: octets)
    ensures |r| == 4
  {
    [EncTab(Top6(t)), EncTab(Top6(ShiftBy(t, 1))),
     if snip <= 2 then EQUALS else EncTab(Top6(ShiftBy(t, 2))),
     if snip <= 3 then EQUALS else EncTab(Top6(ShiftBy(t, 3)))]
  }

  function Shift8(t: bv32): bv32 { t << 8 }

  function Plus(t: bv32, x: octet): bv32 { t + Wide(x) }

  function ShiftIn(t: bv32, s: octets, i: nat): bv32 {
    if i < |s| then Plus(Shift8(t), s[i]) else Shift8(t)
  }

  /** The group of up to three octets, zero padded. */
  function Padded(s: octets): bv32 { ShiftIn(ShiftIn(ShiftIn(0, s, 0), s, 1), s, 2) }

  lemma QuadIsGroup(s: octets)
    requires s != []
    ensures Encode(s) == if |s| >= 3 then Quad(Padded(s), 4) + Encode(s[3..]) else Quad(Padded(s), 1 + |s|)
  {
    hide Quad, Padded, Group1, Group2, Group3, Word3, Word2, Wide, Shift8;
    if |s| >= 3 {
      Padded3(s);
      Quad3(Padded(s));
    } else if |s| == 2 {
      Padded2(s);
      Quad2(Word2(s[0], s[1]));
    } else {
      Padded1(s);
      Quad1(Wide(s[0]));
    }
  }

  lemma Padded3(s: octets)
    requires |s| >= 3
    ensures Padded(s) == Word3(s[0], s[1], s[2])
  {
    hide Wide;
    assert Shift8(0) + Wide(s[0]) == Wide(s[0]);
  }

  lemma Padded2(s: octets)
    requires |s| == 2
    ensures Padded(s) == Shift8(Word2(s[0], s[1]))
  {
    hide Wide;
    assert Shift8(0) + Wide(s[0]) == Wide(s[0]);
  }

  lemma Padded1(s: octets)
    requires |s| == 1
    ensures Padded(s) == Shift8(Shift8(Wide(s[0])))
  {
    hide Wide;
    assert Shift8(0) + Wide(s[0]) == Wide(s[0]);
  }

  lemma Quad3(t: bv32)
    requires t <= 0xff_ffff
    ensures Quad(t, 4) == Group3(t)
  {
    hide EncTab;
    Shifts(t);
  }

  lemma Quad2(t: bv32)
    requires t <= 0xffff
    ensures Quad(Shift8(t), 3) == Group2(t)
  {
    hide EncTab;
    Shifts(Shift8(t));
  }

  lemma Quad1(t: bv32)
    requires t <= 0xff
    ensures Quad(Shift8(Shift8(t)), 2) == Group1(t)
  {
    hide EncTab;
    Shifts(Shift8(Shift8(t)));
  }

  lemma Shifts(t: bv32)
    ensures Top6(ShiftBy(t, 1)) == (t >> 12) & 0x3f && Top6(ShiftBy(t, 2)) == (t >> 6) & 0x3f
    ensures Top6(ShiftBy(t, 3)) == t & 0x3f
  {
    var t1, t2, t3 := ShiftBy(t, 1), ShiftBy(t, 2), ShiftBy(t, 3);
    assert t1 == Shift6(ShiftBy(t, 0)) && t2 == Shift6(t1) && t3 == Shift6(t2);
  }

  /** duk__base64_encode_helper() of the plain build. */
  method EncodePlain(src: octets, dst: array<octet>)
    requires dst.Length == EncodeSize(|src|)
    modifies dst
    ensures dst[..] == Encode(src)
  {
    hide Quad, Padded, Encode, EncodeSize;
    assert EncodeSize(0) == 0 by { QuadRoom(0, 0, 0); }
    var p, q := 0, 0;
    assert src[0..] == src;
    while p < |src|
      invariant p <= |src| && q == EncodeSize(p) <= dst.Length && (p < |src| ==> p % 3 == 0)
      invariant dst[..q] + Encode(src[p..]) == Encode(src)
    {
      ghost var before := dst[..q];
      var t, snip, next := ReadGroup(src, p);
      QuadStep(src, p, next);
      QuadRoom(|src|, p, next);
      WriteGroup(t, snip, dst, q);
      Extend(before, Quad(t, snip), Encode(src[next..]), dst[..q + 4], Encode(src));
      p := next;
      q := q + 4;
    }
    EncodeNothing();
    assert src[p..] == [] && dst[..] == dst[..q];
  }

  /** The group read next is encoded first. */
  lemma QuadStep(src: octets, p: nat, next: nat)
    requires p < |src| && next == if p + 3 <= |src| then p + 3 else |src|
    ensures Encode(src[p..]) == Quad(Padded(src[p..]), next - p + 1) + Encode(src[next..])
  {
    hide Quad, Padded, Encode;
    var rest := src[p..];
    QuadIsGroup(rest);
    EncodeNothing();
    assert src[next..] == if |rest| >= 3 then rest[3..] else [];
  }

  /** There is room for it, and the size written is again that of what has been read. */
  lemma QuadRoom(n: nat, p: nat, next: nat)
    requires p < n ==> p % 3 == 0 && next == if p + 3 <= n then p + 3 else n
    ensures EncodeSize(0) == 0
    ensures p < n ==> EncodeSize(p) + 4 == EncodeSize(next) <= EncodeSize(n) && (next < n ==> next % 3 == 0)
  {
  }

  lemma EncodeNothing()
    ensures Encode([]) == []
  {
  }

  method ReadGroup(src: octets, start: nat) returns (t: bv32, snip: int, p: nat)
    requires start < |src|
    ensures p == (if start + 3 <= |src| then start + 3 else |src|)
    ensures t == Padded(src[start..]) && snip == p - start + 1
  {
    hide Shift8, Plus;
    p, snip, t := start, 4, 0;
    ghost var s := src[start..];
    var i := 0;
    while i < 3
      invariant 0 <= i <= 3 && p == (if start + i <= |src| then start + i else |src|)
      invariant snip == 4 - (start + i - p)
      invariant i == 0 ==> t == 0
      invariant i == 1 ==> t == ShiftIn(0, s, 0)
      invariant i == 2 ==> t == ShiftIn(ShiftIn(0, s, 0), s, 1)
      invariant i == 3 ==> t == Padded(s)
    {
      t := Shift8(t);
      if p >= |src| {
        snip := snip - 1;
      } else {
        t := Plus(t, src[p]);
        p := p + 1;
      }
      i := i + 1;
    }
  }

  /** One of the 64 characters, computed instead of looked up. */
  method PlainChar(x: bv32) returns (y: octet)
    requires x < 64
    ensures y == EncTab(x)
  {
    hide EncTab;
    EncTableRight(x);
    if x <= 25 {
      y := (x + 0x41) as bv8;
    } else if x <= 51 {
      y := (x - 26 + 0x61) as bv8;
    } else if x <= 61 {
      y := (x - 52 + 0x30) as bv8;
    } else if x == 62 {
      y := 0x2b;
    } else {
      y := 0x2f;
    }
  }

  method WriteGroup(group: bv32, snip: int, dst: array<octet>, q: nat)
    requires q + 4 <= dst.Length && 2 <= snip <= 4
    modifies dst
    ensures dst[..q + 4] == old(dst[..q]) + Quad(group, snip)
  {
    hide EncTab, Top6, Shift6;
    var t := group;
    var i := 0;
    while i < 4
      invariant 0 <= i <= 4 && t == ShiftBy(group, i)
      invariant dst[..q + i] == old(dst[..q]) + Quad(group, snip)[..i]
    {
      var x := Top6(t);
      t := Shift6(t);
      if i >= snip {
        dst[q + i] := EQUALS;
      } else {
        dst[q + i] := PlainChar(x);
      }
      assert dst[q + i] == Quad(group, snip)[i];
      i := i + 1;
    }
  }

  // ----- decoders -----

  function Append6(t: bv32, x: bv32): bv32 { (t << 6) + x }

  /** The bits of the characters of a unit read so far; padding counts as zeros. */
  function Acc(g: octets): bv32 {
    if g == [] then 0
    else
      var ch := g[|g| - 1];
      if ch == EQUALS then Shift6(Acc(g[..|g| - 1])) else Append6(Acc(g[..|g| - 1]), DecTab(ch))
  }

  /** Characters, then `pad` equal signs. */
  predicate Shape(g: octets, pad: nat) {
    pad <= |g| && (forall j :: 0 <= j < |g| - pad ==> IsChar(g[j])) && (forall j :: |g| - pad <= j < |g| ==> g[j] == EQUALS)
  }

  lemma EqualsIsNoChar()
    ensures !IsChar(EQUALS)
  {
  }

  lemma Acc4(g: octets)
    requires |g| == 4
    ensures Acc(g) == AccStep(AccStep(AccStep(AccStep(0, g[0]), g[1]), g[2]), g[3])
  {
    hide DecTab, Append6, Shift6;
    assert g[..3][..2] == g[..2] && g[..2][..1] == g[..1] && g[..1][..0] == [];
    assert Acc(g[..1]) == AccStep(Acc(g[..1][..0]), g[0]);
    assert Acc(g[..2]) == AccStep(Acc(g[..2][..1]), g[1]);
    assert Acc(g[..3]) == AccStep(Acc(g[..3][..2]), g[2]);
  }

  function AccStep(t: bv32, ch: octet): bv32 { if ch == EQUALS then Shift6(t) else Append6(t, DecTab(ch)) }

  lemma AccJoins4(a: bv32, b: bv32, c: bv32, d: bv32)
    requires a < 64 && b < 64 && c < 64 && d < 64
    ensures Append6(Append6(Append6(Append6(0, a), b), c), d) == Join4(a, b, c, d)
  {
  }

  lemma AccJoins3(a: bv32, b: bv32, c: bv32)
    requires a < 64 && b < 64 && c < 64
    ensures Shift6(Append6(Append6(Append6(0, a), b), c)) == Join4(a, b, c, 0)
  {
  }

  lemma AccJoins2(a: bv32, b: bv32)
    requires a < 64 && b < 64
    ensures Shift6(Shift6(Append6(Append6(0, a), b))) == Join4(a, b, 0, 0)
  {
  }

  /** A complete unit: three octets less the padding, which must not exceed two. */
  lemma UnitComplete(g: octets, pad: nat)
    requires |g| == 4 && Shape(g, pad)
    ensures Unit(g[0], g[1], g[2], g[3]) == if pad > 2 then None else Some(Octets(Acc(g))[..3 - pad])
  {
    hide DecTab, Shift6, Append6, Join4, Octets, Acc;
    EqualsIsNoChar();
    Acc4(g);
    match pad {
      case 0 => AccJoins4(DecTab(g[0]), DecTab(g[1]), DecTab(g[2]), DecTab(g[3]));
      case 1 => AccJoins3(DecTab(g[0]), DecTab(g[1]), DecTab(g[2]));
      case 2 => AccJoins2(DecTab(g[0]), DecTab(g[1]));
      case _ =>
    }
    if pad == 0 { assert Octets(Acc(g))[..3] == Octets(Acc(g)); }
  }

  /** A unit that can no longer be completed. */
  lemma UnitBroken(g: octets, pad: nat, ch: octet, rest: octets)
    requires |g| < 4 && Shape(g, pad) && !IsSpace(ch) && ch != EQUALS && (pad > 0 || !IsChar(ch))
    ensures DecodeUnits(g + ([ch] + rest)) == None
  {
    hide DecTab, IsSpace, Octets, Join4;
    EqualsIsNoChar();
    var u := g + ([ch] + rest);
    assert u[|g|] == ch;
    if pad > 0 { assert u[|g| - 1] == EQUALS; }
    forall j | 0 <= j < |g| ensures u[j] == g[j] {
    }
  }

  lemma StripFirst(src: octets, p: nat)
    requires p < |src|
    ensures Strip(src[p..]) == (if IsSpace(src[p]) then [] else [src[p]]) + Strip(src[p + 1..])
  {
    hide IsSpace;
    assert src[p..][1..] == src[p + 1..];
  }

  /** What is decoded so far, the unit begun, and what is left make up the whole. */
  ghost predicate Progress(src: octets, done: octets, g: octets, p: nat) {
    p <= |src| && Decode(src) == Prepend(done, DecodeUnits(g + Strip(src[p..])))
  }

  lemma StartProgress(src: octets)
    ensures Progress(src, [], [], 0)
  {
    hide Strip, DecodeUnits;
    assert src[0..] == src && [] + Strip(src) == Strip(src);
    PrependNothing(Decode(src));
  }

  lemma SkipSpace(src: octets, done: octets, g: octets, p: nat)
    requires Progress(src, done, g, p) && p < |src| && IsSpace(src[p])
    ensures Progress(src, done, g, p + 1)
  {
    hide Strip, DecodeUnits, IsSpace, Decode;
    StripFirst(src, p);
    assert [] + Strip(src[p + 1..]) == Strip(src[p + 1..]);
  }

  lemma TakeOne(src: octets, done: octets, g: octets, p: nat)
    requires Progress(src, done, g, p) && p < |src| && !IsSpace(src[p])
    ensures Progress(src, done, g + [src[p]], p + 1)
  {
    hide Strip, DecodeUnits, IsSpace, Decode;
    StripFirst(src, p);
    assert g + ([src[p]] + Strip(src[p + 1..])) == g + [src[p]] + Strip(src[p + 1..]);
  }

  lemma FinishUnit(src: octets, done: octets, g: octets, p: nat, pad: nat)
    requires Progress(src, done, g, p) && |g| == 4 && Shape(g, pad)
    ensures pad > 2 ==> Decode(src) == None
    ensures pad <= 2 ==> Progress(src, done + Octets(Acc(g))[..3 - pad], [], p)
  {
    hide Strip, DecodeUnits, Decode, Octets, Acc, Shape, Unit;
    UnitComplete(g, pad);
    var left := Strip(src[p..]);
    UnitFirst(g, left);
    if pad <= 2 {
      PrependTwice(done, Octets(Acc(g))[..3 - pad], DecodeUnits(left));
      assert [] + left == left;
    }
  }

  lemma BreakUnit(src: octets, done: octets, g: octets, p: nat, pad: nat)
    requires Progress(src, done, g, p) && p < |src| && |g| < 4 && Shape(g, pad)
    requires !IsSpace(src[p]) && src[p] != EQUALS && (pad > 0 || !IsChar(src[p]))
    ensures Decode(src) == None
  {
    hide Strip, DecodeUnits, IsSpace, Decode, Shape, IsChar;
    StripFirst(src, p);
    UnitBroken(g, pad, src[p], Strip(src[p + 1..]));
  }

  lemma EndOfInput(src: octets, done: octets, g: octets)
    requires Progress(src, done, g, |src|) && |g| < 4
    ensures Decode(src) == if g == [] then Some(done) else None
  {
    hide Decode, Unit;
    assert Strip(src[|src|..]) == [] && g + [] == g;
    if g == [] { assert done + [] == done; }
  }

  method Put3(dst: array<octet>, q: nat, t: bv32)
    requires q + 3 <= dst.Length
    modifies dst
    ensures dst[..q + 3] == old(dst[..q]) + Octets(t)
  {
    var o := Octets(t);
    dst[q] := o[0];
    dst[q + 1] := o[1];
    dst[q + 2] := o[2];
  }

  /** Value class of a character by comparisons, as the plain decoder has it. */
  method PlainClass(x: octet) returns (y: bv32)
    ensures y == DecTab(x)
  {
    hide DecTab;
    DecTableRight(x);
    if 0x41 <= x && x <= 0x5a {
      y := x as bv32 - 0x41;
    } else if 0x61 <= x && x <= 0x7a {
      y := x as bv32 - 0x61 + 26;
    } else if 0x30 <= x && x <= 0x39 {
      y := x as bv32 - 0x30 + 52;
    } else if x == 0x2b {
      y := 62;
    } else if x == 0x2f {
      y := 63;
    } else if x == EQUALS {
      y := DEC_EQUALS;
    } else if x == 0x09 || x == 0x0a || x == 0x0d || x == 0x20 {
      y := DEC_SPACE;
    } else {
      y := DEC_ERROR;
    }
  }

  datatype Class = Digit | Space | Pad | Error

  function ClassOf(x: bv32): Class {
    if x == DEC_SPACE then Space else if x == DEC_EQUALS then Pad else if x < 64 then Digit else Error
  }

  lemma Classes(ch: octet)
    ensures ClassOf(DecTab(ch)) == Space <==> IsSpace(ch)
    ensures ClassOf(DecTab(ch)) == Pad <==> ch == EQUALS
    ensures ClassOf(DecTab(ch)) == Digit <==> IsChar(ch)
    ensures ch == EQUALS ==> !IsSpace(ch)
    ensures IsChar(ch) ==> !IsSpace(ch)
  {
    TableClasses(ch);
  }

  lemma GrowDigit(g: octets, ch: octet)
    requires Shape(g, 0) && IsChar(ch)
    ensures Shape(g + [ch], 0) && Acc(g + [ch]) == Append6(Acc(g), DecTab(ch))
  {
    hide DecTab, Append6, Shift6;
    EqualsIsNoChar();
    assert (g + [ch])[..|g|] == g;
  }

  lemma GrowPad(g: octets, pad: nat)
    requires Shape(g, pad)
    ensures Shape(g + [EQUALS], pad + 1) && Acc(g + [EQUALS]) == Shift6(Acc(g))
  {
    hide DecTab, Append6, Shift6;
    assert (g + [EQUALS])[..|g|] == g;
  }

  /** The size the caller reserves for the result. */
  function DecodeSize(n: nat): nat { (n + 3) / 4 * 3 }

  /** duk__base64_decode_helper() of the plain build: one character at a time. */
  method DecodePlain(src: octets, dst: array<octet>) returns (ok: bool, q: nat)
    requires dst.Length == DecodeSize(|src|)
    modifies dst
    ensures q <= dst.Length && Decode(src) == if ok then Some(dst[..q]) else None
  {
    hide Progress, Shape, Acc, DecTab, IsSpace, IsChar, Shift6, Append6, Octets, Decode, ClassOf;
    var t: bv32 := 0;
    var groupIdx, nEqual, p := 0, 0, 0;
    ghost var g: octets := [];
    ghost var units := 0;
    q := 0;
    StartProgress(src);
    FreshUnit();
    assert dst[..0] == [];
    while p < |src|
      invariant q <= 3 * units && 4 * units + groupIdx <= p <= |src|
      invariant |g| == groupIdx < 4 && nEqual >= 0 && Shape(g, nEqual) && t == Acc(g)
      invariant Progress(src, dst[..q], g, p)
    {
      var x := src[p];
      Classes(x);
      var y := PlainClass(x);
      p := p + 1;
      match ClassOf(y) {
        case Error =>
          BreakUnit(src, dst[..q], g, p - 1, nEqual);
          return false, q;
        case Space =>
          SkipSpace(src, dst[..q], g, p - 1);
          continue;
        case Pad =>
          GrowPad(g, nEqual);
          nEqual := nEqual + 1;
          t := Shift6(t);
        case Digit =>
          if nEqual > 0 {
            BreakUnit(src, dst[..q], g, p - 1, nEqual);
            return false, q;
          }
          GrowDigit(g, x);
          t := Append6(t, y);
      }
      TakeOne(src, dst[..q], g, p - 1);
      g := g + [x];
      if groupIdx == 3 {
        FinishUnit(src, dst[..q], g, p, nEqual);
        ghost var before := dst[..q];
        Put3(dst, q, t);
        assert 3 - nEqual >= 0 ==> dst[..q + 3 - nEqual] == before + Octets(t)[..3 - nEqual] by { Kept(dst[..q + 3], before, Octets(t), nEqual); }
        q := q + 3;
        if nEqual > 0 {
          if nEqual == 1 {
            q := q - 1;
          } else if nEqual == 2 {
            q := q - 2;
          } else {
            return false, q;
          }
          nEqual := 0;
        }
        t := 0;
        groupIdx := 0;
        g := [];
        units := units + 1;
        FreshUnit();
      } else {
        groupIdx := groupIdx + 1;
      }
    }
    EndOfInput(src, dst[..q], g);
    ok := groupIdx == 0;
  }

  lemma FreshUnit()
    ensures Shape([], 0) && Acc([]) == 0
  {
  }

  lemma Kept(all: octets, a: octets, o: octets, pad: nat)
    requires all == a + o && |o| == 3
    ensures pad <= 3 ==> all[..|a| + 3 - pad] == a + o[..3 - pad]
  {
  }

  // ----- the fast decoder -----

  /** Four table entries shifted together; an entry below zero shows in the top bit. */
  function FastWord(a: bv32, b: bv32, c: bv32, d: bv32): bv32 {
    (((((a << 6) | b) << 6) | c) << 6) | d
  }

  function Negative(t: bv32): bool { t >= 0x8000_0000 }

  predicate TableValue(x: bv32) { x < 64 || x >= DEC_EQUALS }

  lemma CleanWord(a: bv32, b: bv32, c: bv32, d: bv32)
    requires a < 64 && b < 64 && c < 64 && d < 64
    ensures FastWord(a, b, c, d) == Join4(a, b, c, d)
  {
  }

  /** The sign of the word tells whether all four were characters. */
  lemma SignBit(a: bv32, b: bv32, c: bv32, d: bv32)
    requires TableValue(a) && TableValue(b) && TableValue(c) && TableValue(d)
    ensures Negative(FastWord(a, b, c, d)) <==> !(a < 64 && b < 64 && c < 64 && d < 64)
  {
  }

  lemma FastUnit(src: octets, done: octets, p: nat)
    requires Progress(src, done, [], p) && p + 4 <= |src|
    requires !Negative(FastWord(DecTab(src[p]), DecTab(src[p + 1]), DecTab(src[p + 2]), DecTab(src[p + 3])))
    ensures Progress(src, done + Octets(FastWord(DecTab(src[p]), DecTab(src[p + 1]), DecTab(src[p + 2]), DecTab(src[p + 3]))), [], p + 4)
  {
    hide Progress, DecTab, FastWord, Negative, Join4, Octets, IsSpace, TableValue;
    var a, b, c, d := src[p], src[p + 1], src[p + 2], src[p + 3];
    AllChars(a, b, c, d);
    assert [] + [a] == [a] && [a] + [b] == [a, b] && [a, b] + [c] == [a, b, c] && [a, b, c] + [d] == [a, b, c, d];
    TakeOne(src, done, [], p);
    TakeOne(src, done, [a], p + 1);
    TakeOne(src, done, [a, b], p + 2);
    TakeOne(src, done, [a, b, c], p + 3);
    FinishClean(src, done, a, b, c, d, p + 4);
    CleanWord(DecTab(a), DecTab(b), DecTab(c), DecTab(d));
  }

  lemma AllChars(a: octet, b: octet, c: octet, d: octet)
    requires !Negative(FastWord(DecTab(a), DecTab(b), DecTab(c), DecTab(d)))
    ensures IsChar(a) && IsChar(b) && IsChar(c) && IsChar(d)
    ensures !IsSpace(a) && !IsSpace(b) && !IsSpace(c) && !IsSpace(d)
  {
    hide FastWord, Negative, DecTab, IsSpace;
    TableClasses(a);
    TableClasses(b);
    TableClasses(c);
    TableClasses(d);
    SignBit(DecTab(a), DecTab(b), DecTab(c), DecTab(d));
    Classes(a);
    Classes(b);
    Classes(c);
    Classes(d);
  }

  lemma FinishClean(src: octets, done: octets, a: octet, b: octet, c: octet, d: octet, p: nat)
    requires Progress(src, done, [a, b, c, d], p) && IsChar(a) && IsChar(b) && IsChar(c) && IsChar(d)
    ensures Progress(src, done + Octets(Join4(DecTab(a), DecTab(b), DecTab(c), DecTab(d))), [], p)
  {
    hide Strip, DecodeUnits, Decode, Octets, DecTab, Join4;
    EqualsIsNoChar();
    var left := Strip(src[p..]);
    UnitFirst([a, b, c, d], left);
    PrependTwice(done, Octets(Join4(DecTab(a), DecTab(b), DecTab(c), DecTab(d))), DecodeUnits(left));
    assert [] + left == left;
  }

  datatype SlowResult = UnitDone | InputDone | Invalid

  /** One unit the slow way: whitespace and padding allowed. */
  method SlowUnit(src: octets, start: nat, dst: array<octet>, q0: nat) returns (r: SlowResult, p: nat, q: nat)
    requires start <= |src| && q0 <= dst.Length && (start + 4 <= |src| ==> q0 + 3 <= dst.Length)
    requires Progress(src, dst[..q0], [], start)
    modifies dst
    ensures r == Invalid ==> Decode(src) == None
    ensures r == InputDone ==> q <= dst.Length && Decode(src) == Some(dst[..q])
    ensures r == UnitDone ==> start + 4 <= p <= |src| && q <= q0 + 3 <= dst.Length && Progress(src, dst[..q], [], p)
  {
    hide Progress, Shape, Acc, DecTab, IsSpace, IsChar, Shift6, Append6, Octets, Decode, ClassOf;
    var t: bv32 := 0;
    var nChars, nEqual := 0, 0;
    ghost var g: octets := [];
    p, q := start, q0;
    FreshUnit();
    while true
      invariant start + nChars <= p <= |src| && q == q0
      invariant |g| == nChars < 4 && nEqual >= 0 && Shape(g, nEqual) && t == Acc(g)
      invariant Progress(src, dst[..q], g, p)
      decreases |src| - p
    {
      if p >= |src| {
        EndOfInput(src, dst[..q], g);
        return if nChars != 0 then Invalid else InputDone, p, q;
      }
      var ch := src[p];
      Classes(ch);
      var x := DecTab(ch);
      p := p + 1;
      match ClassOf(x) {
        case Space =>
          SkipSpace(src, dst[..q], g, p - 1);
          continue;
        case Pad =>
          GrowPad(g, nEqual);
          nEqual := nEqual + 1;
          t := Shift6(t);
        case Error =>
          BreakUnit(src, dst[..q], g, p - 1, nEqual);
          return Invalid, p, q;
        case Digit =>
          if nEqual > 0 {
            BreakUnit(src, dst[..q], g, p - 1, nEqual);
            return Invalid, p, q;
          }
          GrowDigit(g, ch);
          t := Append6(t, x);
      }
      TakeOne(src, dst[..q], g, p - 1);
      g := g + [ch];
      if nChars == 3 {
        FinishUnit(src, dst[..q], g, p, nEqual);
        ghost var before := dst[..q];
        Put3(dst, q, t);
        assert 3 - nEqual >= 0 ==> dst[..q + 3 - nEqual] == before + Octets(t)[..3 - nEqual] by { Kept(dst[..q + 3], before, Octets(t), nEqual); }
        q := q + 3;
        if nEqual > 0 {
          if nEqual == 1 {
            q := q - 1;
          } else if nEqual == 2 {
            q := q - 2;
          } else {
            return Invalid, p, q;
          }
        }
        return UnitDone, p, q;
      }
      nChars := nChars + 1;
    }
  }

  /** Units of four characters at a time, as long as they are clean. */
  method FastUnits(src: octets, start: nat, dst: array<octet>, q0: nat, ghost units0: nat)
    returns (p: nat, q: nat, ghost units: nat)
    requires dst.Length == DecodeSize(|src|) && start <= |src|
    requires q0 <= 3 * units0 && 4 * units0 <= start && Progress(src, dst[..q0], [], start)
    modifies dst
    ensures q <= 3 * units && 4 * units <= p && start <= p <= |src| && Progress(src, dst[..q], [], p)
  {
    hide Progress, DecTab, FastWord, Octets, Negative;
    p, q, units := start, q0, units0;
    while p <= |src| - 4
      invariant q <= 3 * units && 4 * units <= p && start <= p <= |src| && Progress(src, dst[..q], [], p)
    {
      var t := FastWord(DecTab(src[p]), DecTab(src[p + 1]), DecTab(src[p + 2]), DecTab(src[p + 3]));
      if Negative(t) {
        break;
      }
      FastUnit(src, dst[..q], p);
      Put3(dst, q, t);
      p := p + 4;
      q := q + 3;
      units := units + 1;
    }
  }

  /** duk__base64_decode_helper() of the fast build: clean units fast, then one unit slowly, and again. */
  method DecodeFast(src: octets, dst: array<octet>) returns (ok: bool, q: nat)
    requires dst.Length == DecodeSize(|src|)
    modifies dst
    ensures q <= dst.Length && Decode(src) == if ok then Some(dst[..q]) else None
  {
    hide Progress, Decode;
    var p := 0;
    ghost var units := 0;
    q := 0;
    StartProgress(src);
    assert dst[..0] == [];
    while true
      invariant q <= 3 * units && 4 * units <= p <= |src| && Progress(src, dst[..q], [], p)
      decreases |src| - p
    {
      p, q, units := FastUnits(src, p, dst, q, units);
      var r;
      r, p, q := SlowUnit(src, p, dst, q);
      match r {
        case Invalid => return false, 0;
        case InputDone => return true, q;
        case UnitDone => units := units + 1;
      }
    }
  }

  // ----- sizes -----

  /** The limits on the input keep both size computations within 32 bits. */
  lemma SizesFit(n: nat)
    ensures n <= 3221225469 <==> EncodeSize(n) < 0x1_0000_0000
    ensures n <= 4294967292 <==> n + 3 < 0x1_0000_0000
  {
  }

  /** duk_base64_encode(), with either helper. */
  method Base64Encode(src: octets, fast: bool) returns (r: Option<octets>)
    ensures r == if |src| <= 3221225469 then Some(Encode(src)) else None
  {
    if |src| > 3221225469 {
      return None;
    }
    var dst := new octet[EncodeSize(|src|)];
    if fast {
      EncodeFast(src, dst);
    } else {
      EncodePlain(src, dst);
    }
    r := Some(dst[..]);
  }

  /** duk_base64_decode(), with either helper: the buffer is cut to what was decoded. */
  method Base64Decode(src: octets, fast: bool) returns (r: Option<octets>)
    ensures r == if |src| <= 4294967292 then Decode(src) else None
  {
    hide Decode;
    if |src| > 4294967292 {
      return None;
    }
    var dst := new octet[DecodeSize(|src|)];
    var ok, q;
    if fast {
      ok, q := DecodeFast(src, dst);
    } else {
      ok, q := DecodePlain(src, dst);
    }
    r := if ok then Some(dst[..q]) else None;
  }
}
