/** Lookup tables of byte values, sixteen entries a row, and what they say. */
module LookupTables {
  import opened Bytes

  /** Quoting: below 0x80 as is, 0x80 escape generically, 0x81 slow path, from 0xa0 on backslash and one character. */
  const QUOTESTR: seq<seq<int>> := [
    [0x80, 0x80, 0x80, 0x80, 0x80, 0x80, 0x80, 0x80, 0xe2, 0xf4, 0xee, 0x80, 0xe6, 0xf2, 0x80, 0x80],
    [0x80, 0x80, 0x80, 0x80, 0x80, 0x80, 0x80, 0x80, 0x80, 0x80, 0x80, 0x80, 0x80, 0x80, 0x80, 0x80],
    [0x20, 0x21, 0xa2, 0x23, 0x24, 0x25, 0x26, 0x27, 0x28, 0x29, 0x2a, 0x2b, 0x2c, 0x2d, 0x2e, 0x2f],
    [0x30, 0x31, 0x32, 0x33, 0x34, 0x35, 0x36, 0x37, 0x38, 0x39, 0x3a, 0x3b, 0x3c, 0x3d, 0x3e, 0x3f],
    [0x40, 0x41, 0x42, 0x43, 0x44, 0x45, 0x46, 0x47, 0x48, 0x49, 0x4a, 0x4b, 0x4c, 0x4d, 0x4e, 0x4f],
    [0x50, 0x51, 0x52, 0x53, 0x54, 0x55, 0x56, 0x57, 0x58, 0x59, 0x5a, 0x5b, 0xdc, 0x5d, 0x5e, 0x5f],
    [0x60, 0x61, 0x62, 0x63, 0x64, 0x65, 0x66, 0x67, 0x68, 0x69, 0x6a, 0x6b, 0x6c, 0x6d, 0x6e, 0x6f],
    [0x70, 0x71, 0x72, 0x73, 0x74, 0x75, 0x76, 0x77, 0x78, 0x79, 0x7a, 0x7b, 0x7c, 0x7d, 0x7e, 0x81],
    [0x81, 0x81, 0x81, 0x81, 0x81, 0x81, 0x81, 0x81, 0x81, 0x81, 0x81, 0x81, 0x81, 0x81, 0x81, 0x81],
    [0x81, 0x81, 0x81, 0x81, 0x81, 0x81, 0x81, 0x81, 0x81, 0x81, 0x81, 0x81, 0x81, 0x81, 0x81, 0x81],
    [0x81, 0x81, 0x81, 0x81, 0x81, 0x81, 0x81, 0x81, 0x81, 0x81, 0x81, 0x81, 0x81, 0x81, 0x81, 0x81],
    [0x81, 0x81, 0x81, 0x81, 0x81, 0x81, 0x81, 0x81, 0x81, 0x81, 0x81, 0x81, 0x81, 0x81, 0x81, 0x81],
    [0x81, 0x81, 0x81, 0x81, 0x81, 0x81, 0x81, 0x81, 0x81, 0x81, 0x81, 0x81, 0x81, 0x81, 0x81, 0x81],
    [0x81, 0x81, 0x81, 0x81, 0x81, 0x81, 0x81, 0x81, 0x81, 0x81, 0x81, 0x81, 0x81, 0x81, 0x81, 0x81],
    [0x81, 0x81, 0x81, 0x81, 0x81, 0x81, 0x81, 0x81, 0x81, 0x81, 0x81, 0x81, 0x81, 0x81, 0x81, 0x81],
    [0x81, 0x81, 0x81, 0x81, 0x81, 0x81, 0x81, 0x81, 0x81, 0x81, 0x81, 0x81, 0x81, 0x81, 0x81, 0x81]]

  /** Reading a string: zero for the slow path, otherwise as is. */
  const DECSTR: seq<seq<int>> := [
    [0x00, 0x00, 0x00, 0x00, 0x00, 0x00, 0x00, 0x00, 0x00, 0x00, 0x00, 0x00, 0x00, 0x00, 0x00, 0x00],
    [0x00, 0x00, 0x00, 0x00, 0x00, 0x00, 0x00, 0x00, 0x00, 0x00, 0x00, 0x00, 0x00, 0x00, 0x00, 0x00],
    [0x20, 0x21, 0x00, 0x23, 0x24, 0x25, 0x26, 0x27, 0x28, 0x29, 0x2a, 0x2b, 0x2c, 0x2d, 0x2e, 0x2f],
    [0x30, 0x31, 0x32, 0x33, 0x34, 0x35, 0x36, 0x37, 0x38, 0x39, 0x3a, 0x3b, 0x3c, 0x3d, 0x3e, 0x3f],
    [0x40, 0x41, 0x42, 0x43, 0x44, 0x45, 0x46, 0x47, 0x48, 0x49, 0x4a, 0x4b, 0x4c, 0x4d, 0x4e, 0x4f],
    [0x50, 0x51, 0x52, 0x53, 0x54, 0x55, 0x56, 0x57, 0x58, 0x59, 0x5a, 0x5b, 0x00, 0x5d, 0x5e, 0x5f],
    [0x60, 0x61, 0x62, 0x63, 0x64, 0x65, 0x66, 0x67, 0x68, 0x69, 0x6a, 0x6b, 0x6c, 0x6d, 0x6e, 0x6f],
    [0x70, 0x71, 0x72, 0x73, 0x74, 0x75, 0x76, 0x77, 0x78, 0x79, 0x7a, 0x7b, 0x7c, 0x7d, 0x7e, 0x7f],
    [0x80, 0x81, 0x82, 0x83, 0x84, 0x85, 0x86, 0x87, 0x88, 0x89, 0x8a, 0x8b, 0x8c, 0x8d, 0x8e, 0x8f],
    [0x90, 0x91, 0x92, 0x93, 0x94, 0x95, 0x96, 0x97, 0x98, 0x99, 0x9a, 0x9b, 0x9c, 0x9d, 0x9e, 0x9f],
    [0xa0, 0xa1, 0xa2, 0xa3, 0xa4, 0xa5, 0xa6, 0xa7, 0xa8, 0xa9, 0xaa, 0xab, 0xac, 0xad, 0xae, 0xaf],
    [0xb0, 0xb1, 0xb2, 0xb3, 0xb4, 0xb5, 0xb6, 0xb7, 0xb8, 0xb9, 0xba, 0xbb, 0xbc, 0xbd, 0xbe, 0xbf],
    [0xc0, 0xc1, 0xc2, 0xc3, 0xc4, 0xc5, 0xc6, 0xc7, 0xc8, 0xc9, 0xca, 0xcb, 0xcc, 0xcd, 0xce, 0xcf],
    [0xd0, 0xd1, 0xd2, 0xd3, 0xd4, 0xd5, 0xd6, 0xd7, 0xd8, 0xd9, 0xda, 0xdb, 0xdc, 0xdd, 0xde, 0xdf],
    [0xe0, 0xe1, 0xe2, 0xe3, 0xe4, 0xe5, 0xe6, 0xe7, 0xe8, 0xe9, 0xea, 0xeb, 0xec, 0xed, 0xee, 0xef],
    [0xf0, 0xf1, 0xf2, 0xf3, 0xf4, 0xf5, 0xf6, 0xf7, 0xf8, 0xf9, 0xfa, 0xfb, 0xfc, 0xfd, 0xfe, 0xff]]

  /** One for whitespace. */
  const EATWHITE: seq<seq<int>> := [
    [0, 0, 0, 0, 0, 0, 0, 0, 0, 1, 1, 0, 0, 1, 0, 0],
    [0, 0, 0, 0, 0, 0, 0, 0, 0, 0, 0, 0, 0, 0, 0, 0],
    [1, 0, 0, 0, 0, 0, 0, 0, 0, 0, 0, 0, 0, 0, 0, 0],
    [0, 0, 0, 0, 0, 0, 0, 0, 0, 0, 0, 0, 0, 0, 0, 0],
    [0, 0, 0, 0, 0, 0, 0, 0, 0, 0, 0, 0, 0, 0, 0, 0],
    [0, 0, 0, 0, 0, 0, 0, 0, 0, 0, 0, 0, 0, 0, 0, 0],
    [0, 0, 0, 0, 0, 0, 0, 0, 0, 0, 0, 0, 0, 0, 0, 0],
    [0, 0, 0, 0, 0, 0, 0, 0, 0, 0, 0, 0, 0, 0, 0, 0],
    [0, 0, 0, 0, 0, 0, 0, 0, 0, 0, 0, 0, 0, 0, 0, 0],
    [0, 0, 0, 0, 0, 0, 0, 0, 0, 0, 0, 0, 0, 0, 0, 0],
    [0, 0, 0, 0, 0, 0, 0, 0, 0, 0, 0, 0, 0, 0, 0, 0],
    [0, 0, 0, 0, 0, 0, 0, 0, 0, 0, 0, 0, 0, 0, 0, 0],
    [0, 0, 0, 0, 0, 0, 0, 0, 0, 0, 0, 0, 0, 0, 0, 0],
    [0, 0, 0, 0, 0, 0, 0, 0, 0, 0, 0, 0, 0, 0, 0, 0],
    [0, 0, 0, 0, 0, 0, 0, 0, 0, 0, 0, 0, 0, 0, 0, 0],
    [0, 0, 0, 0, 0, 0, 0, 0, 0, 0, 0, 0, 0, 0, 0, 0]]

  /** One for what may be part of a number. */
  const DECNUMBER: seq<seq<int>> := [
    [0, 0, 0, 0, 0, 0, 0, 0, 0, 0, 0, 0, 0, 0, 0, 0],
    [0, 0, 0, 0, 0, 0, 0, 0, 0, 0, 0, 0, 0, 0, 0, 0],
    [0, 0, 0, 0, 0, 0, 0, 0, 0, 0, 0, 1, 0, 1, 1, 0],
    [1, 1, 1, 1, 1, 1, 1, 1, 1, 1, 0, 0, 0, 0, 0, 0],
    [0, 0, 0, 0, 0, 1, 0, 0, 0, 0, 0, 0, 0, 0, 0, 0],
    [0, 0, 0, 0, 0, 0, 0, 0, 0, 0, 0, 0, 0, 0, 0, 0],
    [0, 0, 0, 0, 0, 1, 0, 0, 0, 0, 0, 0, 0, 0, 0, 0],
    [0, 0, 0, 0, 0, 0, 0, 0, 0, 0, 0, 0, 0, 0, 0, 0],
    [0, 0, 0, 0, 0, 0, 0, 0, 0, 0, 0, 0, 0, 0, 0, 0],
    [0, 0, 0, 0, 0, 0, 0, 0, 0, 0, 0, 0, 0, 0, 0, 0],
    [0, 0, 0, 0, 0, 0, 0, 0, 0, 0, 0, 0, 0, 0, 0, 0],
    [0, 0, 0, 0, 0, 0, 0, 0, 0, 0, 0, 0, 0, 0, 0, 0],
    [0, 0, 0, 0, 0, 0, 0, 0, 0, 0, 0, 0, 0, 0, 0, 0],
    [0, 0, 0, 0, 0, 0, 0, 0, 0, 0, 0, 0, 0, 0, 0, 0],
    [0, 0, 0, 0, 0, 0, 0, 0, 0, 0, 0, 0, 0, 0, 0, 0],
    [0, 0, 0, 0, 0, 0, 0, 0, 0, 0, 0, 0, 0, 0, 0, 0]]

  /** Values of hex digits, below zero for anything else. */
  const HEX_DECTAB: seq<seq<int>> := [
    [-1, -1, -1, -1, -1, -1, -1, -1, -1, -1, -1, -1, -1, -1, -1, -1],
    [-1, -1, -1, -1, -1, -1, -1, -1, -1, -1, -1, -1, -1, -1, -1, -1],
    [-1, -1, -1, -1, -1, -1, -1, -1, -1, -1, -1, -1, -1, -1, -1, -1],
    [0, 1, 2, 3, 4, 5, 6, 7, 8, 9, -1, -1, -1, -1, -1, -1],
    [-1, 10, 11, 12, 13, 14, 15, -1, -1, -1, -1, -1, -1, -1, -1, -1],
    [-1, -1, -1, -1, -1, -1, -1, -1, -1, -1, -1, -1, -1, -1, -1, -1],
    [-1, 10, 11, 12, 13, 14, 15, -1, -1, -1, -1, -1, -1, -1, -1, -1],
    [-1, -1, -1, -1, -1, -1, -1, -1, -1, -1, -1, -1, -1, -1, -1, -1],
    [-1, -1, -1, -1, -1, -1, -1, -1, -1, -1, -1, -1, -1, -1, -1, -1],
    [-1, -1, -1, -1, -1, -1, -1, -1, -1, -1, -1, -1, -1, -1, -1, -1],
    [-1, -1, -1, -1, -1, -1, -1, -1, -1, -1, -1, -1, -1, -1, -1, -1],
    [-1, -1, -1, -1, -1, -1, -1, -1, -1, -1, -1, -1, -1, -1, -1, -1],
    [-1, -1, -1, -1, -1, -1, -1, -1, -1, -1, -1, -1, -1, -1, -1, -1],
    [-1, -1, -1, -1, -1, -1, -1, -1, -1, -1, -1, -1, -1, -1, -1, -1],
    [-1, -1, -1, -1, -1, -1, -1, -1, -1, -1, -1, -1, -1, -1, -1, -1],
    [-1, -1, -1, -1, -1, -1, -1, -1, -1, -1, -1, -1, -1, -1, -1, -1]]

  function HexDectab(b: byte): int { HEX_DECTAB[b / 16][b % 16] }

  function Quotestr(b: byte): int { QUOTESTR[b / 16][b % 16] }

  function Decstr(b: byte): int { DECSTR[b / 16][b % 16] }

  function Eatwhite(b: byte): int { EATWHITE[b / 16][b % 16] }

  function Decnumber(b: byte): int { DECNUMBER[b / 16][b % 16] }

  /** What becomes of a byte inside quotes, in the code of the table. */
  function QuotestrCode(b: byte): int {
    if b >= 0x7f then 0x81
    else if b == 0x22 || b == 0x5c then 0x80 + b
    else if b == 0x08 then 0x80 + 0x62
    else if b == 0x09 then 0x80 + 0x74
    else if b == 0x0a then 0x80 + 0x6e
    else if b == 0x0c then 0x80 + 0x66
    else if b == 0x0d then 0x80 + 0x72
    else if b < 0x20 then 0x80
    else b
  }

  lemma DecstrIs(b: byte)
    ensures Decstr(b) == if b < 0x20 || b == 0x22 || b == 0x5c then 0 else b
  {
    hide Decstr, Quotestr;
    if b < 0x40 { DecstrPart0(b); }
    else if b < 0x60 { DecstrPart1(b); }
    else if b < 0x80 { DecstrPart2(b); }
    else if b < 0xa0 { DecstrPart3(b); }
    else if b < 0xc0 { DecstrPart4(b); }
    else if b < 0xe0 { DecstrPart5(b); }
    else { DecstrPart6(b); }
  }

  lemma DecstrPart0(b: byte)
    requires 0x0 <= b < 0x40
    ensures Decstr(b) == if b < 0x20 || b == 0x22 || b == 0x5c then 0 else b
  {
  }

  lemma DecstrPart1(b: byte)
    requires 0x40 <= b < 0x60
    ensures Decstr(b) == if b < 0x20 || b == 0x22 || b == 0x5c then 0 else b
  {
  }

  lemma DecstrPart2(b: byte)
    requires 0x60 <= b < 0x80
    ensures Decstr(b) == if b < 0x20 || b == 0x22 || b == 0x5c then 0 else b
  {
  }

  lemma DecstrPart3(b: byte)
    requires 0x80 <= b < 0xa0
    ensures Decstr(b) == if b < 0x20 || b == 0x22 || b == 0x5c then 0 else b
  {
  }

  lemma DecstrPart4(b: byte)
    requires 0xa0 <= b < 0xc0
    ensures Decstr(b) == if b < 0x20 || b == 0x22 || b == 0x5c then 0 else b
  {
  }

  lemma DecstrPart5(b: byte)
    requires 0xc0 <= b < 0xe0
    ensures Decstr(b) == if b < 0x20 || b == 0x22 || b == 0x5c then 0 else b
  {
  }

  lemma DecstrPart6(b: byte)
    requires 0xe0 <= b < 0x100
    ensures Decstr(b) == if b < 0x20 || b == 0x22 || b == 0x5c then 0 else b
  {
  }

  lemma HexDectabIs(b: byte)
    ensures HexDectab(b) ==
      if 0x30 <= b <= 0x39 then b - 0x30 else if 0x41 <= b <= 0x46 then b - 0x41 + 10 else if 0x61 <= b <= 0x66 then b - 0x61 + 10 else -1
  {
  }

  lemma EatwhiteIs(b: byte)
    ensures Eatwhite(b) == if b == 0x20 || b == 0x0a || b == 0x0d || b == 0x09 then 1 else 0
  {
  }

  lemma DecnumberIs(b: byte)
    ensures Decnumber(b) == if 0x30 <= b <= 0x39 || b == 0x2e || b == 0x65 || b == 0x45 || b == 0x2d || b == 0x2b then 1 else 0
  {
  }

  lemma QuotestrIs(b: byte)
    ensures Quotestr(b) == QuotestrCode(b)
  {
    hide Decstr, Quotestr;
    if b < 0x10 { QuotestrPart0(b); }
    else if b < 0x20 { QuotestrPart1(b); }
    else if b < 0x40 { QuotestrPart2(b); }
    else if b < 0x60 { QuotestrPart3(b); }
    else if b < 0x80 { QuotestrPart4(b); }
    else { QuotestrPart5(b); }
  }

  lemma QuotestrPart0(b: byte)
    requires 0x0 <= b < 0x10
    ensures Quotestr(b) == QuotestrCode(b)
  {
  }

  lemma QuotestrPart1(b: byte)
    requires 0x10 <= b < 0x20
    ensures Quotestr(b) == QuotestrCode(b)
  {
  }

  lemma QuotestrPart2(b: byte)
    requires 0x20 <= b < 0x40
    ensures Quotestr(b) == QuotestrCode(b)
  {
  }

  lemma QuotestrPart3(b: byte)
    requires 0x40 <= b < 0x60
    ensures Quotestr(b) == QuotestrCode(b)
  {
  }

  lemma QuotestrPart4(b: byte)
    requires 0x60 <= b < 0x80
    ensures Quotestr(b) == QuotestrCode(b)
  {
  }

  lemma QuotestrPart5(b: byte)
    requires 0x80 <= b < 0x100
    ensures Quotestr(b) == QuotestrCode(b)
  {
  }
}
