/** Base-64 in literal characters and octet arithmetic (RFC 4648). */
module Base64Literal {
  import opened Bytes
  import opened Base64

  /** `A` to `Z`, `a` to `z`, `0` to `9`, `+` and `/`. */
  function Letter(n: octet): octet
    requires n < 64
  {
    if n < 26 then 0x41 + n
    else if n < 52 then 0x61 + (n - 26)
    else if n < 62 then 0x30 + (n - 52)
    else if n == 62 then 0x2b
    else 0x2f
  }

  /** The four numbers below 64 that three octets fall into. */
  function First(x: octet): (n: octet)
    ensures n < 64
  {
    x / 4
  }

  function Second(x: octet, y: octet): (n: octet)
    ensures n < 64
  {
    x % 4 * 16 + y / 16
  }

  function Third(y: octet, z: octet): (n: octet)
    ensures n < 64
  {
    y % 16 * 4 + z / 64
  }

  function Fourth(z: octet): (n: octet)
    ensures n < 64
  {
    z % 64
  }

  /** The text of some octets, ending in `=` or `==` where a group is not full. */
  function Written(s: octets): octets {
    if s == [] then []
    else if |s| == 1 then [Letter(First(s[0])), Letter(Second(s[0], 0)), 0x3d, 0x3d]
    else if |s| == 2 then [Letter(First(s[0])), Letter(Second(s[0], s[1])), Letter(Third(s[1], 0)), 0x3d]
    else
      [Letter(First(s[0])), Letter(Second(s[0], s[1])), Letter(Third(s[1], s[2])), Letter(Fourth(s[2]))] + Written(s[3..])
  }

  lemma {:induction false} EncodeLiteral(s: octets)
    ensures Encode(s) == Written(s)
  {
    hide Letter, Group1, Group2, Group3, Word2, Word3, Wide, First, Second, Third, Fourth;
    if |s| == 1 {
      Group1Written(s[0]);
    } else if |s| == 2 {
      Group2Written(s[0], s[1]);
    } else if |s| > 2 {
      Group3Written(s[0], s[1], s[2]);
      EncodeLiteral(s[3..]);
    }
  }

  lemma LetterIs(t: bv32, n: octet)
    requires t < 64 && n < 64 && t == n as bv32
    ensures EncTab(t) == Letter(n)
  {
    hide EncTab;
    EncTableRight(t);
  }

  lemma Group1Written(x: octet)
    ensures Group1(Wide(x)) == [Letter(First(x)), Letter(Second(x, 0)), 0x3d, 0x3d]
  {
    hide EncTab, Letter;
    LetterIs(Wide(x) >> 2, First(x));
    LetterIs((Wide(x) << 4) & 0x3f, Second(x, 0));
  }

  lemma Group2Written(x: octet, y: octet)
    ensures Group2(Word2(x, y)) == [Letter(First(x)), Letter(Second(x, y)), Letter(Third(y, 0)), 0x3d]
  {
    hide EncTab, Letter, Word2, First, Second, Third;
    Word2First(x, y);
    Word2Second(x, y);
    Word2Third(x, y);
  }

  lemma Word2First(x: octet, y: octet)
    ensures Word2(x, y) >> 10 < 64 && EncTab(Word2(x, y) >> 10) == Letter(First(x))
  {
    hide EncTab, Letter;
    LetterIs(Word2(x, y) >> 10, First(x));
  }

  lemma Word2Second(x: octet, y: octet)
    ensures (Word2(x, y) >> 4) & 0x3f < 64 && EncTab((Word2(x, y) >> 4) & 0x3f) == Letter(Second(x, y))
  {
    hide EncTab, Letter;
    LetterIs((Word2(x, y) >> 4) & 0x3f, Second(x, y));
  }

  lemma Word2Third(x: octet, y: octet)
    ensures (Word2(x, y) << 2) & 0x3f < 64 && EncTab((Word2(x, y) << 2) & 0x3f) == Letter(Third(y, 0))
  {
    hide EncTab, Letter;
    LetterIs((Word2(x, y) << 2) & 0x3f, Third(y, 0));
  }

  lemma Group3Written(x: octet, y: octet, z: octet)
    ensures Group3(Word3(x, y, z)) == [Letter(First(x)), Letter(Second(x, y)), Letter(Third(y, z)), Letter(Fourth(z))]
  {
    hide EncTab, Letter, Word3, First, Second, Third, Fourth;
    Word3First(x, y, z);
    Word3Second(x, y, z);
    Word3Third(x, y, z);
    Word3Fourth(x, y, z);
  }

  lemma Word3First(x: octet, y: octet, z: octet)
    ensures Word3(x, y, z) >> 18 < 64 && EncTab(Word3(x, y, z) >> 18) == Letter(First(x))
  {
    hide EncTab, Letter;
    LetterIs(Word3(x, y, z) >> 18, First(x));
  }

  lemma Word3Second(x: octet, y: octet, z: octet)
    ensures (Word3(x, y, z) >> 12) & 0x3f < 64 && EncTab((Word3(x, y, z) >> 12) & 0x3f) == Letter(Second(x, y))
  {
    hide EncTab, Letter;
    LetterIs((Word3(x, y, z) >> 12) & 0x3f, Second(x, y));
  }

  lemma Word3Third(x: octet, y: octet, z: octet)
    ensures (Word3(x, y, z) >> 6) & 0x3f < 64 && EncTab((Word3(x, y, z) >> 6) & 0x3f) == Letter(Third(y, z))
  {
    hide EncTab, Letter;
    LetterIs((Word3(x, y, z) >> 6) & 0x3f, Third(y, z));
  }

  lemma Word3Fourth(x: octet, y: octet, z: octet)
    ensures Word3(x, y, z) & 0x3f < 64 && EncTab(Word3(x, y, z) & 0x3f) == Letter(Fourth(z))
  {
    hide EncTab, Letter;
    LetterIs(Word3(x, y, z) & 0x3f, Fourth(z));
  }

  /** The number of a character, none if it has none. */
  function Number(ch: octet): Option<octet> {
    if 0x41 <= ch <= 0x5a then Some(ch - 0x41)
    else if 0x61 <= ch <= 0x7a then Some(ch - 0x61 + 26)
    else if 0x30 <= ch <= 0x39 then Some(ch - 0x30 + 52)
    else if ch == 0x2b then Some(62)
    else if ch == 0x2f then Some(63)
    else None
  }

  /** Without tabs, line feeds, carriage returns and spaces. */
  function Visible(s: octets): octets {
    if s == [] then []
    else if s[0] == 0x09 || s[0] == 0x0a || s[0] == 0x0d || s[0] == 0x20 then Visible(s[1..])
    else [s[0]] + Visible(s[1..])
  }

  /** The three octets that four numbers make up. */
  function Octet1(a: octet, b: octet): octet { a * 4 + b / 16 }

  function Octet2(b: octet, c: octet): octet { b % 16 * 16 + c / 4 }

  function Octet3(c: octet, d: octet): octet { c % 4 * 64 + d }

  /** Four characters at a time; `=` and `==` may end any group, and what is in the bits cut off does not matter. */
  function Read(s: octets): Option<octets> {
    if s == [] then Some([])
    else if |s| < 4 then None
    else
      match (Number(s[0]), Number(s[1]))
      case (Some(a), Some(b)) =>
        if s[2] == 0x3d && s[3] == 0x3d then Prepend([Octet1(a, b)], Read(s[4..]))
        else if s[3] == 0x3d && Number(s[2]).Some? then
          Prepend([Octet1(a, b), Octet2(b, Number(s[2]).value)], Read(s[4..]))
        else
          (match (Number(s[2]), Number(s[3]))
           case (Some(c), Some(d)) => Prepend([Octet1(a, b), Octet2(b, c), Octet3(c, d)], Read(s[4..]))
           case _ => None)
      case _ => None
  }

  lemma DecodeLiteral(s: octets)
    ensures Decode(s) == Read(Visible(s))
  {
    hide DecodeUnits, Read, Strip, Visible;
    StripVisible(s);
    UnitsRead(Visible(s));
  }

  lemma {:induction false} StripVisible(s: octets)
    ensures Strip(s) == Visible(s)
  {
    if s != [] { StripVisible(s[1..]); }
  }

  lemma {:induction false} UnitsRead(s: octets)
    ensures DecodeUnits(s) == Read(s)
    decreases |s|
  {
    hide DecTab, IsChar, Number, Join4, Octets, Octet1, Octet2, Octet3, Unit;
    if |s| >= 4 {
      UnitsRead(s[4..]);
      NumberIs(s[0]);
      NumberIs(s[1]);
      NumberIs(s[2]);
      NumberIs(s[3]);
      UnitRead(s[0], s[1], s[2], s[3]);
    }
  }

  lemma UnitRead(a: octet, b: octet, c: octet, d: octet)
    ensures Unit(a, b, c, d) ==
      match (Number(a), Number(b))
      case (Some(i), Some(j)) =>
        if c == 0x3d && d == 0x3d then Some([Octet1(i, j)])
        else if d == 0x3d && Number(c).Some? then Some([Octet1(i, j), Octet2(j, Number(c).value)])
        else
          (match (Number(c), Number(d))
           case (Some(k), Some(l)) => Some([Octet1(i, j), Octet2(j, k), Octet3(k, l)])
           case _ => None)
      case _ => None
  {
    hide DecTab, IsChar, Number, Join4, Octets, Octet1, Octet2, Octet3, Narrow;
    NumberIs(a);
    NumberIs(b);
    NumberIs(c);
    NumberIs(d);
    OctetsAre(DecTab(a), DecTab(b), 0, 0);
    OctetsAre(DecTab(a), DecTab(b), DecTab(c), 0);
    OctetsAre(DecTab(a), DecTab(b), DecTab(c), DecTab(d));
    var one, two := Octets(Join4(DecTab(a), DecTab(b), 0, 0)), Octets(Join4(DecTab(a), DecTab(b), DecTab(c), 0));
    var three := Octets(Join4(DecTab(a), DecTab(b), DecTab(c), DecTab(d)));
    assert one[..1] == [one[0]] && two[..2] == [two[0], two[1]] && three == [three[0], three[1], three[2]];
  }

  lemma NumberIs(ch: octet)
    ensures IsChar(ch) <==> Number(ch).Some?
    ensures IsChar(ch) ==> DecTab(ch) < 64 && Number(ch).value == Narrow(DecTab(ch))
    ensures ch == 0x3d ==> Number(ch) == None
  {
    hide DecTab;
    DecTableRight(ch);
  }

  function Narrow(t: bv32): octet { (t & 0x3f) as bv8 }

  predicate Small(a: bv32, b: bv32, c: bv32, d: bv32) { a < 64 && b < 64 && c < 64 && d < 64 }

  lemma OctetsAre(a: bv32, b: bv32, c: bv32, d: bv32)
    ensures Small(a, b, c, d) ==> Octets(Join4(a, b, c, d))[0] == Octet1(Narrow(a), Narrow(b))
    ensures Small(a, b, c, d) ==> Octets(Join4(a, b, c, d))[1] == Octet2(Narrow(b), Narrow(c))
    ensures Small(a, b, c, d) ==> Octets(Join4(a, b, c, d))[2] == Octet3(Narrow(c), Narrow(d))
  {
  }
}
