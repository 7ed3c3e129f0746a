/** JSON texts as the standard's grammar has them, in literal characters, and what the parser makes of them:
    a text is accepted exactly if the grammar derives it, with exactly the document it spells. */
module JsonGrammar {
  import opened Bytes
  import opened Xutf8
  import opened JsonDocument
  import opened JsonParser
  import JsonRoundTrip
  import JsonEncoder

  // ----- the grammar -----

  /** One character of a string: itself, a backslash and a letter, or a backslash, u and four digits. */
  datatype Char = Plain(b: byte) | Short(letter: byte) | Unicode(a: byte, b: byte, c: byte, d: byte)

  datatype Syntax =
    | Null | True | False
    | Numeral(text: bytes)
    | Quoted(chars: seq<Char>)
    | Brackets(space: bytes, items: seq<Item>)
    | Braces(space: bytes, pairs: seq<Pair>)

  /** A value with the whitespace around it. */
  datatype Item = Item(before: bytes, value: Syntax, after: bytes)

  datatype Pair = Pair(before: bytes, key: seq<Char>, after: bytes, item: Item)

  function CharText(c: Char): bytes {
    match c
    case Plain(b) => [b]
    case Short(letter) => ['\\' as int, letter]
    case Unicode(p, q, r, s) => ['\\' as int, 'u' as int, p, q, r, s]
  }

  function CharsText(chars: seq<Char>): bytes {
    if chars == [] then [] else CharText(chars[0]) + CharsText(chars[1..])
  }

  function StringText(chars: seq<Char>): bytes { ['"' as int] + CharsText(chars) + ['"' as int] }

  function Text(t: Syntax): bytes
    requires Derived(t)
    decreases t, 1
  {
    match t
    case Null => ['n' as int, 'u' as int, 'l' as int, 'l' as int]
    case True => ['t' as int, 'r' as int, 'u' as int, 'e' as int]
    case False => ['f' as int, 'a' as int, 'l' as int, 's' as int, 'e' as int]
    case Numeral(text) => text
    case Quoted(chars) => StringText(chars)
    case Brackets(space, items) => ['[' as int] + (if items == [] then space else ItemsText(items)) + [']' as int]
    case Braces(space, pairs) => ['{' as int] + (if pairs == [] then space else PairsText(pairs)) + ['}' as int]
  }

  function ItemText(it: Item): bytes
    requires Derived(it.value)
    decreases it, 2
  {
    it.before + Text(it.value) + it.after
  }

  function ItemsText(items: seq<Item>): bytes
    requires items != [] && forall it :: it in items ==> Derived(it.value)
    decreases items, 1
  {
    ItemText(items[0]) + ItemsTail(items[1..])
  }

  function ItemsTail(items: seq<Item>): bytes
    requires forall it :: it in items ==> Derived(it.value)
    decreases items, 0
  {
    if items == [] then [] else [',' as int] + ItemText(items[0]) + ItemsTail(items[1..])
  }

  function PairText(p: Pair): bytes
    requires Derived(p.item.value)
    decreases p, 3
  {
    p.before + StringText(p.key) + p.after + [':' as int] + ItemText(p.item)
  }

  function PairsText(pairs: seq<Pair>): bytes
    requires pairs != [] && forall p :: p in pairs ==> Derived(p.item.value)
    decreases pairs, 1
  {
    PairText(pairs[0]) + PairsTail(pairs[1..])
  }

  function PairsTail(pairs: seq<Pair>): bytes
    requires forall p :: p in pairs ==> Derived(p.item.value)
    decreases pairs, 0
  {
    if pairs == [] then [] else [',' as int] + PairText(pairs[0]) + PairsTail(pairs[1..])
  }

  predicate White(s: bytes) {
    forall b :: b in s ==> b == ' ' as int || b == '\t' as int || b == '\n' as int || b == '\r' as int
  }

  predicate Digit(b: byte) { '0' as int <= b <= '9' as int }

  predicate IsHex(b: byte) { Digit(b) || 'a' as int <= b <= 'f' as int || 'A' as int <= b <= 'F' as int }

  predicate CharDerived(c: Char) {
    match c
    case Plain(b) => b >= 0x20 && b != '"' as int && b != '\\' as int
    case Short(letter) =>
      letter == '"' as int || letter == '\\' as int || letter == '/' as int || letter == 'b' as int ||
      letter == 'f' as int || letter == 'n' as int || letter == 'r' as int || letter == 't' as int
    case Unicode(p, q, r, s) => IsHex(p) && IsHex(q) && IsHex(r) && IsHex(s)
  }

  predicate CharsDerived(chars: seq<Char>) { forall c :: c in chars ==> CharDerived(c) }

  /** The tokens are what the grammar has: the three words, strings, and for numbers what may be in one. */
  predicate Derived(t: Syntax)
    decreases t
  {
    match t
    case Null => true
    case True => true
    case False => true
    case Numeral(text) =>
      text != [] && (Digit(text[0]) || text[0] == '-' as int) &&
      forall b :: b in text ==> Digit(b) || b == '.' as int || b == 'e' as int || b == 'E' as int || b == '-' as int || b == '+' as int
    case Quoted(chars) => CharsDerived(chars)
    case Brackets(space, items) =>
      White(space) && forall it :: it in items ==> White(it.before) && Derived(it.value) && White(it.after)
    case Braces(space, pairs) =>
      White(space) && forall p :: p in pairs ==>
        White(p.before) && CharsDerived(p.key) && White(p.after) &&
        White(p.item.before) && Derived(p.item.value) && White(p.item.after)
  }

  // ----- what a text spells -----

  function HexValueOf(b: byte): (v: int)
    requires IsHex(b)
    ensures 0 <= v < 16
  {
    if Digit(b) then b - '0' as int else if b >= 'a' as int then b - 'a' as int + 10 else b - 'A' as int + 10
  }

  function CharValue(c: Char): bytes
    requires CharDerived(c)
  {
    match c
    case Plain(b) => [b]
    case Short(letter) =>
      if letter == 'b' as int then [0x08]
      else if letter == 't' as int then [0x09]
      else if letter == 'n' as int then [0x0a]
      else if letter == 'f' as int then [0x0c]
      else if letter == 'r' as int then [0x0d]
      else [letter]
    case Unicode(p, q, r, s) => Encode(HexFourOf(p, q, r, s))
  }

  function HexFourOf(p: byte, q: byte, r: byte, s: byte): (v: int)
    requires IsHex(p) && IsHex(q) && IsHex(r) && IsHex(s)
    ensures 0 <= v < 0x10000
  {
    HexValueOf(p) * 0x1000 + HexValueOf(q) * 0x100 + HexValueOf(r) * 0x10 + HexValueOf(s)
  }

  function CharsValue(chars: seq<Char>): bytes
    requires CharsDerived(chars)
  {
    if chars == [] then [] else CharValue(chars[0]) + CharsValue(chars[1..])
  }

  /** `r` holds each key of `ms` once, in the order in which keys occur first, each with the value it has
      where it occurs last. */
  ghost predicate Collapsed(ms: seq<Member>, r: seq<Member>) {
    Once(r) && AllThere(ms, r) && LastValues(ms, r) && FirstOrder(ms, r)
  }

  ghost predicate Once(r: seq<Member>) {
    forall j, k :: 0 <= j < k < |r| ==> r[j].key != r[k].key
  }

  ghost predicate AllThere(ms: seq<Member>, r: seq<Member>) {
    forall i :: 0 <= i < |ms| ==> HasKey(r, ms[i].key)
  }

  ghost predicate HasKey(r: seq<Member>, key: bytes) { exists j :: 0 <= j < |r| && r[j].key == key }

  ghost predicate LastValues(ms: seq<Member>, r: seq<Member>) {
    forall j :: 0 <= j < |r| ==> IsLast(ms, r[j])
  }

  /** The member is there, and its key does not occur again behind it. */
  ghost predicate IsLast(ms: seq<Member>, m: Member) {
    exists i :: 0 <= i < |ms| && ms[i] == m && forall k :: i < k < |ms| ==> ms[k].key != m.key
  }

  ghost predicate FirstOrder(ms: seq<Member>, r: seq<Member>) {
    forall j, k, i :: 0 <= j < k < |r| && 0 <= i < |ms| && ms[i].key == r[k].key ==> OccursBefore(ms, r[j].key, i)
  }

  ghost predicate OccursBefore(ms: seq<Member>, key: bytes, i: int) {
    exists h :: 0 <= h < i && h < |ms| && ms[h].key == key
  }

  /** The syntax spells the document. */
  ghost predicate Spells(conv: NumConv, t: Syntax, d: Doc)
    requires Derived(t)
    decreases t, 1
  {
    match t
    case Null => d == DNull
    case True => d == DBool(true)
    case False => d == DBool(false)
    case Numeral(text) => d.DNum? && conv.parse(text) == Some(d.n)
    case Quoted(chars) => d == DStr(CharsValue(chars))
    case Brackets(_, items) =>
      d.DArr? && |d.elems| == |items| && forall i :: 0 <= i < |items| ==> Spells(conv, items[i].value, d.elems[i])
    case Braces(_, pairs) =>
      d.DObj? && exists ms: seq<Member> :: Collapsed(ms, d.members) && SpellMembers(conv, pairs, ms)
  }

  /** The pairs spell the members one by one, repeated keys included. */
  ghost predicate SpellMembers(conv: NumConv, pairs: seq<Pair>, ms: seq<Member>)
    requires forall p :: p in pairs ==> CharsDerived(p.key) && Derived(p.item.value)
    decreases pairs, 0
  {
    |ms| == |pairs| &&
    forall i :: 0 <= i < |pairs| ==> ms[i].key == CharsValue(pairs[i].key) && Spells(conv, pairs[i].item.value, ms[i].doc)
  }

  /** Arrays and objects nest at most `n` deep. */
  predicate NestsIn(t: Syntax, n: int)
    decreases t
  {
    match t
    case Brackets(_, items) => n > 0 && forall it :: it in items ==> NestsIn(it.value, n - 1)
    case Braces(_, pairs) => n > 0 && forall p :: p in pairs ==> NestsIn(p.item.value, n - 1)
    case _ => true
  }

  // ----- strings -----

  lemma {:induction false} CharsRead(chars: seq<Char>, rest: bytes)
    requires CharsDerived(chars)
    ensures StringBody(CharsText(chars) + (['"' as int] + rest)) == Some((CharsValue(chars), rest))
  {
    hide CharText, CharValue, CharDerived;
    var s := CharsText(chars) + (['"' as int] + rest);
    if chars == [] {
      assert s == ['"' as int] + rest;
    } else {
      var more := CharsText(chars[1..]) + (['"' as int] + rest);
      assert s == CharText(chars[0]) + more;
      CharReads(chars[0], more);
      CharsRead(chars[1..], rest);
    }
  }

  lemma CharReads(c: Char, more: bytes)
    requires CharDerived(c)
    ensures StringBody(CharText(c) + more) == Prepend(CharValue(c), StringBody(more))
  {
    hide StringBody, CharText, CharValue, CharDerived;
    if c.Plain? {
      PlainReads(c, more);
    } else if c.Short? {
      ShortReads(c, more);
    } else {
      UnicodeReads(c, more);
    }
  }

  lemma PlainReads(c: Char, more: bytes)
    requires CharDerived(c) && c.Plain?
    ensures StringBody(CharText(c) + more) == Prepend(CharValue(c), StringBody(more))
  {
    var s := CharText(c) + more;
    assert s[1..] == more;
  }

  lemma ShortReads(c: Char, more: bytes)
    requires CharDerived(c) && c.Short?
    ensures StringBody(CharText(c) + more) == Prepend(CharValue(c), StringBody(more))
  {
    var s := CharText(c) + more;
    assert s[1..] == [c.letter] + more;
    ShortMeans(c, more);
  }

  lemma ShortMeans(c: Char, more: bytes)
    requires CharDerived(c) && c.Short?
    ensures Unescape([c.letter] + more) == Some((CharValue(c), more))
  {
    hide Encode;
    assert ([c.letter] + more)[1..] == more;
    SingleByte(CharValue(c)[0]);
  }

  lemma UnicodeReads(c: Char, more: bytes)
    requires CharDerived(c) && c.Unicode?
    ensures StringBody(CharText(c) + more) == Prepend(CharValue(c), StringBody(more))
  {
    hide Encode, HexEscape, HexValue;
    var s := CharText(c) + more;
    var h := [c.a, c.b, c.c, c.d] + more;
    assert s[1..] == ['u' as int] + h && s[1..][1..] == h && h[4..] == more;
    HexMeans(c.a); HexMeans(c.b); HexMeans(c.c); HexMeans(c.d);
    JsonRoundTrip.HexFour(h, HexValueOf(c.a), HexValueOf(c.b), HexValueOf(c.c), HexValueOf(c.d));
  }

  lemma HexMeans(b: byte)
    ensures HexValue(b) == if IsHex(b) then Some(HexValueOf(b)) else None
  {
  }

  lemma SingleByte(b: byte)
    ensures b < 0x80 ==> Encode(b) == [b]
  {
  }

  /** Every string body the parser accepts is derived. */
  lemma {:induction false} CharsFound(s: bytes) returns (chars: seq<Char>)
    requires StringBody(s).Some?
    ensures CharsDerived(chars) && CharsValue(chars) == StringBody(s).value.0
    ensures s == CharsText(chars) + (['"' as int] + StringBody(s).value.1)
    decreases |s|
  {
    hide CharText, CharValue, CharDerived;
    if s[0] == '"' as int {
      assert s == [s[0]] + s[1..];
      chars := [];
    } else {
      var c, more := CharFound(s);
      CharReads(c, more);
      var tail := CharsFound(more);
      chars := [c] + tail;
      assert chars[1..] == tail;
      Cat3(CharText(c), CharsText(tail), ['"' as int] + StringBody(more).value.1);
    }
  }

  lemma Cat3(a: bytes, b: bytes, c: bytes)
    ensures a + b + c == a + (b + c)
  {
  }

  lemma CharFound(s: bytes) returns (c: Char, more: bytes)
    requires StringBody(s).Some? && s[0] != '"' as int
    ensures CharDerived(c) && s == CharText(c) + more && |more| < |s| && StringBody(more).Some?
  {
    hide StringBody, Unescape;
    BodyStep(s);
    assert s == [s[0]] + s[1..];
    if s[0] != '\\' as int {
      c, more := Plain(s[0]), s[1..];
    } else {
      c, more := EscapeFound(s[1..]);
    }
  }

  lemma BodyStep(s: bytes)
    requires StringBody(s).Some? && s[0] != '"' as int
    ensures s[0] == '\\' as int ==> Unescape(s[1..]).Some? && StringBody(Unescape(s[1..]).value.1).Some?
    ensures s[0] != '\\' as int ==> s[0] >= 0x20 && StringBody(s[1..]).Some?
  {
    hide Unescape;
  }

  lemma EscapeFound(u: bytes) returns (c: Char, more: bytes)
    requires Unescape(u).Some?
    ensures CharDerived(c) && ['\\' as int] + u == CharText(c) + more && |more| <= |u| && more == Unescape(u).value.1
  {
    hide HexEscape, IsHex;
    assert u == [u[0]] + u[1..];
    if u[0] != 'u' as int {
      c, more := Short(u[0]), u[1..];
    } else {
      var h := u[1..];
      HexFourFound(h);
      c, more := Unicode(h[0], h[1], h[2], h[3]), h[4..];
      assert h == [h[0], h[1], h[2], h[3]] + more;
    }
  }

  lemma HexFourFound(h: bytes)
    requires HexEscape(h, 4, 0).Some?
    ensures |h| >= 4 && IsHex(h[0]) && IsHex(h[1]) && IsHex(h[2]) && IsHex(h[3])
    ensures HexEscape(h, 4, 0).value.1 == h[4..]
  {
    hide HexEscape, IsHex;
    var a := HexStep(h, 4, 0);
    var b := HexStep(h[1..], 3, a);
    var c := HexStep(h[2..], 2, b);
    var d := HexStep(h[3..], 1, c);
    assert HexEscape(h[4..], 0, d) == Some((d, h[4..])) by { HexDone(h[4..], d); }
  }

  lemma HexStep(s: bytes, n: nat, acc: nat) returns (next: nat)
    requires n > 0 && HexEscape(s, n, acc).Some?
    ensures s != [] && IsHex(s[0]) && HexEscape(s, n, acc) == HexEscape(s[1..], n - 1, next)
    ensures |s| > 1 ==> s[1..][0] == s[1]
    ensures forall i :: 0 <= i < |s| ==> s[1..][i..] == s[i + 1..]
  {
    HexMeans(s[0]);
    next := acc * 16 + HexValue(s[0]).value;
  }

  lemma HexDone(s: bytes, acc: nat)
    ensures HexEscape(s, 0, acc) == Some((acc, s))
  {
  }

  // ----- repeated keys -----

  /** All members put one after the other. */
  function PutAll(acc: seq<Member>, ms: seq<Member>): seq<Member>
    decreases |ms|
  {
    if ms == [] then acc else PutAll(Put(acc, ms[0].key, ms[0].doc), ms[1..])
  }

  lemma {:induction false} PutAllSnoc(acc: seq<Member>, ms: seq<Member>, m: Member)
    ensures PutAll(acc, ms + [m]) == Put(PutAll(acc, ms), m.key, m.doc)
    decreases |ms|
  {
    hide Put;
    if ms == [] {
      assert ms + [m] == [m] && [m][1..] == [];
    } else {
      assert (ms + [m])[1..] == ms[1..] + [m];
      PutAllSnoc(Put(acc, ms[0].key, ms[0].doc), ms[1..], m);
    }
  }

  /** Putting a member that is there replaces it. */
  lemma {:induction false} PutThere(r: seq<Member>, m: Member, j: nat)
    requires j < |r| && r[j].key == m.key && forall k :: 0 <= k < j ==> r[k].key != m.key
    ensures Put(r, m.key, m.doc) == r[j := m]
  {
    if j == 0 {
      assert r[0 := m] == [m] + r[1..];
    } else {
      PutThere(r[1..], m, j - 1);
      assert r[j := m] == [r[0]] + r[1..][j - 1 := m];
    }
  }

  lemma KeyIndex(r: seq<Member>, key: bytes) returns (j: nat)
    requires HasKey(r, key)
    ensures j < |r| && r[j].key == key
  {
    j :| j < |r| && r[j].key == key;
  }

  lemma KeyAt(r: seq<Member>, j: nat)
    requires j < |r|
    ensures HasKey(r, r[j].key)
  {
  }

  lemma LastIndex(ms: seq<Member>, m: Member) returns (i: nat)
    requires IsLast(ms, m)
    ensures i < |ms| && ms[i] == m && forall k :: i < k < |ms| ==> ms[k].key != m.key
  {
    i :| i < |ms| && ms[i] == m && forall k :: i < k < |ms| ==> ms[k].key != m.key;
  }

  lemma LastAt(ms: seq<Member>, i: nat)
    requires i < |ms| && forall k :: i < k < |ms| ==> ms[k].key != ms[i].key
    ensures IsLast(ms, ms[i])
  {
  }

  lemma BeforeIndex(ms: seq<Member>, key: bytes, i: int) returns (h: nat)
    requires OccursBefore(ms, key, i)
    ensures h < |ms| && h < i && ms[h].key == key
  {
    h :| h < i && h < |ms| && ms[h].key == key;
  }

  lemma BeforeAt(ms: seq<Member>, h: nat, i: int)
    requires h < |ms| && h < i
    ensures OccursBefore(ms, ms[h].key, i)
  {
  }

  /** Whether a key occurs among all members but the last. */
  lemma LastOf(pre: seq<Member>, m: Member, x: Member)
    requires x.key != m.key
    ensures IsLast(pre + [m], x) <==> IsLast(pre, x)
  {
    hide IsLast;
    var ms := pre + [m];
    if IsLast(ms, x) {
      var i := LastIndex(ms, x);
      assert i < |pre|;
      forall k | i < k < |pre| ensures pre[k].key != x.key { assert ms[k] == pre[k]; }
      LastAt(pre, i);
    }
    if IsLast(pre, x) {
      var i := LastIndex(pre, x);
      forall k | i < k < |ms| ensures ms[k].key != x.key { }
      LastAt(ms, i);
    }
  }

  lemma LastIsNew(pre: seq<Member>, m: Member, x: Member)
    requires x.key == m.key
    ensures IsLast(pre + [m], x) <==> x == m
  {
    hide IsLast;
    var ms := pre + [m];
    if IsLast(ms, x) {
      var i := LastIndex(ms, x);
      assert ms[|pre|] == m;
    }
    LastAt(ms, |pre|);
  }

  lemma BeforeInPrefix(pre: seq<Member>, m: Member, key: bytes, i: int)
    requires i <= |pre|
    ensures OccursBefore(pre + [m], key, i) <==> OccursBefore(pre, key, i)
  {
    hide OccursBefore;
    var ms := pre + [m];
    if OccursBefore(ms, key, i) {
      var h := BeforeIndex(ms, key, i);
      BeforeAt(pre, h, i);
    }
    if OccursBefore(pre, key, i) {
      var h := BeforeIndex(pre, key, i);
      BeforeAt(ms, h, i);
    }
  }

  /** The only sequence that `Collapsed` describes is the members put one after the other. */
  lemma {:induction false} CollapsedIsPutAll(ms: seq<Member>, r: seq<Member>)
    requires Collapsed(ms, r)
    ensures r == PutAll([], ms)
    decreases |ms|
  {
    hide Put, PutAll, Collapsed, HasKey;
    if ms == [] {
      NothingCollapsed(r);
    } else {
      var n := |ms| - 1;
      var pre, m := ms[..n], ms[n];
      assert ms == pre + [m];
      PutAllSnoc([], pre, m);
      if HasKey(pre, m.key) {
        var r0, j := UncollapseOld(pre, m, r);
        CollapsedIsPutAll(pre, r0);
        PutThere(r0, m, j);
      } else {
        var r0 := UncollapseNew(pre, m, r);
        CollapsedIsPutAll(pre, r0);
        JsonRoundTrip.PutNew(r0, m);
      }
    }
  }

  lemma NothingCollapsed(r: seq<Member>)
    ensures Collapsed([], r) ==> r == []
    ensures PutAll([], []) == [] && Collapsed([], [])
  {
    hide IsLast;
    if r != [] { NothingLast(r[0]); }
  }

  lemma NothingLast(m: Member)
    ensures !IsLast([], m)
  {
  }

  /** A key that is new comes last. */
  lemma UncollapseNew(pre: seq<Member>, m: Member, r: seq<Member>) returns (r0: seq<Member>)
    requires Collapsed(pre + [m], r) && !HasKey(pre, m.key)
    ensures r == r0 + [m] && Collapsed(pre, r0) && forall i :: 0 <= i < |r0| ==> r0[i].key != m.key
  {
    hide HasKey, IsLast, OccursBefore;
    var ms, n := pre + [m], |pre|;
    assert ms[n] == m;
    assert HasKey(r, ms[n].key);
    var j := KeyIndex(r, m.key);
    LastIsNew(pre, m, r[j]);
    if j + 1 < |r| {
      LastOf(pre, m, r[j + 1]);
      var k := LastIndex(pre, r[j + 1]);
      assert ms[k] == pre[k] && OccursBefore(ms, m.key, k);
      BeforeInPrefix(pre, m, m.key, k);
      var h := BeforeIndex(pre, m.key, k);
      KeyAt(pre, h);
      assert false;
    }
    r0 := r[..j];
    forall i | 0 <= i < n ensures HasKey(r0, pre[i].key) {
      assert ms[i] == pre[i] && HasKey(r, ms[i].key);
      var l := KeyIndex(r, pre[i].key);
      KeyAt(pre, i);
      KeyAt(r0, l);
    }
    forall l | 0 <= l < |r0| ensures IsLast(pre, r0[l]) {
      LastOf(pre, m, r[l]);
    }
    OrderBefore(pre, m, r, r0);
  }

  /** The order of first occurrences among the members before the last. */
  lemma OrderBefore(pre: seq<Member>, m: Member, r: seq<Member>, r0: seq<Member>)
    requires FirstOrder(pre + [m], r) && |r0| <= |r| && forall k :: 0 <= k < |r0| ==> r0[k].key == r[k].key
    ensures FirstOrder(pre, r0)
  {
    hide OccursBefore;
    forall j, k, i | 0 <= j < k < |r0| && 0 <= i < |pre| && pre[i].key == r0[k].key ensures OccursBefore(pre, r0[j].key, i) {
      assert (pre + [m])[i].key == r[k].key;
      BeforeInPrefix(pre, m, r[j].key, i);
    }
  }

  /** A key that was there keeps its place and had another value. */
  lemma UncollapseOld(pre: seq<Member>, m: Member, r: seq<Member>) returns (r0: seq<Member>, j: nat)
    requires Collapsed(pre + [m], r) && HasKey(pre, m.key)
    ensures Collapsed(pre, r0) && j < |r0| && r0[j].key == m.key && (forall k :: 0 <= k < j ==> r0[k].key != m.key)
    ensures r0[j := m] == r
  {
    hide HasKey, IsLast, OccursBefore;
    var ms, n := pre + [m], |pre|;
    assert ms[n] == m && HasKey(r, ms[n].key);
    j := KeyIndex(r, m.key);
    LastIsNew(pre, m, r[j]);
    var h := KeyIndex(pre, m.key);
    var l := LastWithKey(pre, h);
    r0 := r[j := pre[l]];
    forall i | 0 <= i < n ensures HasKey(r0, pre[i].key) {
      assert ms[i] == pre[i] && HasKey(r, ms[i].key);
      var k := KeyIndex(r, pre[i].key);
      KeyAt(r0, k);
    }
    forall k | 0 <= k < |r0| ensures IsLast(pre, r0[k]) {
      if k != j { LastOf(pre, m, r[k]); }
    }
    OrderBefore(pre, m, r, r0);
    assert r0[j := m] == r;
  }

  /** Where the key of member `h` occurs last. */
  lemma {:induction false} LastWithKey(ms: seq<Member>, h: nat) returns (l: nat)
    requires h < |ms|
    ensures l < |ms| && IsLast(ms, ms[l]) && ms[l].key == ms[h].key
    decreases |ms| - h
  {
    hide IsLast;
    if k :| h < k < |ms| && ms[k].key == ms[h].key {
      l := LastWithKey(ms, k);
    } else {
      l := h;
      LastAt(ms, h);
    }
  }

  /** Members put one after the other are as `Collapsed` describes. */
  lemma {:induction false} PutAllCollapsed(ms: seq<Member>)
    ensures Collapsed(ms, PutAll([], ms))
    decreases |ms|
  {
    hide Put, PutAll, Collapsed;
    if ms == [] {
      NothingCollapsed([]);
    } else {
      var n := |ms| - 1;
      var pre, m := ms[..n], ms[n];
      assert ms == pre + [m];
      PutAllSnoc([], pre, m);
      PutAllCollapsed(pre);
      var r := PutAll([], pre);
      if j :| 0 <= j < |r| && r[j].key == m.key {
        CollapseOld(pre, m, r, j);
      } else {
        CollapseNew(pre, m, r);
        JsonRoundTrip.PutNew(r, m);
      }
    }
  }

  lemma CollapseNew(pre: seq<Member>, m: Member, r: seq<Member>)
    requires Collapsed(pre, r) && forall j :: 0 <= j < |r| ==> r[j].key != m.key
    ensures Collapsed(pre + [m], r + [m])
  {
    hide HasKey, IsLast, OccursBefore;
    var ms, n, r1 := pre + [m], |pre|, r + [m];
    assert ms[n] == m && r1[|r|] == m;
    forall i | 0 <= i < |ms| ensures HasKey(r1, ms[i].key) {
      if i < n {
        assert HasKey(r, pre[i].key);
        var j := KeyIndex(r, pre[i].key);
        KeyAt(r1, j);
      } else {
        KeyAt(r1, |r|);
      }
    }
    forall j | 0 <= j < |r1| ensures IsLast(ms, r1[j]) {
      if j < |r| { LastOf(pre, m, r[j]); } else { LastIsNew(pre, m, m); }
    }
    forall j, k, i | 0 <= j < k < |r1| && 0 <= i < |ms| && ms[i].key == r1[k].key ensures OccursBefore(ms, r1[j].key, i) {
      BeforeInPrefix(pre, m, r[j].key, i);
      if k == |r| {
        if i < n {
          assert HasKey(r, pre[i].key);
          var l := KeyIndex(r, pre[i].key);
          assert false;
        }
        var h := LastIndex(pre, r[j]);
        BeforeAt(pre, h, i);
      }
    }
  }

  lemma CollapseOld(pre: seq<Member>, m: Member, r: seq<Member>, j: nat)
    requires Collapsed(pre, r) && j < |r| && r[j].key == m.key
    ensures Put(r, m.key, m.doc) == r[j := m] && Collapsed(pre + [m], r[j := m])
  {
    hide Put, HasKey, IsLast, OccursBefore;
    PutThere(r, m, j);
    var ms, n, r1 := pre + [m], |pre|, r[j := m];
    assert ms[n] == m;
    forall i | 0 <= i < |ms| ensures HasKey(r1, ms[i].key) {
      if i < n {
        assert HasKey(r, pre[i].key);
        var l := KeyIndex(r, pre[i].key);
        KeyAt(r1, l);
      } else {
        KeyAt(r1, j);
      }
    }
    forall l | 0 <= l < |r1| ensures IsLast(ms, r1[l]) {
      if l == j { LastIsNew(pre, m, m); } else { LastOf(pre, m, r[l]); }
    }
    forall h, k, i | 0 <= h < k < |r1| && 0 <= i < |ms| && ms[i].key == r1[k].key ensures OccursBefore(ms, r1[h].key, i) {
      BeforeInPrefix(pre, m, r[h].key, i);
      assert r1[h].key == r[h].key && r1[k].key == r[k].key;
      if i == n {
        var l := LastIndex(pre, r[k]);
        assert OccursBefore(pre, r[h].key, l);
        var at := BeforeIndex(pre, r[h].key, l);
        BeforeAt(pre, at, i);
      }
    }
  }

  // ----- what is derived is parsed -----

  lemma WhiteIsGap(w: bytes)
    ensures White(w) <==> JsonRoundTrip.WhiteGap(w)
  {
  }

  lemma AfterStops(after: bytes, rest: bytes)
    requires White(after) && JsonRoundTrip.Stops(rest)
    ensures JsonRoundTrip.Stops(after + rest) && EatWhite(after + rest) == EatWhite(rest)
  {
    WhiteIsGap(after);
    JsonRoundTrip.EatWhitePrefix(after, rest);
    if after != [] { assert after[0] in after; }
  }

  /** What parsing a derived text gives: its document, or a range error if it nests too deep. */
  function Result<T>(nests: bool, v: T, rest: bytes): Parsed<T> { if nests then Ok(v, rest) else RangeError }

  lemma WordReads(conv: NumConv, t: Syntax, d: Doc, nest: nat, rest: bytes)
    requires (t.Null? || t.True? || t.False?) && Derived(t) && Spells(conv, t, d)
    ensures ParseValue(conv, Text(t) + rest, nest) == Ok(d, EatWhite(rest))
  {
    hide EatWhite, Keyword;
    var s := Text(t) + rest;
    JsonRoundTrip.NotWhite(s);
    if t.Null? {
      assert s[1..] == NULL_TEXT[1..] + rest;
      KeywordReads(NULL_TEXT[1..], d, rest);
    } else if t.True? {
      assert s[1..] == TRUE_TEXT[1..] + rest;
      KeywordReads(TRUE_TEXT[1..], d, rest);
    } else {
      assert s[1..] == FALSE_TEXT[1..] + rest;
      KeywordReads(FALSE_TEXT[1..], d, rest);
    }
  }

  lemma KeywordReads(word: bytes, d: Doc, rest: bytes)
    ensures Keyword(word + rest, word, d) == Ok(d, EatWhite(rest))
  {
    assert (word + rest)[|word|..] == rest;
  }

  lemma NumeralReads(conv: NumConv, t: Syntax, d: Doc, nest: nat, rest: bytes)
    requires t.Numeral? && Derived(t) && Spells(conv, t, d) && JsonRoundTrip.Stops(rest)
    ensures ParseValue(conv, Text(t) + rest, nest) == Ok(d, EatWhite(rest))
  {
    hide EatWhite, NumberSpan;
    var s := t.text + rest;
    JsonRoundTrip.NotWhite(s);
    JsonRoundTrip.NumberSpanText(t.text, rest);
    assert s[..|t.text|] == t.text && s[|t.text|..] == rest;
  }

  lemma QuotedReads(conv: NumConv, t: Syntax, d: Doc, nest: nat, rest: bytes)
    requires t.Quoted? && Derived(t) && Spells(conv, t, d)
    ensures ParseValue(conv, Text(t) + rest, nest) == Ok(d, EatWhite(rest))
  {
    hide EatWhite, StringBody, ParseValue, CharsText, CharsValue, CharsDerived;
    var body := CharsText(t.chars) + (['"' as int] + rest);
    assert Text(t) + rest == ['"' as int] + body;
    CharsRead(t.chars, rest);
    StringValue(conv, body, CharsValue(t.chars), nest, rest);
  }

  lemma StringValue(conv: NumConv, body: bytes, str: bytes, nest: nat, rest: bytes)
    requires StringBody(body) == Some((str, rest))
    ensures ParseValue(conv, ['"' as int] + body, nest) == Ok(DStr(str), EatWhite(rest))
  {
    hide EatWhite, StringBody;
    JsonRoundTrip.NotWhite(['"' as int] + body);
    assert (['"' as int] + body)[1..] == body;
  }

  /** A derived value in front of anything that cannot continue a number: parsed as what it spells, unless it
      nests too deep. */
  lemma {:induction false} ValueReads(conv: NumConv, t: Syntax, d: Doc, nest: nat, rest: bytes)
    requires Derived(t) && Spells(conv, t, d) && JsonRoundTrip.Stops(rest) && nest <= 1000
    ensures ParseValue(conv, Text(t) + rest, nest) == Result(NestsIn(t, 1000 - nest), d, EatWhite(rest))
    decreases t, 3
  {
    hide ParseValue, Text, EatWhite;
    match t
    case Null => WordReads(conv, t, d, nest, rest);
    case True => WordReads(conv, t, d, nest, rest);
    case False => WordReads(conv, t, d, nest, rest);
    case Numeral(_) => NumeralReads(conv, t, d, nest, rest);
    case Quoted(_) => QuotedReads(conv, t, d, nest, rest);
    case Brackets(_, _) => BracketsRead(conv, t, d, nest, rest);
    case Braces(_, _) => BracesRead(conv, t, d, nest, rest);
  }

  lemma {:induction false} ItemReads(conv: NumConv, it: Item, d: Doc, nest: nat, rest: bytes)
    requires White(it.before) && Derived(it.value) && White(it.after)
    requires Spells(conv, it.value, d) && JsonRoundTrip.Stops(rest) && nest <= 1000
    ensures ParseValue(conv, ItemText(it) + rest, nest) == Result(NestsIn(it.value, 1000 - nest), d, EatWhite(rest))
    decreases it, 4
  {
    hide ParseValue, Text, EatWhite, Spells, Derived;
    AfterStops(it.after, rest);
    ValueReads(conv, it.value, d, nest, it.after + rest);
    WhiteIsGap(it.before);
    assert ItemText(it) + rest == it.before + (Text(it.value) + (it.after + rest));
    JsonRoundTrip.ParseValueWhite(conv, it.before, Text(it.value) + (it.after + rest), nest);
  }

  // ----- arrays -----

  predicate ItemsNest(items: seq<Item>, n: int) { forall it :: it in items ==> NestsIn(it.value, n) }

  predicate ItemsDerived(items: seq<Item>) {
    forall it :: it in items ==> White(it.before) && Derived(it.value) && White(it.after)
  }

  ghost predicate ItemsSpell(conv: NumConv, items: seq<Item>, ds: seq<Doc>)
    requires ItemsDerived(items)
  {
    |ds| == |items| && forall i :: 0 <= i < |items| ==> Spells(conv, items[i].value, ds[i])
  }

  lemma {:induction false} BracketsRead(conv: NumConv, t: Syntax, d: Doc, nest: nat, rest: bytes)
    requires t.Brackets? && Derived(t) && Spells(conv, t, d) && nest <= 1000
    ensures ParseValue(conv, Text(t) + rest, nest) == Result(NestsIn(t, 1000 - nest), d, EatWhite(rest))
    decreases t, 2
  {
    hide EatWhite, ParseElems, ParseValue;
    var inside := if t.items == [] then t.space else ItemsText(t.items);
    var u := inside + ([']' as int] + rest);
    assert Text(t) + rest == ['[' as int] + u;
    if nest < 1000 {
      if t.items == [] {
        EmptyArray(conv, t.space, nest + 1, rest);
        assert d.elems == [];
      } else {
        FirstItemReads(conv, t.items, d.elems, nest + 1, rest);
      }
    }
    ArrayValue(conv, u, nest, ItemsNest(t.items, 999 - nest), d.elems, rest);
  }

  lemma ArrayValue(conv: NumConv, u: bytes, nest: nat, nests: bool, ds: seq<Doc>, rest: bytes)
    requires nest < 1000 ==> ParseElems(conv, u, nest + 1, []) == Result(nests, ds, rest)
    ensures ParseValue(conv, ['[' as int] + u, nest) == Result(nest < 1000 && nests, DArr(ds), EatWhite(rest))
  {
    hide EatWhite, ParseElems;
    JsonRoundTrip.NotWhite(['[' as int] + u);
    assert (['[' as int] + u)[1..] == u;
  }

  lemma EmptyArray(conv: NumConv, space: bytes, nest: nat, rest: bytes)
    requires White(space)
    ensures ParseElems(conv, space + ([']' as int] + rest), nest, []) == Ok([], rest)
  {
    hide EatWhite;
    var tail := [']' as int] + rest;
    WhiteIsGap(space);
    JsonRoundTrip.EatWhitePrefix(space, tail);
    JsonRoundTrip.NotWhite(tail);
    assert tail[1..] == rest;
  }

  lemma {:induction false} FirstItemReads(conv: NumConv, items: seq<Item>, ds: seq<Doc>, nest: nat, rest: bytes)
    requires items != [] && ItemsDerived(items) && ItemsSpell(conv, items, ds) && nest <= 1000
    ensures ParseElems(conv, ItemsText(items) + ([']' as int] + rest), nest, []) == Result(ItemsNest(items, 1000 - nest), ds, rest)
    decreases items, 3
  {
    hide ParseElems, ParseValue, EatWhite, Spells, Derived, ItemText, NestsIn;
    var tail := ItemsTail(items[1..]) + ([']' as int] + rest);
    TailStops(items[1..], rest);
    ItemReads(conv, items[0], ds[0], nest, tail);
    assert ItemsText(items) + ([']' as int] + rest) == ItemText(items[0]) + tail;
    FirstElem(conv, items[0], nest, ds[0], tail);
    if NestsIn(items[0].value, 1000 - nest) {
      ItemsRead(conv, items[1..], ds[1..], nest, [ds[0]], rest);
      assert [ds[0]] + ds[1..] == ds && items == [items[0]] + items[1..];
    } else {
      assert items[0] in items;
    }
  }

  lemma TailStops(items: seq<Item>, rest: bytes)
    requires ItemsDerived(items)
    ensures JsonRoundTrip.Stops(ItemsTail(items) + ([']' as int] + rest))
  {
    hide Derived, ItemText;
  }

  /** The first element of an array: what it starts with closes no array. */
  lemma FirstElem(conv: NumConv, it: Item, nest: nat, d: Doc, tail: bytes)
    requires White(it.before) && Derived(it.value) && White(it.after) && nest <= 1000
    requires ParseValue(conv, ItemText(it) + tail, nest) == Result(NestsIn(it.value, 1000 - nest), d, EatWhite(tail))
    ensures ParseElems(conv, ItemText(it) + tail, nest, []) ==
      if NestsIn(it.value, 1000 - nest) then ParseElems(conv, tail, nest, [d]) else RangeError
  {
    hide ParseValue, NestsIn, EatWhite;
    var s := ItemText(it) + tail;
    ItemStart(it, tail);
    JsonRoundTrip.EatWhiteTwice(s);
    JsonRoundTrip.ParseElemsWhite(conv, tail, nest, [d]);
    JsonRoundTrip.ParseElemsWhite(conv, s, nest, []);
    SameValue(conv, s, nest);
    assert [] + [d] == [d];
  }

  lemma SameValue(conv: NumConv, s: bytes, nest: nat)
    ensures ParseValue(conv, EatWhite(s), nest) == ParseValue(conv, s, nest)
  {
    JsonRoundTrip.EatWhiteTwice(s);
  }

  /** An item starts with a token, not with a comma or a closing bracket or brace. */
  lemma ItemStart(it: Item, tail: bytes)
    requires White(it.before) && Derived(it.value)
    ensures var t := EatWhite(ItemText(it) + tail);
      t != [] && t[0] != ']' as int && t[0] != ',' as int && t[0] != '}' as int && t == Text(it.value) + (it.after + tail)
  {
    hide EatWhite;
    var s := Text(it.value) + (it.after + tail);
    WhiteIsGap(it.before);
    assert ItemText(it) + tail == it.before + s;
    JsonRoundTrip.EatWhitePrefix(it.before, s);
    ValueStart(it.value);
    JsonRoundTrip.NotWhite(s);
  }

  lemma ValueStart(t: Syntax)
    requires Derived(t)
    ensures Text(t) != [] && Text(t)[0] != ']' as int && Text(t)[0] != ',' as int && Text(t)[0] != '}' as int
    ensures !IsWhite(Text(t)[0])
  {
  }

  lemma {:induction false} ItemsRead(conv: NumConv, items: seq<Item>, ds: seq<Doc>, nest: nat, acc: seq<Doc>, rest: bytes)
    requires acc != [] && ItemsDerived(items) && ItemsSpell(conv, items, ds) && nest <= 1000
    ensures ParseElems(conv, ItemsTail(items) + ([']' as int] + rest), nest, acc) == Result(ItemsNest(items, 1000 - nest), acc + ds, rest)
    decreases items, 3
  {
    hide ParseElems, ParseValue, EatWhite, Spells, Derived, ItemText, NestsIn, ItemsTail, ItemsSpell, ItemsNest, ItemsDerived, White;
    ItemsTailText(items, rest);
    FirstAndRestItems(conv, items, ds, 1000 - nest);
    if items == [] {
      assert acc + ds == acc;
      JsonRoundTrip.NotWhite([']' as int] + rest);
      JsonRoundTrip.ElemsEnd(conv, [']' as int] + rest, nest, acc, rest);
    } else {
      var tail := ItemsTail(items[1..]) + ([']' as int] + rest);
      TailStops(items[1..], rest);
      ItemReads(conv, items[0], ds[0], nest, tail);
      if NestsIn(items[0].value, 1000 - nest) {
        JsonRoundTrip.NextElem(conv, ItemText(items[0]) + tail, nest, acc, ds[0], tail);
        ItemsRead(conv, items[1..], ds[1..], nest, acc + [ds[0]], rest);
        assert acc + [ds[0]] + ds[1..] == acc + ds;
      } else {
        TooDeepElem(conv, ItemText(items[0]) + tail, nest, acc);
      }
    }
  }

  lemma ItemsTailText(items: seq<Item>, rest: bytes)
    requires ItemsDerived(items)
    ensures items == [] ==> ItemsTail(items) + ([']' as int] + rest) == [']' as int] + rest
    ensures items != [] ==>
      (forall it :: it in items[1..] ==> Derived(it.value)) && Derived(items[0].value) &&
      ItemsTail(items) + ([']' as int] + rest) == [',' as int] + (ItemText(items[0]) + (ItemsTail(items[1..]) + ([']' as int] + rest)))
  {
    hide Derived, ItemText;
    var end := [']' as int] + rest;
    if items == [] {
      assert [] + end == end;
    } else {
      assert items[0] in items && forall it :: it in items[1..] ==> it in items;
      assert ItemsTail(items) == [',' as int] + ItemText(items[0]) + ItemsTail(items[1..]);
      Cat4([',' as int], ItemText(items[0]), ItemsTail(items[1..]), end);
    }
  }

  lemma FirstAndRestItems(conv: NumConv, items: seq<Item>, ds: seq<Doc>, n: int)
    requires ItemsDerived(items) && ItemsSpell(conv, items, ds)
    ensures items == [] ==> ds == [] && ItemsNest(items, n)
    ensures items != [] ==> ItemsDerived(items[..1]) && ItemsDerived(items[1..]) && ds != [] && ItemsSpell(conv, items[1..], ds[1..])
    ensures items != [] ==>
      White(items[0].before) && Derived(items[0].value) && White(items[0].after) && Spells(conv, items[0].value, ds[0])
    ensures items != [] ==> (ItemsNest(items, n) <==> NestsIn(items[0].value, n) && ItemsNest(items[1..], n))
  {
    hide Derived, Spells, NestsIn, White;
    if items != [] {
      assert items[0] in items && forall it :: it in items[1..] ==> it in items;
      assert items == [items[0]] + items[1..];
    }
  }

  lemma TooDeepElem(conv: NumConv, s: bytes, nest: nat, acc: seq<Doc>)
    requires acc != [] && ParseValue(conv, s, nest) == RangeError
    ensures ParseElems(conv, [',' as int] + s, nest, acc) == RangeError
  {
    hide ParseValue, EatWhite;
    JsonRoundTrip.NotWhite([',' as int] + s);
    assert ([',' as int] + s)[1..] == s;
  }

  // ----- objects -----

  predicate PairsNest(pairs: seq<Pair>, n: int) { forall p :: p in pairs ==> NestsIn(p.item.value, n) }

  predicate PairDerived(p: Pair) {
    White(p.before) && CharsDerived(p.key) && White(p.after) &&
    White(p.item.before) && Derived(p.item.value) && White(p.item.after)
  }

  predicate PairsDerived(pairs: seq<Pair>) { forall p :: p in pairs ==> PairDerived(p) }

  lemma {:induction false} BracesRead(conv: NumConv, t: Syntax, d: Doc, nest: nat, rest: bytes)
    requires t.Braces? && Derived(t) && Spells(conv, t, d) && nest <= 1000
    ensures ParseValue(conv, Text(t) + rest, nest) == Result(NestsIn(t, 1000 - nest), d, EatWhite(rest))
    decreases t, 2
  {
    hide EatWhite, ParseMembers, ParseValue, Collapsed, PutAll, Derived, Spells, NestsIn, Text, White, PairDerived, SpellMembers;
    var ms := BracesParts(conv, t, d);
    CollapsedIsPutAll(ms, d.members);
    var u := (if t.pairs == [] then t.space else PairsText(t.pairs)) + (['}' as int] + rest);
    BracesText(t, rest);
    if nest < 1000 {
      if t.pairs == [] {
        EmptyObject(conv, t.space, nest + 1, rest);
        NoMembers(conv, ms);
      } else {
        FirstPairReads(conv, t.pairs, ms, nest + 1, rest);
      }
    }
    BracesNest(t, 1000 - nest);
    ObjectValue(conv, u, nest, PairsNest(t.pairs, 999 - nest), d.members, rest);
  }

  lemma NoMembers(conv: NumConv, ms: seq<Member>)
    requires SpellMembers(conv, [], ms)
    ensures PutAll([], ms) == []
  {
  }

  lemma BracesParts(conv: NumConv, t: Syntax, d: Doc) returns (ms: seq<Member>)
    requires t.Braces? && Derived(t) && Spells(conv, t, d)
    ensures White(t.space) && PairsDerived(t.pairs) && (forall p :: p in t.pairs ==> Derived(p.item.value))
    ensures d.DObj? && Collapsed(ms, d.members) && SpellMembers(conv, t.pairs, ms)
  {
    hide Collapsed;
    ms :| Collapsed(ms, d.members) && SpellMembers(conv, t.pairs, ms);
  }

  lemma BracesText(t: Syntax, rest: bytes)
    requires t.Braces? && Derived(t) && forall p :: p in t.pairs ==> Derived(p.item.value)
    ensures Text(t) + rest == ['{' as int] + ((if t.pairs == [] then t.space else PairsText(t.pairs)) + (['}' as int] + rest))
  {
    hide PairsText, Derived;
    assert Text(t) == ['{' as int] + (if t.pairs == [] then t.space else PairsText(t.pairs)) + ['}' as int];
    Cat4(['{' as int], if t.pairs == [] then t.space else PairsText(t.pairs), ['}' as int], rest);
  }

  lemma BracesNest(t: Syntax, n: int)
    requires t.Braces?
    ensures NestsIn(t, n) <==> n > 0 && PairsNest(t.pairs, n - 1)
  {
  }

  lemma ObjectValue(conv: NumConv, u: bytes, nest: nat, nests: bool, ms: seq<Member>, rest: bytes)
    requires nest < 1000 ==> ParseMembers(conv, u, nest + 1, []) == Result(nests, ms, rest)
    ensures ParseValue(conv, ['{' as int] + u, nest) == Result(nest < 1000 && nests, DObj(ms), EatWhite(rest))
  {
    hide EatWhite, ParseMembers;
    JsonRoundTrip.NotWhite(['{' as int] + u);
    assert (['{' as int] + u)[1..] == u;
  }

  lemma EmptyObject(conv: NumConv, space: bytes, nest: nat, rest: bytes)
    requires White(space)
    ensures ParseMembers(conv, space + (['}' as int] + rest), nest, []) == Ok([], rest)
  {
    hide EatWhite;
    var tail := ['}' as int] + rest;
    WhiteIsGap(space);
    JsonRoundTrip.EatWhitePrefix(space, tail);
    JsonRoundTrip.NotWhite(tail);
    assert tail[1..] == rest;
  }

  /** A pair, from its key on. */
  lemma {:induction false} PairReads(conv: NumConv, p: Pair, m: Member, nest: nat, rest: bytes)
    requires PairDerived(p) && m.key == CharsValue(p.key) && Spells(conv, p.item.value, m.doc)
    requires JsonRoundTrip.Stops(rest) && nest <= 1000
    ensures var t := EatWhite(PairText(p) + rest);
      t != [] && t[0] == '"' as int &&
      KeyValue(conv, t, nest) == Result(NestsIn(p.item.value, 1000 - nest), m, EatWhite(rest))
    decreases p, 5
  {
    hide ParseValue, EatWhite, Spells, Derived, NestsIn, ItemText, StringBody, KeyValue;
    ItemReads(conv, p.item, m.doc, nest, rest);
    var value := ItemText(p.item) + rest;
    var colon := [':' as int] + value;
    var body := StringText(p.key) + (p.after + colon);
    assert PairText(p) + rest == p.before + body;
    WhiteIsGap(p.before);
    JsonRoundTrip.EatWhitePrefix(p.before, body);
    JsonRoundTrip.NotWhite(body);
    KeyReads(conv, p, m, value, nest, EatWhite(rest));
  }

  lemma KeyReads(conv: NumConv, p: Pair, m: Member, value: bytes, nest: nat, rest: bytes)
    requires CharsDerived(p.key) && White(p.after) && m.key == CharsValue(p.key) && nest <= 1000
    requires ParseValue(conv, value, nest) == Result(NestsIn(p.item.value, 1000 - nest), m.doc, rest)
    ensures KeyValue(conv, StringText(p.key) + (p.after + ([':' as int] + value)), nest) ==
      Result(NestsIn(p.item.value, 1000 - nest), m, rest)
  {
    hide ParseValue, EatWhite, NestsIn, StringBody, CharsText, CharsDerived, CharsValue, White, KeyValue;
    var colon := [':' as int] + value;
    var body := StringText(p.key) + (p.after + colon);
    assert body == ['"' as int] + (CharsText(p.key) + (['"' as int] + (p.after + colon)));
    CharsRead(p.key, p.after + colon);
    WhiteIsGap(p.after);
    JsonRoundTrip.EatWhitePrefix(p.after, colon);
    JsonRoundTrip.NotWhite(colon);
    assert colon[1..] == value;
    KeyFound(conv, CharsText(p.key) + (['"' as int] + (p.after + colon)), p.after + colon, value, NestsIn(p.item.value, 1000 - nest), m, nest, rest);
  }

  lemma KeyFound(conv: NumConv, s: bytes, t: bytes, value: bytes, nests: bool, m: Member, nest: nat, rest: bytes)
    requires StringBody(s) == Some((m.key, t)) && EatWhite(t) == [':' as int] + value
    requires ParseValue(conv, value, nest) == Result(nests, m.doc, rest)
    ensures KeyValue(conv, ['"' as int] + s, nest) == Result(nests, m, rest)
  {
    hide ParseValue, EatWhite, StringBody;
    assert (['"' as int] + s)[1..] == s && ([':' as int] + value)[1..] == value;
  }

  lemma RestDerived(pairs: seq<Pair>)
    requires pairs != [] && PairsDerived(pairs)
    ensures PairDerived(pairs[0]) && PairsDerived(pairs[1..]) && forall p :: p in pairs[1..] ==> Derived(p.item.value)
  {
    hide Derived;
    assert pairs[0] in pairs && forall p :: p in pairs[1..] ==> p in pairs;
  }

  lemma PairsStop(pairs: seq<Pair>, rest: bytes)
    requires PairsDerived(pairs)
    ensures JsonRoundTrip.Stops(PairsTail(pairs) + (['}' as int] + rest))
  {
    hide Derived, PairText;
  }

  lemma {:induction false} FirstPairReads(conv: NumConv, pairs: seq<Pair>, ms: seq<Member>, nest: nat, rest: bytes)
    requires pairs != [] && PairsDerived(pairs) && SpellMembers(conv, pairs, ms) && nest <= 1000
    ensures ParseMembers(conv, PairsText(pairs) + (['}' as int] + rest), nest, []) ==
      Result(PairsNest(pairs, 1000 - nest), PutAll([], ms), rest)
    decreases pairs, 4
  {
    hide ParseMembers, KeyValue, EatWhite, Spells, Derived, PairText, NestsIn, Put, PairsTail, SpellMembers, PairsNest, PairDerived;
    RestDerived(pairs);
    FirstAndRest(conv, pairs, ms, 1000 - nest);
    var p, tail := pairs[0], PairsTail(pairs[1..]) + (['}' as int] + rest);
    PairsStop(pairs[1..], rest);
    PairReads(conv, p, ms[0], nest, tail);
    DerivedPair(p);
    Append(PairText(p), PairsTail(pairs[1..]), ['}' as int] + rest);
    FirstMember(conv, PairText(p) + tail, nest, NestsIn(p.item.value, 1000 - nest), ms[0], tail);
    if NestsIn(p.item.value, 1000 - nest) {
      PutSome([], ms[0]);
      PairsRead(conv, pairs[1..], ms[1..], nest, Put([], ms[0].key, ms[0].doc), rest);
    }
  }

  lemma Append(a: bytes, b: bytes, c: bytes)
    ensures a + b + c == a + (b + c)
  {
  }

  lemma PutSome(acc: seq<Member>, m: Member)
    ensures Put(acc, m.key, m.doc) != []
  {
  }

  lemma FirstMember(conv: NumConv, s: bytes, nest: nat, nests: bool, m: Member, tail: bytes)
    requires EatWhite(s) != [] && EatWhite(s)[0] == '"' as int && KeyValue(conv, EatWhite(s), nest) == Result(nests, m, EatWhite(tail))
    ensures ParseMembers(conv, s, nest, []) == if nests then ParseMembers(conv, tail, nest, Put([], m.key, m.doc)) else RangeError
  {
    hide KeyValue, EatWhite, Put;
    JsonRoundTrip.ParseMembersWhite(conv, tail, nest, Put([], m.key, m.doc));
  }

  lemma LaterMember(conv: NumConv, s: bytes, nest: nat, acc: seq<Member>, nests: bool, m: Member, tail: bytes)
    requires acc != [] && EatWhite(s) != [] && KeyValue(conv, EatWhite(s), nest) == Result(nests, m, EatWhite(tail))
    ensures ParseMembers(conv, [',' as int] + s, nest, acc) ==
      if nests then ParseMembers(conv, tail, nest, Put(acc, m.key, m.doc)) else RangeError
  {
    hide KeyValue, EatWhite, Put;
    JsonRoundTrip.NotWhite([',' as int] + s);
    assert ([',' as int] + s)[1..] == s;
    JsonRoundTrip.ParseMembersWhite(conv, tail, nest, Put(acc, m.key, m.doc));
  }

  lemma {:induction false} PairsRead(conv: NumConv, pairs: seq<Pair>, ms: seq<Member>, nest: nat, acc: seq<Member>, rest: bytes)
    requires acc != [] && PairsDerived(pairs) && SpellMembers(conv, pairs, ms) && nest <= 1000
    ensures ParseMembers(conv, PairsTail(pairs) + (['}' as int] + rest), nest, acc) ==
      Result(PairsNest(pairs, 1000 - nest), PutAll(acc, ms), rest)
    decreases pairs, 4
  {
    hide ParseMembers, KeyValue, EatWhite, Spells, Derived, PairText, NestsIn, Put, PairsTail, SpellMembers, PairsNest, PairDerived;
    PairsTailText(pairs, rest);
    FirstAndRest(conv, pairs, ms, 1000 - nest);
    if pairs == [] {
      JsonRoundTrip.NotWhite(['}' as int] + rest);
      JsonRoundTrip.MembersEnd(conv, ['}' as int] + rest, nest, acc, rest);
    } else {
      RestDerived(pairs);
      var p, tail := pairs[0], PairsTail(pairs[1..]) + (['}' as int] + rest);
      PairsStop(pairs[1..], rest);
      PairReads(conv, p, ms[0], nest, tail);
      LaterMember(conv, PairText(p) + tail, nest, acc, NestsIn(p.item.value, 1000 - nest), ms[0], tail);
      if NestsIn(p.item.value, 1000 - nest) {
        PutSome(acc, ms[0]);
        PairsRead(conv, pairs[1..], ms[1..], nest, Put(acc, ms[0].key, ms[0].doc), rest);
      }
    }
  }

  lemma PairsTailText(pairs: seq<Pair>, rest: bytes)
    requires PairsDerived(pairs)
    ensures pairs == [] ==> PairsTail(pairs) + (['}' as int] + rest) == ['}' as int] + rest
    ensures pairs != [] ==>
      (forall p :: p in pairs[1..] ==> Derived(p.item.value)) && Derived(pairs[0].item.value) &&
      PairsTail(pairs) + (['}' as int] + rest) == [',' as int] + (PairText(pairs[0]) + (PairsTail(pairs[1..]) + (['}' as int] + rest)))
  {
    hide Derived, PairText, PairDerived;
    var end := ['}' as int] + rest;
    if pairs == [] {
      assert [] + end == end;
    } else {
      RestDerived(pairs);
      DerivedPair(pairs[0]);
      assert PairsTail(pairs) == [',' as int] + PairText(pairs[0]) + PairsTail(pairs[1..]);
      Cat4([',' as int], PairText(pairs[0]), PairsTail(pairs[1..]), end);
    }
  }

  lemma DerivedPair(p: Pair)
    requires PairDerived(p)
    ensures Derived(p.item.value)
  {
  }

  lemma Cat4(a: bytes, b: bytes, c: bytes, d: bytes)
    ensures a + b + c + d == a + (b + (c + d))
  {
  }

  lemma FirstAndRest(conv: NumConv, pairs: seq<Pair>, ms: seq<Member>, n: int)
    requires PairsDerived(pairs) && SpellMembers(conv, pairs, ms)
    ensures pairs == [] ==> ms == [] && PairsNest(pairs, n)
    ensures pairs != [] ==> PairDerived(pairs[0]) && PairsDerived(pairs[1..]) && ms != [] && SpellMembers(conv, pairs[1..], ms[1..])
    ensures pairs != [] ==>
      PairDerived(pairs[0]) && ms[0].key == CharsValue(pairs[0].key) && Spells(conv, pairs[0].item.value, ms[0].doc)
    ensures pairs != [] ==> (PairsNest(pairs, n) <==> NestsIn(pairs[0].item.value, n) && PairsNest(pairs[1..], n))
  {
    hide Derived, Spells, NestsIn;
    if pairs != [] {
      RestDerived(pairs);
      assert pairs == [pairs[0]] + pairs[1..];
    }
  }

  // ----- what is parsed is derived -----

  lemma {:induction false} WhiteFound(s: bytes) returns (w: bytes)
    ensures White(w) && s == w + EatWhite(s)
  {
    if s != [] && IsWhite(s[0]) {
      var more := WhiteFound(s[1..]);
      w := [s[0]] + more;
      Cat3([s[0]], more, EatWhite(s));
      assert s == [s[0]] + s[1..];
    } else {
      w := [];
    }
  }

  /** `s` is the item in front of `rest`, and the item spells `d`. */
  ghost predicate Found(conv: NumConv, s: bytes, it: Item, d: Doc, rest: bytes) {
    White(it.before) && Derived(it.value) && White(it.after) && Spells(conv, it.value, d) && s == ItemText(it) + rest
  }

  /** The same for a value without whitespace around it. */
  ghost predicate FoundValue(conv: NumConv, s: bytes, t: Syntax, d: Doc, rest: bytes) {
    Derived(t) && Spells(conv, t, d) && s == Text(t) + rest
  }

  /** Every value the parser accepts is derived, and spells what it is parsed as. */
  lemma {:induction false} ValueFound(conv: NumConv, s: bytes, nest: nat) returns (it: Item)
    requires ParseValue(conv, s, nest).Ok? && nest <= 1000
    ensures Found(conv, s, it, ParseValue(conv, s, nest).value, ParseValue(conv, s, nest).rest)
    ensures NestsIn(it.value, 1000 - nest) && EatWhite(ParseValue(conv, s, nest).rest) == ParseValue(conv, s, nest).rest
    decreases |s|, 5
  {
    hide Found, NestsIn, Derived, Spells, White, Text, ParseValue;
    var t := EatWhite(s);
    SameValue(conv, s, nest);
    Shortened(s);
    ValueNotEmpty(conv, s, nest);
    var before := WhiteFound(s);
    var value, more;
    if t[0] == '[' as int {
      value, more := ArrayFound(conv, t, nest);
    } else if t[0] == '{' as int {
      value, more := ObjectFound(conv, t, nest);
    } else {
      value, more := ScalarFound(conv, t, nest);
    }
    var after := WhiteFound(more);
    JsonRoundTrip.EatWhiteTwice(more);
    it := Item(before, value, after);
    Assemble(conv, s, it, ParseValue(conv, s, nest).value, t, more);
  }

  lemma Shortened(s: bytes)
    ensures |EatWhite(s)| <= |s| && EatWhite(EatWhite(s)) == EatWhite(s)
  {
    JsonRoundTrip.EatWhiteTwice(s);
  }

  lemma ValueNotEmpty(conv: NumConv, s: bytes, nest: nat)
    requires ParseValue(conv, s, nest).Ok?
    ensures EatWhite(s) != []
  {
  }

  lemma Assemble(conv: NumConv, s: bytes, it: Item, d: Doc, t: bytes, more: bytes)
    requires White(it.before) && White(it.after) && FoundValue(conv, t, it.value, d, more)
    requires s == it.before + t && more == it.after + EatWhite(more)
    ensures Found(conv, s, it, d, EatWhite(more))
  {
    hide White, Derived, Spells, EatWhite;
    Cat4(it.before, Text(it.value), it.after, EatWhite(more));
  }

  /** Words, numbers and strings. */
  lemma ScalarFound(conv: NumConv, t: bytes, nest: nat) returns (value: Syntax, more: bytes)
    requires ParseValue(conv, t, nest).Ok? && EatWhite(t) == t != [] && t[0] != '[' as int && t[0] != '{' as int && nest <= 1000
    ensures FoundValue(conv, t, value, ParseValue(conv, t, nest).value, more) && NestsIn(value, 1000 - nest)
    ensures ParseValue(conv, t, nest).rest == EatWhite(more)
  {
    hide EatWhite, StringBody, NumberSpan, FoundValue, Keyword;
    if t[0] == '"' as int {
      value, more := QuotedFound(conv, t, nest);
    } else if IsDigit(t[0]) || t[0] == '-' as int {
      value, more := NumeralFound(conv, t, nest);
    } else if t[0] == 't' as int {
      value := True;
      more := KeywordFound(conv, t, value, DBool(true));
    } else if t[0] == 'f' as int {
      value := False;
      more := KeywordFound(conv, t, value, DBool(false));
    } else {
      value := Syntax.Null;
      more := KeywordFound(conv, t, value, DNull);
    }
  }

  lemma QuotedFound(conv: NumConv, t: bytes, nest: nat) returns (value: Syntax, more: bytes)
    requires ParseValue(conv, t, nest).Ok? && EatWhite(t) == t != [] && t[0] == '"' as int
    ensures FoundValue(conv, t, value, ParseValue(conv, t, nest).value, more) && value.Quoted?
    ensures ParseValue(conv, t, nest).rest == EatWhite(more)
  {
    hide EatWhite, StringBody, CharsText;
    var chars := CharsFound(t[1..]);
    value, more := Quoted(chars), StringBody(t[1..]).value.1;
    assert t == ['"' as int] + t[1..];
  }

  lemma NumeralFound(conv: NumConv, t: bytes, nest: nat) returns (value: Syntax, more: bytes)
    requires ParseValue(conv, t, nest).Ok? && EatWhite(t) == t != [] && (IsDigit(t[0]) || t[0] == '-' as int)
    ensures FoundValue(conv, t, value, ParseValue(conv, t, nest).value, more) && value.Numeral?
    ensures ParseValue(conv, t, nest).rest == EatWhite(more)
  {
    hide EatWhite, NumberSpan;
    var n := NumberSpan(t);
    SpanNumbers(t);
    NumberSpanStart(t);
    value, more := Numeral(t[..n]), t[n..];
    assert t == t[..n] + t[n..];
  }

  lemma {:induction false} SpanNumbers(t: bytes)
    ensures forall b :: b in t[..NumberSpan(t)] ==> IsNumberChar(b)
  {
    if t != [] && IsNumberChar(t[0]) {
      SpanNumbers(t[1..]);
      assert t[..NumberSpan(t)] == [t[0]] + t[1..][..NumberSpan(t[1..])];
    }
  }

  lemma KeywordFound(conv: NumConv, t: bytes, value: Syntax, d: Doc) returns (more: bytes)
    requires t != [] && (value.Null? || value.True? || value.False?) && t[0] == Text(value)[0]
    requires d == if value.Null? then DNull else DBool(value.True?)
    requires Keyword(t[1..], Text(value)[1..], d).Ok?
    ensures FoundValue(conv, t, value, d, more) && Keyword(t[1..], Text(value)[1..], d) == Ok(d, EatWhite(more))
  {
    hide EatWhite;
    var w := Text(value)[1..];
    more := t[1..][|w|..];
    assert t[1..] == w + more;
    assert t == [t[0]] + t[1..] && Text(value) == [t[0]] + w;
  }

  // ----- arrays found -----

  lemma {:induction false} ArrayFound(conv: NumConv, t: bytes, nest: nat) returns (value: Syntax, more: bytes)
    requires ParseValue(conv, t, nest).Ok? && EatWhite(t) == t != [] && t[0] == '[' as int && nest <= 1000
    ensures FoundValue(conv, t, value, ParseValue(conv, t, nest).value, more) && NestsIn(value, 1000 - nest)
    ensures ParseValue(conv, t, nest).rest == EatWhite(more)
    decreases |t|, 4
  {
    hide EatWhite, ParseElems, ParseValue, Derived, Spells, White, FoundValue, NestsIn, ItemsDerived, ItemsSpell, ItemsNest, ItemsText;
    var u := t[1..];
    assert t == ['[' as int] + u;
    ArrayCase(conv, u, nest);
    var r := ParseElems(conv, u, nest + 1, []);
    var items, space, ds := ElemsFound(conv, u, nest + 1);
    value, more := Brackets(space, items), r.rest;
    ArrayMade(conv, t, value, ds, more, 1000 - nest);
  }

  lemma ArrayCase(conv: NumConv, u: bytes, nest: nat)
    requires ParseValue(conv, ['[' as int] + u, nest).Ok? && nest <= 1000
    ensures nest < 1000 && ParseElems(conv, u, nest + 1, []).Ok?
    ensures var r := ParseElems(conv, u, nest + 1, []);
      ParseValue(conv, ['[' as int] + u, nest) == Ok(DArr(r.value), EatWhite(r.rest))
  {
    hide EatWhite, ParseElems;
    JsonRoundTrip.NotWhite(['[' as int] + u);
    assert (['[' as int] + u)[1..] == u;
  }

  lemma ArrayMade(conv: NumConv, t: bytes, value: Syntax, ds: seq<Doc>, more: bytes, n: int)
    requires value.Brackets? && White(value.space) && ItemsDerived(value.items) && ItemsSpell(conv, value.items, ds)
    requires ItemsNest(value.items, n - 1) && n > 0 && forall it :: it in value.items ==> Derived(it.value)
    requires t == ['[' as int] + ((if value.items == [] then value.space else ItemsText(value.items)) + ([']' as int] + more))
    ensures FoundValue(conv, t, value, DArr(ds), more) && NestsIn(value, n)
  {
    hide White, ItemsText;
    Cat4(['[' as int], if value.items == [] then value.space else ItemsText(value.items), [']' as int], more);
  }

  lemma {:induction false} ElemsFound(conv: NumConv, u: bytes, nest: nat) returns (items: seq<Item>, space: bytes, ds: seq<Doc>)
    requires ParseElems(conv, u, nest, []).Ok? && nest <= 1000
    ensures White(space) && ItemsDerived(items) && ItemsSpell(conv, items, ds) && ItemsNest(items, 1000 - nest)
    ensures (forall it :: it in items ==> Derived(it.value)) && ds == ParseElems(conv, u, nest, []).value
    ensures u == (if items == [] then space else ItemsText(items)) + ([']' as int] + ParseElems(conv, u, nest, []).rest)
    decreases |u|, 7
  {
    hide ParseValue, EatWhite, Derived, Spells, White, NestsIn, ItemText;
    var t := EatWhite(u);
    Shortened(u);
    space := WhiteFound(u);
    if t[0] == ']' as int {
      items, ds := [], [];
      assert t == [']' as int] + t[1..];
    } else {
      var r := ParseValue(conv, t, nest);
      var it := ValueFound(conv, t, nest);
      assert [] + [r.value] == [r.value];
      var more, ms := ElemsTailFound(conv, r.rest, nest, [r.value]);
      var it1 := it.(before := space + it.before);
      items, ds := [it1] + more, [r.value] + ms;
      Widened(conv, u, it, space, t, r.value, r.rest);
      FirstItemMade(conv, it1, more, r.value, ms, 1000 - nest, u, r.rest, ParseElems(conv, u, nest, []).rest);
    }
  }

  lemma Widened(conv: NumConv, u: bytes, it: Item, space: bytes, t: bytes, d: Doc, rest: bytes)
    requires White(space) && u == space + t && Found(conv, t, it, d, rest)
    ensures Found(conv, u, it.(before := space + it.before), d, rest)
  {
    hide Derived, Spells;
    assert (space + it.before) + Text(it.value) + it.after + rest == space + (it.before + Text(it.value) + it.after + rest);
  }

  lemma FirstItemMade(conv: NumConv, it: Item, more: seq<Item>, d: Doc, ds: seq<Doc>, n: int, u: bytes, rest: bytes, end: bytes)
    requires Found(conv, u, it, d, rest) && NestsIn(it.value, n) && ItemsDerived(more) && ItemsSpell(conv, more, ds) && ItemsNest(more, n)
    requires (forall q :: q in more ==> Derived(q.value)) && rest == ItemsTail(more) + ([']' as int] + end)
    ensures ItemsDerived([it] + more) && ItemsSpell(conv, [it] + more, [d] + ds) && ItemsNest([it] + more, n)
    ensures (forall q :: q in [it] + more ==> Derived(q.value)) && u == ItemsText([it] + more) + ([']' as int] + end)
  {
    hide Derived, Spells, White, NestsIn, ItemText;
    assert ([it] + more)[1..] == more;
    Cat3(ItemText(it), ItemsTail(more), [']' as int] + end);
  }

  lemma {:induction false} ElemsTailFound(conv: NumConv, u: bytes, nest: nat, acc: seq<Doc>) returns (items: seq<Item>, ds: seq<Doc>)
    requires ParseElems(conv, u, nest, acc).Ok? && acc != [] && EatWhite(u) == u && nest <= 1000
    ensures ItemsDerived(items) && ItemsSpell(conv, items, ds) && ItemsNest(items, 1000 - nest)
    ensures (forall it :: it in items ==> Derived(it.value)) && ParseElems(conv, u, nest, acc).value == acc + ds
    ensures u == ItemsTail(items) + ([']' as int] + ParseElems(conv, u, nest, acc).rest)
    decreases |u|, 6
  {
    hide ParseElems, ParseValue, EatWhite, Derived, Spells, White, NestsIn, ItemText, Found;
    ElemsTailCase(conv, u, nest, acc);
    if u[0] == ',' as int {
      var s := u[1..];
      var r := ParseValue(conv, s, nest);
      var it := ValueFound(conv, s, nest);
      var more, ms := ElemsTailFound(conv, r.rest, nest, acc + [r.value]);
      items, ds := [it] + more, [r.value] + ms;
      assert acc + [r.value] + ms == acc + ds;
      FirstItemMade(conv, it, more, r.value, ms, 1000 - nest, s, r.rest, ParseElems(conv, u, nest, acc).rest);
      TailMade(it, more);
      assert u == [',' as int] + s;
    } else {
      items, ds := [], [];
      assert acc + [] == acc && u == [']' as int] + u[1..];
    }
  }

  /** Behind an element: another one, or the end. */
  lemma ElemsTailCase(conv: NumConv, u: bytes, nest: nat, acc: seq<Doc>)
    requires ParseElems(conv, u, nest, acc).Ok? && acc != [] && EatWhite(u) == u
    ensures u != [] && (u[0] == ',' as int || u[0] == ']' as int)
    ensures u[0] == ']' as int ==> ParseElems(conv, u, nest, acc) == Ok(acc, u[1..])
    ensures u[0] == ',' as int ==> ParseValue(conv, u[1..], nest).Ok? && |ParseValue(conv, u[1..], nest).rest| < |u|
    ensures u[0] == ',' as int ==>
      var r := ParseValue(conv, u[1..], nest);
      ParseElems(conv, u, nest, acc) == ParseElems(conv, r.rest, nest, acc + [r.value])
  {
    hide EatWhite, ParseValue;
  }

  lemma TailMade(it: Item, more: seq<Item>)
    requires forall q :: q in [it] + more ==> Derived(q.value)
    ensures ItemsTail([it] + more) == [',' as int] + ItemsText([it] + more)
  {
    hide Derived, ItemText;
    assert ([it] + more)[1..] == more;
  }

  // ----- objects found -----

  lemma {:induction false} ObjectFound(conv: NumConv, t: bytes, nest: nat) returns (value: Syntax, more: bytes)
    requires ParseValue(conv, t, nest).Ok? && EatWhite(t) == t != [] && t[0] == '{' as int && nest <= 1000
    ensures FoundValue(conv, t, value, ParseValue(conv, t, nest).value, more) && NestsIn(value, 1000 - nest)
    ensures ParseValue(conv, t, nest).rest == EatWhite(more)
    decreases |t|, 4
  {
    hide EatWhite, ParseMembers, ParseValue, Derived, Spells, White, PutAll, Collapsed, FoundValue, NestsIn, PairsDerived, SpellMembers, PairsNest, PairsText;
    var u := t[1..];
    assert t == ['{' as int] + u;
    ObjectCase(conv, u, nest);
    var r := ParseMembers(conv, u, nest + 1, []);
    var pairs, space, ms := MembersFound(conv, u, nest + 1);
    value, more := Braces(space, pairs), r.rest;
    PutAllCollapsed(ms);
    ObjectMade(conv, t, value, ms, r.value, more, 1000 - nest);
  }

  lemma ObjectCase(conv: NumConv, u: bytes, nest: nat)
    requires ParseValue(conv, ['{' as int] + u, nest).Ok? && nest <= 1000
    ensures nest < 1000 && ParseMembers(conv, u, nest + 1, []).Ok?
    ensures var r := ParseMembers(conv, u, nest + 1, []);
      ParseValue(conv, ['{' as int] + u, nest) == Ok(DObj(r.value), EatWhite(r.rest))
  {
    hide EatWhite, ParseMembers;
    JsonRoundTrip.NotWhite(['{' as int] + u);
    assert (['{' as int] + u)[1..] == u;
  }

  lemma ObjectMade(conv: NumConv, t: bytes, value: Syntax, ms: seq<Member>, r: seq<Member>, more: bytes, n: int)
    requires value.Braces? && White(value.space) && PairsDerived(value.pairs) && SpellMembers(conv, value.pairs, ms)
    requires Collapsed(ms, r) && PairsNest(value.pairs, n - 1) && n > 0 && forall p :: p in value.pairs ==> Derived(p.item.value)
    requires t == ['{' as int] + ((if value.pairs == [] then value.space else PairsText(value.pairs)) + (['}' as int] + more))
    ensures FoundValue(conv, t, value, DObj(r), more) && NestsIn(value, n)
  {
    hide White, PairsText, Collapsed;
    Cat4(['{' as int], if value.pairs == [] then value.space else PairsText(value.pairs), ['}' as int], more);
  }

  /** `s` is the pair in front of `rest`, and the pair spells the member. */
  ghost predicate FoundPair(conv: NumConv, s: bytes, p: Pair, m: Member, rest: bytes) {
    PairDerived(p) && m.key == CharsValue(p.key) && Spells(conv, p.item.value, m.doc) && s == PairText(p) + rest
  }

  lemma {:induction false} PairFound(conv: NumConv, s: bytes, before: bytes, t: bytes, nest: nat) returns (p: Pair)
    requires KeyValue(conv, t, nest).Ok? && White(before) && s == before + t && nest <= 1000
    ensures FoundPair(conv, s, p, KeyValue(conv, t, nest).value, KeyValue(conv, t, nest).rest) && NestsIn(p.item.value, 1000 - nest)
    ensures EatWhite(KeyValue(conv, t, nest).rest) == KeyValue(conv, t, nest).rest
    decreases |t|, 6
  {
    hide EatWhite, StringBody, ParseValue, Derived, Spells, NestsIn, CharsText, White, CharsDerived, CharsValue;
    var key, u := StringBody(t[1..]).value.0, StringBody(t[1..]).value.1;
    var chars := CharsFound(t[1..]);
    assert t == ['"' as int] + t[1..];
    var after := WhiteFound(u);
    Shortened(u);
    var v := EatWhite(u);
    assert v == [':' as int] + v[1..];
    var it := ValueFound(conv, v[1..], nest);
    p := Pair(before, chars, after, it);
    var rest := ParseValue(conv, v[1..], nest).rest;
    PairMade(s, p, t, u, v[1..], rest);
  }

  lemma PairMade(s: bytes, p: Pair, t: bytes, u: bytes, v: bytes, rest: bytes)
    requires Derived(p.item.value) && s == p.before + t && v == ItemText(p.item) + rest
    requires t == ['"' as int] + (CharsText(p.key) + (['"' as int] + u)) && u == p.after + ([':' as int] + v)
    ensures s == PairText(p) + rest
  {
    hide CharsText, ItemText, Derived;
    var key := StringText(p.key);
    assert t == key + u;
    calc {
      PairText(p) + rest;
      p.before + key + p.after + [':' as int] + ItemText(p.item) + rest;
      { Cat4(p.before + key, p.after, [':' as int] + ItemText(p.item), rest); assert p.before + key + p.after + [':' as int] + ItemText(p.item) == p.before + key + p.after + ([':' as int] + ItemText(p.item)); }
      p.before + key + (p.after + ([':' as int] + ItemText(p.item) + rest));
      { Cat3([':' as int], ItemText(p.item), rest); }
      p.before + key + u;
      { Cat3(p.before, key, u); }
      s;
    }
  }

  lemma {:induction false} MembersFound(conv: NumConv, u: bytes, nest: nat) returns (pairs: seq<Pair>, space: bytes, ms: seq<Member>)
    requires ParseMembers(conv, u, nest, []).Ok? && nest <= 1000
    ensures White(space) && PairsDerived(pairs) && SpellMembers(conv, pairs, ms) && PairsNest(pairs, 1000 - nest)
    ensures (forall p :: p in pairs ==> Derived(p.item.value)) && PutAll([], ms) == ParseMembers(conv, u, nest, []).value
    ensures u == (if pairs == [] then space else PairsText(pairs)) + (['}' as int] + ParseMembers(conv, u, nest, []).rest)
    decreases |u|, 8
  {
    hide KeyValue, EatWhite, Derived, Spells, White, NestsIn, PairText, Put;
    var t := EatWhite(u);
    Shortened(u);
    space := WhiteFound(u);
    if t[0] == '}' as int {
      pairs, ms := [], [];
      assert t == ['}' as int] + t[1..];
    } else {
      var r := KeyValue(conv, t, nest);
      var p := PairFound(conv, u, space, t, nest);
      PutSome([], r.value);
      var more, rest := MembersTailFound(conv, r.rest, nest, Put([], r.value.key, r.value.doc));
      pairs, ms := [p] + more, [r.value] + rest;
      FirstPairMade(conv, p, more, r.value, rest, 1000 - nest, u, r.rest, ParseMembers(conv, u, nest, []).rest);
    }
  }

  lemma FirstPairMade(conv: NumConv, p: Pair, more: seq<Pair>, m: Member, ms: seq<Member>, n: int, u: bytes, rest: bytes, end: bytes)
    requires FoundPair(conv, u, p, m, rest) && NestsIn(p.item.value, n) && PairsDerived(more) && SpellMembers(conv, more, ms) && PairsNest(more, n)
    requires (forall q :: q in more ==> Derived(q.item.value)) && rest == PairsTail(more) + (['}' as int] + end)
    ensures PairsDerived([p] + more) && SpellMembers(conv, [p] + more, [m] + ms) && PairsNest([p] + more, n)
    ensures (forall q :: q in [p] + more ==> Derived(q.item.value)) && u == PairsText([p] + more) + (['}' as int] + end)
    ensures forall acc :: PutAll(acc, [m] + ms) == PutAll(Put(acc, m.key, m.doc), ms)
  {
    hide Derived, Spells, White, NestsIn, PairText, Put;
    assert ([p] + more)[1..] == more && ([m] + ms)[1..] == ms;
    Cat3(PairText(p), PairsTail(more), ['}' as int] + end);
  }

  lemma {:induction false} MembersTailFound(conv: NumConv, u: bytes, nest: nat, acc: seq<Member>) returns (pairs: seq<Pair>, ms: seq<Member>)
    requires ParseMembers(conv, u, nest, acc).Ok? && acc != [] && EatWhite(u) == u && nest <= 1000
    ensures PairsDerived(pairs) && SpellMembers(conv, pairs, ms) && PairsNest(pairs, 1000 - nest)
    ensures (forall p :: p in pairs ==> Derived(p.item.value)) && ParseMembers(conv, u, nest, acc).value == PutAll(acc, ms)
    ensures u == PairsTail(pairs) + (['}' as int] + ParseMembers(conv, u, nest, acc).rest)
    decreases |u|, 7
  {
    hide ParseMembers, KeyValue, EatWhite, Derived, Spells, White, NestsIn, PairText, Put, FoundPair;
    MembersTailCase(conv, u, nest, acc);
    if u[0] == ',' as int {
      var s := u[1..];
      var t := EatWhite(s);
      Shortened(s);
      var space := WhiteFound(s);
      var r := KeyValue(conv, t, nest);
      var p := PairFound(conv, s, space, t, nest);
      PutSome(acc, r.value);
      var more, rest := MembersTailFound(conv, r.rest, nest, Put(acc, r.value.key, r.value.doc));
      pairs, ms := [p] + more, [r.value] + rest;
      FirstPairMade(conv, p, more, r.value, rest, 1000 - nest, s, r.rest, ParseMembers(conv, u, nest, acc).rest);
      PairsTailMade(p, more);
      assert u == [',' as int] + s;
    } else {
      pairs, ms := [], [];
      assert u == ['}' as int] + u[1..];
    }
  }

  /** Behind a member: another one, or the end. */
  lemma MembersTailCase(conv: NumConv, u: bytes, nest: nat, acc: seq<Member>)
    requires ParseMembers(conv, u, nest, acc).Ok? && acc != [] && EatWhite(u) == u
    ensures u != [] && (u[0] == ',' as int || u[0] == '}' as int)
    ensures u[0] == '}' as int ==> ParseMembers(conv, u, nest, acc) == Ok(acc, u[1..])
    ensures u[0] == ',' as int ==> KeyValue(conv, EatWhite(u[1..]), nest).Ok? && |KeyValue(conv, EatWhite(u[1..]), nest).rest| < |u|
    ensures u[0] == ',' as int ==>
      var r := KeyValue(conv, EatWhite(u[1..]), nest);
      ParseMembers(conv, u, nest, acc) == ParseMembers(conv, r.rest, nest, Put(acc, r.value.key, r.value.doc))
  {
    hide EatWhite, KeyValue, Put;
  }

  lemma PairsTailMade(p: Pair, more: seq<Pair>)
    requires forall q :: q in [p] + more ==> Derived(q.item.value)
    ensures PairsTail([p] + more) == [',' as int] + PairsText([p] + more)
  {
    hide Derived, PairText;
    assert ([p] + more)[1..] == more;
  }

  // ----- the parser is exact -----

  /** The text is a derived value with whitespace around it, and spells the document. */
  ghost predicate Spelled(conv: NumConv, text: bytes, it: Item, d: Doc) {
    White(it.before) && Derived(it.value) && White(it.after) && Spells(conv, it.value, d) && text == ItemText(it)
  }

  /** Parsing accepts exactly the texts the grammar derives, nested at most 1000 deep, each with the document
      it spells: an object has each key once, where it occurs first, with its last value. */
  lemma ParseExact(conv: NumConv, text: bytes, d: Doc)
    ensures Parse(conv, text) == Ok(d, [0]) <==> exists it :: Spelled(conv, text, it, d) && NestsIn(it.value, 1000)
  {
    hide Spelled, ParseValue, NestsIn;
    if it :| Spelled(conv, text, it, d) && NestsIn(it.value, 1000) {
      SpelledParses(conv, text, it, d);
    }
    if Parse(conv, text) == Ok(d, [0]) {
      var it := ParsedSpelled(conv, text, d);
    }
  }

  /** A derived text that nests deeper is refused for that. */
  lemma SpelledParses(conv: NumConv, text: bytes, it: Item, d: Doc)
    requires Spelled(conv, text, it, d)
    ensures Parse(conv, text) == if NestsIn(it.value, 1000) then Ok(d, [0]) else RangeError
  {
    hide ParseValue, NestsIn, Spells, Derived, White, ItemText, EatWhite;
    NulEnds();
    ItemReads(conv, it, d, 0, [0]);
  }

  lemma NulEnds()
    ensures JsonRoundTrip.Stops([0]) && EatWhite([0]) == [0]
  {
  }

  lemma ParsedSpelled(conv: NumConv, text: bytes, d: Doc) returns (it: Item)
    requires Parse(conv, text) == Ok(d, [0])
    ensures Spelled(conv, text, it, d) && NestsIn(it.value, 1000)
  {
    hide ParseValue, NestsIn, Spells, Derived, White, ItemText;
    it := ValueFound(conv, text + [0], 0);
    assert text == (text + [0])[..|text|] == (ItemText(it) + [0])[..|ItemText(it)|] == ItemText(it);
  }

  /** An object text whose pairs spell `ms`, repeated keys allowed: the object parsed is the one that holds
      each key once, in the order of first occurrence, with its last value. */
  lemma RepeatedKeys(conv: NumConv, text: bytes, it: Item, ms: seq<Member>, r: seq<Member>)
    requires White(it.before) && Derived(it.value) && White(it.after) && text == ItemText(it)
    requires it.value.Braces? && SpellMembers(conv, it.value.pairs, ms) && NestsIn(it.value, 1000)
    ensures Parse(conv, text) == Ok(DObj(r), [0]) <==> Collapsed(ms, r)
  {
    hide Parse, NestsIn, Collapsed, ItemText, White, PutAll;
    var last := PutAll([], ms);
    PutAllCollapsed(ms);
    assert Spells(conv, it.value, DObj(last));
    SpelledParses(conv, text, it, DObj(last));
    if Collapsed(ms, r) { CollapsedIsPutAll(ms, r); }
  }

  // ----- what the serializer writes is derived -----

  /** The text of a readable document is derived and spells it, at every depth, nesting and white gap. */
  lemma {:induction false} DocSpelled(st: Style, d: Doc, depth: nat) returns (t: Syntax)
    requires JsonRoundTrip.Readable(st.conv, d) && JsonRoundTrip.WhiteGap(st.gap)
    ensures Derived(t) && Spells(st.conv, t, d) && Text(t) == DocText(st, d, depth)
    decreases d, 1
  {
    hide Derived, Spells, Text, JsonRoundTrip.Readable, JsonRoundTrip.WhiteGap;
    match d
    case DNull => t := Syntax.Null; WordSpelled(st, d, depth, t);
    case DBool(b) => t := if b then True else False; WordSpelled(st, d, depth, t);
    case DNum(n) => t := Numeral(st.conv.text(n)); NumberSpelled(st, n, depth);
    case DStr(s) => t := StringSpelled(st, s, depth);
    case DArr(elems) =>
      ReadableParts(st.conv, d);
      ClosingIsWhite(st, |elems|, depth);
      var items := ElemsSpelled(st, elems, depth + 1, Closing(st, |elems|, depth));
      t := Brackets([], items);
      ArraySpelled(st, elems, depth, items);
    case DObj(ms) =>
      ReadableParts(st.conv, d);
      ClosingIsWhite(st, |ms|, depth);
      var pairs := MembersSpelled(st, ms, depth + 1, Closing(st, |ms|, depth));
      t := Braces([], pairs);
      ObjectSpelled(st, ms, depth, pairs);
  }

  lemma WordSpelled(st: Style, d: Doc, depth: nat, t: Syntax)
    requires d.DNull? || d.DBool?
    requires t == if d.DNull? then Syntax.Null else if d.b then True else False
    ensures Derived(t) && Spells(st.conv, t, d) && Text(t) == DocText(st, d, depth)
  {
  }

  lemma NumberSpelled(st: Style, n: Num, depth: nat)
    requires JsonRoundTrip.Readable(st.conv, DNum(n))
    ensures var t := Numeral(st.conv.text(n));
      Derived(t) && Spells(st.conv, t, DNum(n)) && Text(t) == DocText(st, DNum(n), depth)
  {
  }

  lemma QuoteSpelled(s: bytes) returns (chars: seq<Char>)
    requires Canonical(s)
    ensures CharsDerived(chars) && CharsValue(chars) == s && StringText(chars) == Quote(s)
  {
    hide StringBody, CharsText, CharsValue, CharsDerived, QuoteBody;
    var body := QuoteBody(s) + ['"' as int];
    JsonRoundTrip.StringReads(s, []);
    assert ['"' as int] + [] == ['"' as int];
    chars := CharsFound(body);
    assert QuoteBody(s) == body[..|body| - 1] == CharsText(chars);
  }

  lemma StringSpelled(st: Style, s: bytes, depth: nat) returns (t: Syntax)
    requires JsonRoundTrip.Readable(st.conv, DStr(s))
    ensures Derived(t) && Spells(st.conv, t, DStr(s)) && Text(t) == DocText(st, DStr(s), depth)
  {
    hide CharsText, CharsDerived, QuoteBody, Canonical;
    var chars := QuoteSpelled(s);
    t := Quoted(chars);
  }

  lemma ReadableParts(conv: NumConv, d: Doc)
    requires JsonRoundTrip.Readable(conv, d)
    ensures d.DArr? ==> forall e :: e in d.elems ==> JsonRoundTrip.Readable(conv, e)
    ensures d.DObj? ==> JsonRoundTrip.DistinctMembers(d.members)
    ensures d.DObj? ==> forall m :: m in d.members ==> Canonical(m.key) && JsonRoundTrip.Readable(conv, m.doc)
  {
  }

  /** The elements, each with its indentation before it and the last with `end` behind it. */
  lemma {:induction false} ElemsSpelled(st: Style, docs: seq<Doc>, depth: nat, end: bytes) returns (items: seq<Item>)
    requires (forall e :: e in docs ==> JsonRoundTrip.Readable(st.conv, e)) && JsonRoundTrip.WhiteGap(st.gap) && White(end)
    ensures ItemsDerived(items) && ItemsSpell(st.conv, items, docs) && forall it :: it in items ==> Derived(it.value)
    ensures docs != [] ==> ItemsText(items) == ElemsText(st, docs, depth) + end
    decreases docs, 0
  {
    hide Derived, Spells, Text, JsonRoundTrip.Readable, JsonRoundTrip.WhiteGap, White, DocText;
    if docs == [] {
      items := [];
    } else {
      var t := DocSpelled(st, docs[0], depth);
      IndentIsWhite(st.gap, depth);
      if |docs| == 1 {
        items := [Item(Indent(st.gap, depth), t, end)];
      } else {
        var more := ElemsSpelled(st, docs[1..], depth, end);
        NothingIsWhite();
        items := [Item(Indent(st.gap, depth), t, [])] + more;
        MoreItems(items[0], more);
        assert ItemText(items[0]) == ElemText(st, docs[0], depth);
        Cat4(ElemText(st, docs[0], depth), [',' as int], ElemsText(st, docs[1..], depth), end);
        assert items[1..] == more;
        assert ElemsText(st, docs, depth) == ElemText(st, docs[0], depth) + ([',' as int] + ElemsText(st, docs[1..], depth));
      }
    }
  }

  lemma MoreItems(it: Item, more: seq<Item>)
    requires Derived(it.value) && more != [] && forall q :: q in more ==> Derived(q.value)
    ensures (forall q :: q in [it] + more ==> Derived(q.value)) && ItemsText([it] + more) == ItemText(it) + ([',' as int] + ItemsText(more))
  {
    hide Derived, ItemText;
    assert ([it] + more)[1..] == more;
    assert ItemsTail(more) == [',' as int] + ItemText(more[0]) + ItemsTail(more[1..]);
  }

  lemma IndentIsWhite(gap: bytes, depth: nat)
    requires JsonRoundTrip.WhiteGap(gap)
    ensures White(Indent(gap, depth))
  {
    JsonRoundTrip.IndentWhite(gap, depth);
    WhiteIsGap(Indent(gap, depth));
  }

  lemma NothingIsWhite()
    ensures White([])
  {
  }

  lemma ClosingIsWhite(st: Style, count: nat, depth: nat)
    requires JsonRoundTrip.WhiteGap(st.gap)
    ensures White(Closing(st, count, depth))
  {
    IndentIsWhite(st.gap, depth);
  }

  lemma ArraySpelled(st: Style, elems: seq<Doc>, depth: nat, items: seq<Item>)
    requires ItemsDerived(items) && ItemsSpell(st.conv, items, elems) && forall it :: it in items ==> Derived(it.value)
    requires elems != [] ==> ItemsText(items) == ElemsText(st, elems, depth + 1) + Closing(st, |elems|, depth)
    ensures var t, d := Brackets([], items), DArr(elems);
      Derived(t) && Spells(st.conv, t, d) && Text(t) == DocText(st, d, depth)
  {
    hide ItemsText, Text, DocText;
    NothingIsWhite();
    ArrayTexts(st, elems, depth, items);
  }

  lemma ArrayTexts(st: Style, elems: seq<Doc>, depth: nat, items: seq<Item>)
    requires Derived(Brackets([], items)) && |items| == |elems| && forall it :: it in items ==> Derived(it.value)
    requires elems != [] ==> ItemsText(items) == ElemsText(st, elems, depth + 1) + Closing(st, |elems|, depth)
    ensures Text(Brackets([], items)) == DocText(st, DArr(elems), depth)
  {
    hide ItemsText, ElemText, Derived, Indent;
    if elems == [] {
      assert ElemsText(st, elems, depth + 1) + Closing(st, |elems|, depth) == [];
    } else {
      hide ElemsText;
      Cat3(['[' as int], ElemsText(st, elems, depth + 1), Closing(st, |elems|, depth));
    }
  }

  /** The members, each with its indentation before the key, a colon with the space a gap brings, and the last
      with `end` behind it. */
  lemma {:induction false} MembersSpelled(st: Style, ms: seq<Member>, depth: nat, end: bytes) returns (pairs: seq<Pair>)
    requires (forall m :: m in ms ==> Canonical(m.key) && JsonRoundTrip.Readable(st.conv, m.doc))
    requires JsonRoundTrip.WhiteGap(st.gap) && White(end)
    ensures PairsDerived(pairs) && SpellMembers(st.conv, pairs, ms) && forall p :: p in pairs ==> Derived(p.item.value)
    ensures ms != [] ==> PairsText(pairs) == MembersText(st, ms, depth) + end
    decreases ms, 0
  {
    hide Derived, Spells, Text, JsonRoundTrip.Readable, JsonRoundTrip.WhiteGap, White, DocText, Canonical, Quote, CharsDerived, CharsValue;
    if ms == [] {
      pairs := [];
    } else {
      var m := ms[0];
      var t := DocSpelled(st, m.doc, depth);
      var key := QuoteSpelled(m.key);
      IndentIsWhite(st.gap, depth);
      ColonSpace(st.gap);
      var p := Pair(Indent(st.gap, depth), key, [], Item(if st.gap == [] then [] else [' ' as int], t, if |ms| == 1 then end else []));
      PairSpelled(st, m, depth, p);
      var more := [];
      if |ms| > 1 { more := MembersSpelled(st, ms[1..], depth, end); }
      pairs := [p] + more;
      MembersMade(st, ms, depth, end, p, more);
    }
  }

  lemma {:induction false} MembersMade(st: Style, ms: seq<Member>, depth: nat, end: bytes, p: Pair, more: seq<Pair>)
    requires ms != [] && PairDerived(p) && ms[0].key == CharsValue(p.key) && Spells(st.conv, p.item.value, ms[0].doc)
    requires PairText(p) == MemberText(st, ms[0], depth) + (if |ms| == 1 then end else [])
    requires PairsDerived(more) && SpellMembers(st.conv, more, ms[1..]) && forall q :: q in more ==> Derived(q.item.value)
    requires |ms| > 1 ==> PairsText(more) == MembersText(st, ms[1..], depth) + end
    ensures PairsDerived([p] + more) && SpellMembers(st.conv, [p] + more, ms) && forall q :: q in [p] + more ==> Derived(q.item.value)
    ensures PairsText([p] + more) == MembersText(st, ms, depth) + end
  {
    hide Derived, Spells, MemberText, PairText, White, CharsDerived, CharsValue;
    var a := MemberText(st, ms[0], depth);
    assert ([p] + more)[1..] == more && ms == [ms[0]] + ms[1..];
    if |ms| == 1 {
      assert more == [];
      assert PairsText([p] + more) == PairText(p) + [];
    } else {
      MorePairs(p, more);
      assert MembersText(st, ms, depth) == a + ([',' as int] + MembersText(st, ms[1..], depth));
      assert a + [] == a;
      Cat4([], a, [',' as int] + MembersText(st, ms[1..], depth), end);
      Cat3([',' as int], MembersText(st, ms[1..], depth), end);
    }
  }

  lemma ColonSpace(gap: bytes)
    ensures White([]) && White(if gap == [] then [] else [' ' as int])
  {
  }

  lemma PairSpelled(st: Style, m: Member, depth: nat, p: Pair)
    requires Derived(p.item.value) && Text(p.item.value) == DocText(st, m.doc, depth) && StringText(p.key) == Quote(m.key)
    requires p.before == Indent(st.gap, depth) && p.after == [] && p.item.before == if st.gap == [] then [] else [' ' as int]
    ensures PairText(p) == MemberText(st, m, depth) + p.item.after
  {
    hide DocText, Text, Derived, StringText, Quote, Indent;
    var a, b, c, e := p.before, StringText(p.key), Text(p.item.value), p.item.after;
    var colon := [':' as int] + p.item.before;
    assert ColonText(st.gap) == colon;
    assert a + b + [] == a + b;
    assert a + b + [':' as int] + (p.item.before + c + e) == a + b + colon + c + e;
  }

  lemma MorePairs(p: Pair, more: seq<Pair>)
    requires Derived(p.item.value) && more != [] && forall q :: q in more ==> Derived(q.item.value)
    ensures forall q :: q in [p] + more ==> Derived(q.item.value)
    ensures PairsText([p] + more) == PairText(p) + ([',' as int] + PairsText(more))
  {
    hide Derived, PairText;
    assert ([p] + more)[1..] == more;
    assert PairsTail(more) == [',' as int] + PairText(more[0]) + PairsTail(more[1..]);
  }

  lemma ObjectSpelled(st: Style, ms: seq<Member>, depth: nat, pairs: seq<Pair>)
    requires PairsDerived(pairs) && SpellMembers(st.conv, pairs, ms) && forall p :: p in pairs ==> Derived(p.item.value)
    requires JsonRoundTrip.DistinctMembers(ms)
    requires ms != [] ==> PairsText(pairs) == MembersText(st, ms, depth + 1) + Closing(st, |ms|, depth)
    ensures var t, d := Braces([], pairs), DObj(ms);
      Derived(t) && Spells(st.conv, t, d) && Text(t) == DocText(st, d, depth)
  {
    hide PairsText, Text, DocText, Collapsed, Spells, JsonRoundTrip.DistinctMembers;
    NothingIsWhite();
    DistinctCollapse(ms);
    ObjectMeans(st.conv, pairs, ms);
    ObjectTexts(st, ms, depth, pairs);
  }

  lemma ObjectTexts(st: Style, ms: seq<Member>, depth: nat, pairs: seq<Pair>)
    requires Derived(Braces([], pairs)) && |pairs| == |ms| && forall p :: p in pairs ==> Derived(p.item.value)
    requires ms != [] ==> PairsText(pairs) == MembersText(st, ms, depth + 1) + Closing(st, |ms|, depth)
    ensures Text(Braces([], pairs)) == DocText(st, DObj(ms), depth)
  {
    hide PairsText, MemberText, Derived, Indent;
    if ms == [] {
      assert MembersText(st, ms, depth + 1) + Closing(st, |ms|, depth) == [];
    } else {
      hide MembersText;
      Cat3(['{' as int], MembersText(st, ms, depth + 1), Closing(st, |ms|, depth));
    }
  }

  lemma ObjectMeans(conv: NumConv, pairs: seq<Pair>, ms: seq<Member>)
    requires PairsDerived(pairs) && SpellMembers(conv, pairs, ms) && Derived(Braces([], pairs)) && Collapsed(ms, ms)
    ensures Spells(conv, Braces([], pairs), DObj(ms))
  {
  }

  /** Members without repeated keys stay as they are. */
  lemma DistinctCollapse(ms: seq<Member>)
    requires JsonRoundTrip.DistinctMembers(ms)
    ensures Collapsed(ms, ms)
  {
    hide HasKey, IsLast, OccursBefore;
    forall i | 0 <= i < |ms| ensures HasKey(ms, ms[i].key) && IsLast(ms, ms[i]) {
      KeyAt(ms, i);
      LastAt(ms, i);
    }
    forall j, k, i | 0 <= j < k < |ms| && 0 <= i < |ms| && ms[i].key == ms[k].key ensures OccursBefore(ms, ms[j].key, i) {
      assert i == k;
      BeforeAt(ms, j, i);
    }
  }

  /** Whatever JSON.stringify() gives as text is derived, and spells the document its value denotes. */
  lemma StringifySpelled(h: Heap, st: Style, v: Val) returns (it: Item)
    requires JsonRoundTrip.HeapReads(st.conv, h) && JsonRoundTrip.ValReads(st.conv, v) && JsonRoundTrip.WhiteGap(st.gap)
    requires JsonEncoder.Expected(h, st, v).Text?
    ensures Spelled(st.conv, JsonEncoder.Expected(h, st, v).text, it, Walk(h, v, [], 1000).doc)
  {
    hide JsonRoundTrip.HeapReads, JsonRoundTrip.ValReads, DocText, Derived, Spells, Text;
    var d := Walk(h, v, [], JsonEncoder.ENC_RECLIMIT).doc;
    JsonRoundTrip.WalkReads(st.conv, h, v, [], JsonEncoder.ENC_RECLIMIT);
    var t := DocSpelled(st, d, 0);
    it := Item([], t, []);
    assert ItemText(it) == [] + Text(t) + [] == Text(t);
  }
}
