/** TypedArray.prototype.set() from another typed array, on memory that views may share. */
module TypedArraySet {
  import opened Bytes

  // ----- element types -----

  datatype ElemType = Uint8 | Uint8Clamped | Int8 | Uint16 | Int16 | Uint32 | Int32

  function Index(t: ElemType): nat {
    match t
    case Uint8 => 0
    case Uint8Clamped => 1
    case Int8 => 2
    case Uint16 => 3
    case Int16 => 4
    case Uint32 => 5
    case Int32 => 6
  }

  function Size(t: ElemType): (n: nat)
    ensures n == 1 || n == 2 || n == 4
  {
    match t
    case Uint8 | Uint8Clamped | Int8 => 1
    case Uint16 | Int16 => 2
    case Uint32 | Int32 => 4
  }

  predicate Signed(t: ElemType) { t.Int8? || t.Int16? || t.Int32? }

  /** 256 to the power `n`. */
  function Pow256(n: nat): (p: nat)
    ensures p > 0
  {
    if n == 0 then 1 else 256 * Pow256(n - 1)
  }

  /** Little-endian value. */
  function Uint(s: bytes): (v: nat)
    ensures v < Pow256(|s|)
  {
    if s == [] then 0 else s[0] + 256 * Uint(s[1..])
  }

  function UintBytes(v: nat, n: nat): (s: bytes)
    ensures |s| == n
  {
    if n == 0 then [] else [v % 256] + UintBytes(v / 256, n - 1)
  }

  lemma {:induction false} BytesOfUint(s: bytes)
    ensures UintBytes(Uint(s), |s|) == s
  {
    if s != [] {
      BytesOfUint(s[1..]);
      assert Uint(s) % 256 == s[0] && Uint(s) / 256 == Uint(s[1..]);
    }
  }

  /** duk_hbufferobject_push_validated_read(), integer types on a little-endian host. */
  function Read(t: ElemType, s: bytes): int
    requires |s| == Size(t)
  {
    var v := Uint(s);
    if Signed(t) && 2 * v >= Pow256(Size(t)) then v - Pow256(Size(t)) else v
  }

  /** duk_hbufferobject_validated_write(): modulo the element size, or clamped. */
  function Write(t: ElemType, v: int): (s: bytes)
    ensures |s| == Size(t)
  {
    if t.Uint8Clamped? then [if v < 0 then 0 else if v > 255 then 255 else v]
    else UintBytes(v % Pow256(Size(t)), Size(t))
  }

  /** One element converted. */
  function Convert(dst: ElemType, src: ElemType, s: bytes): (r: bytes)
    requires |s| == Size(src)
    ensures |r| == Size(dst)
  {
    Write(dst, Read(src, s))
  }

  // ----- copy compatibility -----

  function Bit(i: nat): bv16
    requires i < 9
  {
    match i
    case 0 => 1
    case 1 => 2
    case 2 => 4
    case 3 => 8
    case 4 => 16
    case 5 => 32
    case 6 => 64
    case 7 => 128
    case 8 => 256
  }

  /** Per target type, the source types a byte copy is right for; the last two are the float types. */
  const COPY_COMPATIBLE: seq<bv16> := [
    Bit(0) | Bit(1) | Bit(2), Bit(0) | Bit(1), Bit(0) | Bit(1) | Bit(2),
    Bit(3) | Bit(4), Bit(3) | Bit(4), Bit(5) | Bit(6), Bit(5) | Bit(6), Bit(7), Bit(8)]

  predicate Compatible(dst: ElemType, src: ElemType) {
    COPY_COMPATIBLE[Index(dst)] & Bit(Index(src)) != 0
  }

  lemma CompatibleMeans(dst: ElemType, src: ElemType)
    ensures Compatible(dst, src) <==> Size(dst) == Size(src) && !(dst.Uint8Clamped? && src.Int8?)
  {
    match dst {
      case Uint8 => case Uint8Clamped => case Int8 => case Uint16 => case Int16 => case Uint32 => case Int32 =>
    }
  }

  lemma ReadModulo(t: ElemType, s: bytes)
    requires |s| == Size(t)
    ensures Read(t, s) % Pow256(Size(t)) == Uint(s)
  {
  }

  lemma Pow256Values()
    ensures Pow256(1) == 0x100 && Pow256(2) == 0x10000 && Pow256(4) == 0x1_0000_0000
  {
    assert Pow256(4) == 256 * (256 * Pow256(2));
  }

  /** The table allows a blind copy between exactly the types for which every element, read and written
      back, keeps its bytes. */
  lemma CompatibleExact(dst: ElemType, src: ElemType)
    ensures Compatible(dst, src) <==>
      Size(dst) == Size(src) && forall s: bytes :: |s| == Size(src) ==> Convert(dst, src, s) == s
  {
    CompatibleMeans(dst, src);
    Pow256Values();
    if Compatible(dst, src) {
      forall s: bytes | |s| == Size(src) ensures Convert(dst, src, s) == s {
        ReadModulo(src, s);
        BytesOfUint(s);
        if dst.Uint8Clamped? { assert Uint(s) == s[0] + 256 * Uint(s[1..]) && s[1..] == []; }
      }
    } else if Size(dst) == Size(src) {
      assert Uint([0xff]) == 0xff + 256 * Uint([]);
      assert Convert(dst, src, [0xff]) == [0];
    }
  }

  // ----- what set() promises -----

  /** All elements of `s`, converted one by one. */
  function Converted(dst: ElemType, src: ElemType, s: bytes): bytes {
    if |s| < Size(src) then []
    else Convert(dst, src, s[..Size(src)]) + Converted(dst, src, s[Size(src)..])
  }

  /** Bytes that `n` bytes of `src` elements take as `dst` elements. */
  function ConvertedSize(dst: ElemType, src: ElemType, n: nat): nat { n / Size(src) * Size(dst) }

  lemma SizeStep(dst: ElemType, src: ElemType, n: nat)
    requires n >= Size(src)
    ensures ConvertedSize(dst, src, n) == Size(dst) + ConvertedSize(dst, src, n - Size(src))
    ensures (n - Size(src)) % Size(src) == n % Size(src)
  {
    var a, q := Size(src), (n - Size(src)) / Size(src);
    OneMore(n, a);
    Multiple(q, Size(dst));
  }

  lemma OneMore(n: nat, a: nat)
    requires n >= a && (a == 1 || a == 2 || a == 4)
    ensures n / a == (n - a) / a + 1 && (n - a) % a == n % a
  {
    match a {
      case 1 =>
      case 2 =>
      case 4 =>
    }
  }

  lemma {:induction false} ConvertedLength(dst: ElemType, src: ElemType, s: bytes)
    ensures |Converted(dst, src, s)| == ConvertedSize(dst, src, |s|)
    decreases |s|
  {
    hide Convert;
    if |s| >= Size(src) {
      ConvertedLength(dst, src, s[Size(src)..]);
      SizeStep(dst, src, |s|);
    } else {
      assert |s| / Size(src) == 0;
    }
  }

  /** Memory after a copy of `n` bytes from `from` to `to`: every element converted from the memory before. */
  function SetResult(mem: bytes, dst: ElemType, to: nat, src: ElemType, from: nat, n: nat): bytes
    requires to + ConvertedSize(dst, src, n) <= |mem| && from + n <= |mem|
  {
    mem[..to] + Converted(dst, src, mem[from..from + n]) + mem[to + ConvertedSize(dst, src, n)..]
  }

  /** For compatible types the elements of a byte copy are the elements themselves. */
  lemma {:induction false} ConvertedSame(dst: ElemType, src: ElemType, s: bytes)
    requires Compatible(dst, src) && |s| % Size(src) == 0
    ensures Converted(dst, src, s) == s
    decreases |s|
  {
    hide Convert, Compatible;
    CompatibleExact(dst, src);
    if |s| >= Size(src) {
      SizeStep(dst, src, |s|);
      ConvertedSame(dst, src, s[Size(src)..]);
      assert s == s[..Size(src)] + s[Size(src)..];
    } else {
      assert |s| == 0;
    }
  }

  /** Nothing outside the target range changes. */
  lemma SetResultElsewhere(mem: bytes, dst: ElemType, to: nat, src: ElemType, from: nat, n: nat, i: nat)
    requires to + ConvertedSize(dst, src, n) <= |mem| && from + n <= |mem| && i < |mem|
    ensures |SetResult(mem, dst, to, src, from, n)| == |mem|
    ensures !(to <= i < to + ConvertedSize(dst, src, n)) ==> SetResult(mem, dst, to, src, from, n)[i] == mem[i]
  {
    hide Converted, ConvertedSize, Size;
    ConvertedLength(dst, src, mem[from..from + n]);
  }

  /** Element `k` of the result is element `k` of the source, converted. */
  lemma ConvertedAt(dst: ElemType, src: ElemType, s: bytes, k: nat)
    requires (k + 1) * Size(src) <= |s|
    ensures k * Size(src) + Size(src) <= |s| && k * Size(dst) + Size(dst) <= |Converted(dst, src, s)|
    ensures Converted(dst, src, s)[k * Size(dst)..][..Size(dst)] == Convert(dst, src, s[k * Size(src)..][..Size(src)])
  {
    hide Converted, Convert;
    Multiple(k, Size(src));
    ElementAt(dst, src, s, k, k * Size(src), k * Size(dst));
  }

  lemma {:induction false} ElementAt(dst: ElemType, src: ElemType, s: bytes, k: nat, i: nat, j: nat)
    requires i == k * Size(src) && j == k * Size(dst) && i + Size(src) <= |s|
    ensures j + Size(dst) <= |Converted(dst, src, s)|
    ensures Converted(dst, src, s)[j..][..Size(dst)] == Convert(dst, src, s[i..][..Size(src)])
    decreases k
  {
    hide Convert, Converted, Read, Write, Size;
    var a, b := Size(src), Size(dst);
    ConvertedFirst(dst, src, s);
    var head, tail := Convert(dst, src, s[..a]), Converted(dst, src, s[a..]);
    if k == 0 {
      DropNothing(s);
      HeadOf(head, tail);
    } else {
      Multiple(k - 1, a);
      Multiple(k - 1, b);
      ElementAt(dst, src, s[a..], k - 1, i - a, j - b);
      DropTwice(s, a, i);
      DropHead(head, tail, j);
    }
  }

  lemma DropNothing(s: bytes)
    ensures s[0..] == s
  {
  }

  lemma HeadOf(head: bytes, tail: bytes)
    ensures (head + tail)[0..][..|head|] == head
  {
  }

  lemma DropTwice(s: bytes, a: nat, i: nat)
    requires a <= i <= |s|
    ensures s[a..][i - a..] == s[i..]
  {
  }

  lemma DropHead(head: bytes, tail: bytes, j: nat)
    requires |head| <= j <= |head| + |tail|
    ensures (head + tail)[j..] == tail[j - |head|..]
  {
  }

  lemma Multiple(k: nat, size: nat)
    ensures (k + 1) * size == k * size + size
  {
  }

  // ----- elements in numbers -----

  /** What the bytes of an element stand for, least significant byte first. */
  function Number(t: ElemType, s: bytes): int
    requires |s| == Size(t)
  {
    match t
    case Uint8 | Uint8Clamped => s[0]
    case Int8 => if s[0] < 128 then s[0] else s[0] as int - 256
    case Uint16 => s[0] as int + 256 * s[1] as int
    case Int16 => if s[1] < 128 then s[0] as int + 256 * s[1] as int else s[0] as int + 256 * s[1] as int - 65536
    case Uint32 => s[0] as int + 256 * s[1] as int + 65536 * s[2] as int + 16777216 * s[3] as int
    case Int32 =>
      var v := s[0] as int + 256 * s[1] as int + 65536 * s[2] as int + 16777216 * s[3] as int;
      if s[3] < 128 then v else v - 4294967296
  }

  /** The bytes a number is stored in: what does not fit is cut off at the top, or the number clamped. */
  function Octets(t: ElemType, v: int): bytes {
    match t
    case Uint8 | Int8 => [v % 256]
    case Uint8Clamped => if v < 0 then [0] else if v > 255 then [255] else [v]
    case Uint16 | Int16 => [v % 256, v / 256 % 256]
    case Uint32 | Int32 => [v % 256, v / 256 % 256, v / 65536 % 256, v / 16777216 % 256]
  }

  lemma UintInNumbers(s: bytes)
    ensures |s| == 1 ==> Uint(s) == s[0]
    ensures |s| == 2 ==> Uint(s) == s[0] as int + 256 * s[1] as int
    ensures |s| == 4 ==> Uint(s) == s[0] as int + 256 * s[1] as int + 65536 * s[2] as int + 16777216 * s[3] as int
  {
    if |s| == 1 { assert Uint(s[1..]) == 0; }
    if |s| == 2 { assert Uint(s[1..]) == s[1] + 256 * Uint(s[2..]); }
    if |s| == 4 {
      assert s[1..][1..] == s[2..] && s[2..][1..] == s[3..] && s[3..][1..] == s[4..];
      assert Uint(s[1..]) == s[1] + 256 * Uint(s[2..]);
      assert Uint(s[2..]) == s[2] + 256 * Uint(s[3..]);
      assert Uint(s[3..]) == s[3] + 256 * Uint(s[4..]);
    }
  }

  lemma BytesInNumbers(v: int)
    ensures UintBytes(v % 256, 1) == [v % 256]
    ensures UintBytes(v % 65536, 2) == [v % 256, v / 256 % 256]
    ensures UintBytes(v % 4294967296, 4) == [v % 256, v / 256 % 256, v / 65536 % 256, v / 16777216 % 256]
  {
    hide UintBytes;
    ByteSteps(v % 256);
    ByteSteps(v % 65536);
    ByteSteps(v % 4294967296);
    Bytes16(v);
    Bytes32(v);
  }

  lemma ByteSteps(w: nat)
    ensures UintBytes(w, 1) == [w % 256] && UintBytes(w, 2) == [w % 256, w / 256 % 256]
    ensures UintBytes(w, 4) == [w % 256, w / 256 % 256, w / 256 / 256 % 256, w / 256 / 256 / 256 % 256]
  {
    ByteStep(w, 1);
    ByteStep(w, 2);
    ByteStep(w, 4);
    ByteStep(w / 256, 1);
    ByteStep(w / 256, 3);
    ByteStep(w / 256 / 256, 2);
    ByteStep(w / 256 / 256 / 256, 1);
    hide UintBytes;
  }

  lemma ByteStep(w: nat, n: nat)
    requires n > 0
    ensures UintBytes(w, n) == [w % 256] + UintBytes(w / 256, n - 1) && UintBytes(w, 0) == []
  {
  }

  lemma Bytes16(v: int)
    ensures v % 65536 % 256 == v % 256 && v % 65536 / 256 % 256 == v / 256 % 256
  {
  }

  lemma Bytes32(v: int)
    ensures var w := v % 4294967296;
      w % 256 == v % 256 && w / 256 % 256 == v / 256 % 256
    ensures var w := v % 4294967296;
      w / 256 / 256 % 256 == v / 65536 % 256 && w / 256 / 256 / 256 % 256 == v / 16777216 % 256
  {
    var q, w := v / 4294967296, v % 4294967296;
    var w1 := w / 256;
    var w2 := w1 / 256;
    var w3 := w2 / 256;
    assert w3 < 256;
    Parts32(v, q, w % 256, w1 % 256, w2 % 256, w3);
  }

  lemma Parts32(v: int, q: int, a: byte, b: byte, c: byte, d: byte)
    requires v == 4294967296 * q + 16777216 * d + 65536 * c + 256 * b + a
    ensures v % 256 == a && v / 256 % 256 == b && v / 65536 % 256 == c && v / 16777216 % 256 == d
  {
    var v3 := 256 * q + d;
    var v2 := 256 * v3 + c;
    var v1 := 256 * v2 + b;
    OneByteUp(v, v1, a);
    OneByteUp(v1, v2, b);
    OneByteUp(v2, v3, c);
    OneByteUp(v3, q, d);
    ThreeUp(v, v1, v2, v3, a, b, c);
  }

  lemma OneByteUp(v: int, q: int, r: byte)
    requires v == 256 * q + r
    ensures v / 256 == q && v % 256 == r
  {
  }

  lemma ThreeUp(v: int, v1: int, v2: int, v3: int, a: byte, b: byte, c: byte)
    requires v == 256 * v1 + a && v1 == 256 * v2 + b && v2 == 256 * v3 + c
    ensures v / 65536 == v2
    ensures v / 16777216 == v3
  {
    assert v == 65536 * v2 + (256 * b + a);
    assert v == 16777216 * v3 + (65536 * c + 256 * b + a);
  }

  lemma ConvertInNumbers(dst: ElemType, src: ElemType, s: bytes)
    requires |s| == Size(src)
    ensures Convert(dst, src, s) == Octets(dst, Number(src, s))
  {
    hide Uint, UintBytes;
    Pow256Values();
    UintInNumbers(s);
    BytesInNumbers(Number(src, s));
  }

  /** After a set every element of the target holds, in its own width, the number the source element held before. */
  lemma ElementInNumbers(mem: bytes, dst: ElemType, to: nat, src: ElemType, from: nat, n: nat, k: nat)
    requires to + ConvertedSize(dst, src, n) <= |mem| && from + n <= |mem| && (k + 1) * Size(src) <= n
    ensures var i, j := from + k * Size(src), to + k * Size(dst);
      var after := SetResult(mem, dst, to, src, from, n);
      i + Size(src) <= |mem| && j + Size(dst) <= |after| &&
      after[j..j + Size(dst)] == Octets(dst, Number(src, mem[i..i + Size(src)]))
  {
    hide Converted, Convert, Octets, Number;
    var s := mem[from..from + n];
    var i, j := k * Size(src), k * Size(dst);
    ConvertedAt(dst, src, s, k);
    ConvertedLength(dst, src, s);
    Inside(mem, from, n, i, Size(src));
    ConvertInNumbers(dst, src, mem[from + i..][..Size(src)]);
    InsideWritten(mem[..to], Converted(dst, src, s), mem[to + ConvertedSize(dst, src, n)..], j, Size(dst));
  }

  lemma Inside(mem: bytes, from: nat, n: nat, i: nat, size: nat)
    requires from + n <= |mem| && i + size <= n
    ensures mem[from..from + n][i..][..size] == mem[from + i..from + i + size] == mem[from + i..][..size]
  {
  }

  lemma InsideWritten(a: bytes, b: bytes, c: bytes, j: nat, size: nat)
    requires j + size <= |b|
    ensures (a + b + c)[|a| + j..|a| + j + size] == b[j..][..size]
  {
  }

  /** For compatible types a set moves the bytes. */
  lemma SameBytes(mem: bytes, dst: ElemType, to: nat, src: ElemType, from: nat, n: nat)
    requires n % Size(src) == 0 && Compatible(dst, src)
    requires to + ConvertedSize(dst, src, n) <= |mem| && from + n <= |mem|
    ensures ConvertedSize(dst, src, n) == n
    ensures SetResult(mem, dst, to, src, from, n) == mem[..to] + mem[from..from + n] + mem[to + n..]
  {
    hide Converted, ConvertedSize, Compatible, Size;
    ConvertedSame(dst, src, mem[from..from + n]);
    ConvertedLength(dst, src, mem[from..from + n]);
  }

  // ----- views and the operation -----

  /** A stretch of memory a view is based on; stretches of different buffers may overlap. */
  datatype Buffer = Buffer(base: nat, size: nat)

  /** A typed array: byte offset and length within its buffer, which may have been taken away. */
  datatype View = View(t: ElemType, offset: nat, length: nat, buf: Option<Buffer>)

  predicate ViewValid(v: View, memSize: nat) {
    && v.length % Size(v.t) == 0 && v.offset + v.length < 0x1_0000_0000
    && (v.buf.Some? ==> v.buf.value.base + v.buf.value.size <= memSize)
  }

  ghost predicate ValidSlice(v: View) { v.buf.Some? && v.offset + v.length <= v.buf.value.size }

  ghost function SliceBase(v: View): nat
    requires v.buf.Some?
  {
    v.buf.value.base + v.offset
  }

  datatype Outcome = Done | TypeError | RangeError

  /** Elements in a view. */
  function Count(v: View): nat { v.length / Size(v.t) }

  /** Byte sizes and offsets as they are meant, without a width. */
  ghost function Expected(v: View, arg: View, offset: int): Outcome {
    if v.buf.None? then Done
    else if offset < 0 then TypeError
    else if offset * Size(v.t) > v.length then RangeError
    else if arg.buf.None? then Done
    else if Count(arg) * Size(v.t) > v.length - offset * Size(v.t) then RangeError
    else Done
  }

  /** In elements: a set succeeds exactly when the source fits behind the offset; neither view is detached. */
  lemma FitsInElements(v: View, arg: View, offset: int)
    requires v.length % Size(v.t) == 0 && v.buf.Some? && arg.buf.Some?
    ensures Expected(v, arg, offset) == TypeError <==> offset < 0
    ensures Expected(v, arg, offset) == Done <==> 0 <= offset && offset + Count(arg) <= Count(v)
  {
    var size, n, m := Size(v.t), Count(v), Count(arg);
    assert v.length == n * size;
    if offset >= 0 {
      Ordered(offset, n, size);
      if offset <= n {
        Ordered(m, n - offset, size);
        assert (n - offset) * size == n * size - offset * size;
      }
    }
  }

  lemma Ordered(a: int, b: int, size: nat)
    requires size == 1 || size == 2 || size == 4
    ensures a * size <= b * size <==> a <= b
  {
    match size {
      case 1 =>
      case 2 => assert a * size == 2 * a && b * size == 2 * b;
      case 4 => assert a * size == 4 * a && b * size == 4 * b;
    }
  }

  /** Are the elements really copied? */
  ghost predicate Copies(v: View, arg: View, offset: int) {
    v.buf.Some? && arg.buf.Some? && offset >= 0 && Expected(v, arg, offset) == Done && ValidSlice(v) && ValidSlice(arg)
  }

  lemma CopyFits(v: View, arg: View, offset: int, memSize: nat)
    requires ViewValid(v, memSize) && ViewValid(arg, memSize) && Copies(v, arg, offset)
    ensures SliceBase(v) + offset * Size(v.t) + ConvertedSize(v.t, arg.t, arg.length) <= memSize
    ensures SliceBase(arg) + arg.length <= memSize && offset * Size(v.t) >= 0
  {
    hide Size;
    Ordered(0, offset, Size(v.t));
    assert ConvertedSize(v.t, arg.t, arg.length) == Count(arg) * Size(v.t);
  }

  /** Memory after the call. */
  ghost function After(mem: bytes, v: View, arg: View, offset: int): bytes
    requires ViewValid(v, |mem|) && ViewValid(arg, |mem|)
  {
    if !Copies(v, arg, offset) then mem
    else
      CopyFits(v, arg, offset, |mem|);
      SetResult(mem, v.t, SliceBase(v) + offset * Size(v.t), arg.t, SliceBase(arg), arg.length)
  }

  lemma CountExact(v: View)
    requires v.length % Size(v.t) == 0
    ensures Count(v) * Size(v.t) == v.length
  {
  }

  /** An unsigned 32-bit product and the check that nothing was lost. */
  lemma ShiftCheck(n: nat, t: ElemType)
    requires n < 0x1_0000_0000
    ensures n * Size(t) % 0x1_0000_0000 / Size(t) == n <==> n * Size(t) < 0x1_0000_0000
  {
    match Size(t) {
      case 1 =>
      case 2 => assert n * 2 < 0x2_0000_0000;
      case 4 => assert n * 4 < 0x4_0000_0000;
    }
  }

  lemma ElementsLeft(src: ElemType, m: nat)
    requires m > 0 && m % Size(src) == 0
    ensures m >= Size(src) && (m - Size(src)) % Size(src) == 0
  {
    match Size(src) {
      case 1 =>
      case 2 =>
      case 4 =>
    }
  }

  lemma ConvertedFirst(dst: ElemType, src: ElemType, s: bytes)
    requires |s| >= Size(src)
    ensures Converted(dst, src, s) == Convert(dst, src, s[..Size(src)]) + Converted(dst, src, s[Size(src)..])
  {
  }

  lemma NothingLeft(dst: ElemType, src: ElemType, s: bytes)
    requires s == []
    ensures Converted(dst, src, s) == []
  {
  }

  /** Memory `m` while a copy to `to` is under way: `k` bytes of the source `s` are converted, up to `pDst`. */
  ghost predicate Progress(m: bytes, a: bytes, dst: ElemType, to: nat, src: ElemType, s: bytes, k: nat, pDst: nat) {
    && k <= |s| && to <= pDst <= |m| == |a| && (|s| - k) % Size(src) == 0
    && pDst + |Converted(dst, src, s[k..])| == to + |Converted(dst, src, s)| <= |a|
    && m[..pDst] + Converted(dst, src, s[k..]) == a[..to] + Converted(dst, src, s)
    && m[pDst..] == a[pDst..]
  }

  lemma ProgressStart(a: bytes, dst: ElemType, to: nat, src: ElemType, s: bytes)
    requires to + ConvertedSize(dst, src, |s|) <= |a| && |s| % Size(src) == 0
    ensures Progress(a, a, dst, to, src, s, 0, to)
  {
    hide Converted, ConvertedSize;
    ConvertedLength(dst, src, s);
    assert s[0..] == s;
  }

  lemma ProgressStep(m: bytes, m2: bytes, a: bytes, dst: ElemType, to: nat, src: ElemType, s: bytes, k: nat, pDst: nat)
    requires Progress(m, a, dst, to, src, s, k, pDst) && k + Size(src) <= |s| && pDst + Size(dst) <= |m| == |m2|
    requires m2[..pDst + Size(dst)] == m[..pDst] + Convert(dst, src, s[k..k + Size(src)])
    requires m2[pDst + Size(dst)..] == m[pDst + Size(dst)..]
    ensures Progress(m2, a, dst, to, src, s, k + Size(src), pDst + Size(dst))
  {
    hide Converted, Convert;
    var left := s[k..];
    ConvertedFirst(dst, src, left);
    ElementsLeft(src, |s| - k);
    assert left[..Size(src)] == s[k..k + Size(src)] && left[Size(src)..] == s[k + Size(src)..];
    CatAgain(m[..pDst], Convert(dst, src, left[..Size(src)]), Converted(dst, src, left[Size(src)..]));
    assert m2[pDst + Size(dst)..] == m[pDst..][Size(dst)..] == a[pDst..][Size(dst)..] == a[pDst + Size(dst)..];
  }

  lemma ProgressRoom(m: bytes, a: bytes, dst: ElemType, to: nat, src: ElemType, s: bytes, k: nat, pDst: nat)
    requires Progress(m, a, dst, to, src, s, k, pDst) && k < |s|
    ensures k + Size(src) <= |s| && pDst + Size(dst) <= to + ConvertedSize(dst, src, |s|) <= |a|
  {
    hide Converted, Convert, ConvertedSize;
    ElementsLeft(src, |s| - k);
    ConvertedFirst(dst, src, s[k..]);
    ConvertedLength(dst, src, s);
  }

  lemma ProgressEnd(m: bytes, a: bytes, dst: ElemType, to: nat, src: ElemType, s: bytes, pDst: nat)
    requires Progress(m, a, dst, to, src, s, |s|, pDst)
    ensures |Converted(dst, src, s)| == ConvertedSize(dst, src, |s|)
    ensures m == a[..to] + Converted(dst, src, s) + a[to + ConvertedSize(dst, src, |s|)..]
  {
    hide Converted, Convert, ConvertedSize;
    NothingLeft(dst, src, s[|s|..]);
    ConvertedLength(dst, src, s);
    assert m == m[..pDst] + m[pDst..];
  }

  lemma CatAgain(a: bytes, b: bytes, c: bytes)
    ensures a + (b + c) == a + b + c
  {
  }

  class Memory {
    const mem: array<byte>

    constructor (mem: array<byte>)
      ensures this.mem == mem
    {
      this.mem := mem;
    }

    method Memmove(to: nat, from: nat, n: nat)
      requires to + n <= mem.Length && from + n <= mem.Length
      modifies mem
      ensures var a := old(mem[..]); mem[..] == a[..to] + a[from..from + n] + a[to + n..]
    {
      forall i | to <= i < to + n {
        mem[i] := mem[from + (i - to)];
      }
    }

    method WriteBytes(to: nat, s: bytes)
      requires to + |s| <= mem.Length
      modifies mem
      ensures var a := old(mem[..]); mem[..] == a[..to] + s + a[to + |s|..]
    {
      var i := 0;
      ghost var a := mem[..];
      while i < |s|
        invariant i <= |s| && mem[..] == a[..to] + s[..i] + a[to + i..]
      {
        mem[to + i] := s[i];
        i := i + 1;
      }
    }

    /** Read one element, write it converted; the source, `n` bytes at `from`, is not written over. */
    method CopyElement(dst: ElemType, pDst: nat, src: ElemType, source: array<byte>, pSrc: nat, ghost from: nat, ghost n: nat)
      requires pDst + Size(dst) <= mem.Length && from <= pSrc <= pSrc + Size(src) <= from + n <= source.Length
      requires source == mem ==> from >= pDst + Size(dst) || from + n <= pDst
      modifies mem
      ensures mem[..pDst + Size(dst)] == old(mem[..pDst]) + Convert(dst, src, old(source[pSrc..pSrc + Size(src)]))
      ensures mem[pDst + Size(dst)..] == old(mem[pDst + Size(dst)..])
      ensures source[from..from + n] == old(source[from..from + n])
    {
      ghost var a := mem[..];
      var v := Read(src, source[pSrc..pSrc + Size(src)]);
      var s := Write(dst, v);
      WriteBytes(pDst, s);
      assert mem[..pDst + Size(dst)] == mem[..][..pDst + Size(dst)];
      assert mem[pDst + Size(dst)..] == mem[..][pDst + Size(dst)..];
      if source == mem {
        Undisturbed(a, s, pDst, from, n);
        assert source[from..from + n] == mem[..][from..from + n] && a[from..from + n] == old(source[from..from + n]);
      }
    }

    lemma SubSlice(t: bytes, from: nat, n: nat, p: nat, k: nat)
      requires from <= p <= p + k <= from + n <= |t|
      ensures t[from..from + n][p - from..p - from + k] == t[p..p + k]
    {
      var u, i := t[from..from + n], p - from;
      var x, y := u[i..i + k], t[p..p + k];
      forall j | 0 <= j < k ensures x[j] == y[j] {
        assert u[i + j] == t[p + j];
      }
      assert x == y;
    }

    lemma Undisturbed(a: bytes, s: bytes, p: nat, from: nat, n: nat)
      requires p + |s| <= |a| && from + n <= |a| && (from >= p + |s| || from + n <= p)
      ensures (a[..p] + s + a[p + |s|..])[from..from + n] == a[from..from + n]
    {
    }

    /** The element loop, reading from `source` at `from`: memory itself, or a copy of the source. */
    method CopyElements(dst: ElemType, to: nat, src: ElemType, source: array<byte>, from: nat, n: nat)
      requires to + ConvertedSize(dst, src, n) <= mem.Length && from + n <= source.Length && n % Size(src) == 0
      requires source == mem ==> from >= to + ConvertedSize(dst, src, n) || from + n <= to
      modifies mem
      ensures var a := old(mem[..]);
        mem[..] == a[..to] + Converted(dst, src, old(source[from..from + n])) + a[to + ConvertedSize(dst, src, n)..]
    {
      hide Convert, Converted, ConvertedSize, Progress;
      ghost var a, s := mem[..], source[from..from + n];
      ProgressStart(a, dst, to, src, s);
      var pSrc, pDst := from, to;
      while pSrc != from + n
        invariant from <= pSrc <= from + n && to <= pDst
        invariant Progress(mem[..], a, dst, to, src, s, pSrc - from, pDst)
        invariant source[from..from + n] == s
        decreases from + n - pSrc
      {
        ghost var m := mem[..];
        ProgressRoom(m, a, dst, to, src, s, pSrc - from, pDst);
        SubSlice(source[..], from, n, pSrc, Size(src));
        assert source[..][from..from + n] == s && source[pSrc..pSrc + Size(src)] == source[..][pSrc..pSrc + Size(src)];
        CopyElement(dst, pDst, src, source, pSrc, from, n);
        assert mem[..][..pDst + Size(dst)] == mem[..pDst + Size(dst)] && mem[..][pDst + Size(dst)..] == mem[pDst + Size(dst)..];
        ProgressStep(m, mem[..], a, dst, to, src, s, pSrc - from, pDst);
        pSrc := pSrc + Size(src);
        pDst := pDst + Size(dst);
      }
      ProgressEnd(mem[..], a, dst, to, src, s, pDst);
    }

    method Snapshot(from: nat, n: nat) returns (copy: array<byte>)
      requires from + n <= mem.Length
      ensures fresh(copy) && copy[..] == mem[from..from + n]
    {
      copy := new byte[n](i requires 0 <= i reads this, mem => if from + i < mem.Length then mem[from + i] else 0);
    }

    /** Byte copy where that is right, otherwise element by element, from a copy if the two overlap. */
    method CopyView(dst: ElemType, pDst: nat, src: ElemType, pSrc: nat, srcLength: nat)
      requires srcLength % Size(src) == 0
      requires pDst + ConvertedSize(dst, src, srcLength) <= mem.Length && pSrc + srcLength <= mem.Length
      modifies mem
      ensures mem[..] == SetResult(old(mem[..]), dst, pDst, src, pSrc, srcLength)
    {
      hide ConvertedSize, Compatible, SetResult, Size;
      var dstLength := ConvertedSize(dst, src, srcLength);
      if Compatible(dst, src) {
        CopyBytes(dst, pDst, src, pSrc, srcLength);
        return;
      }
      if pSrc >= pDst + dstLength || pSrc + srcLength <= pDst {
        CopyApart(dst, pDst, src, pSrc, srcLength);
      } else {
        CopyOverlapping(dst, pDst, src, pSrc, srcLength);
      }
    }

    method CopyBytes(dst: ElemType, pDst: nat, src: ElemType, pSrc: nat, srcLength: nat)
      requires srcLength % Size(src) == 0 && Compatible(dst, src)
      requires pDst + ConvertedSize(dst, src, srcLength) <= mem.Length && pSrc + srcLength <= mem.Length
      modifies mem
      ensures mem[..] == SetResult(old(mem[..]), dst, pDst, src, pSrc, srcLength)
    {
      hide Converted, ConvertedSize, Compatible, Size, SetResult;
      SameBytes(mem[..], dst, pDst, src, pSrc, srcLength);
      Memmove(pDst, pSrc, ConvertedSize(dst, src, srcLength));
    }

    method CopyApart(dst: ElemType, pDst: nat, src: ElemType, pSrc: nat, srcLength: nat)
      requires srcLength % Size(src) == 0
      requires pDst + ConvertedSize(dst, src, srcLength) <= mem.Length && pSrc + srcLength <= mem.Length
      requires pSrc >= pDst + ConvertedSize(dst, src, srcLength) || pSrc + srcLength <= pDst
      modifies mem
      ensures mem[..] == SetResult(old(mem[..]), dst, pDst, src, pSrc, srcLength)
    {
      hide Converted, ConvertedSize, Size;
      assert mem[pSrc..pSrc + srcLength] == mem[..][pSrc..pSrc + srcLength];
      CopyElements(dst, pDst, src, mem, pSrc, srcLength);
    }

    method CopyOverlapping(dst: ElemType, pDst: nat, src: ElemType, pSrc: nat, srcLength: nat)
      requires srcLength % Size(src) == 0
      requires pDst + ConvertedSize(dst, src, srcLength) <= mem.Length && pSrc + srcLength <= mem.Length
      modifies mem
      ensures mem[..] == SetResult(old(mem[..]), dst, pDst, src, pSrc, srcLength)
    {
      hide Converted, ConvertedSize, Size;
      assert mem[pSrc..pSrc + srcLength] == mem[..][pSrc..pSrc + srcLength];
      var copy := Snapshot(pSrc, srcLength);
      assert copy[0..0 + srcLength] == copy[..];
      CopyElements(dst, pDst, src, copy, 0, srcLength);
    }

    /** duk_bi_typedarray_set() for a typed array argument, in unsigned 32-bit arithmetic. */
    method Set(v: View, arg: View, offset: int) returns (r: Outcome)
      requires ViewValid(v, mem.Length) && ViewValid(arg, mem.Length) && -0x8000_0000 <= offset < 0x8000_0000
      modifies mem
      ensures r == Expected(v, arg, offset)
      ensures mem[..] == After(old(mem[..]), v, arg, offset)
    {
      hide SetResult;
      if v.buf.None? {
        return Done;
      }
      if offset < 0 {
        return TypeError;
      }
      ShiftCheck(offset, v.t);
      var offsetBytes := offset * Size(v.t) % 0x1_0000_0000;
      if offsetBytes / Size(v.t) != offset {
        return RangeError;
      }
      if offsetBytes > v.length {
        return RangeError;
      }
      if arg.buf.None? {
        return Done;
      }
      var dstLengthElems := arg.length / Size(arg.t);
      ShiftCheck(dstLengthElems, v.t);
      var dstLength := dstLengthElems * Size(v.t) % 0x1_0000_0000;
      if dstLength / Size(v.t) != dstLengthElems {
        return RangeError;
      }
      if dstLength > v.length - offsetBytes {
        return RangeError;
      }
      if v.offset + (offsetBytes + dstLength) > v.buf.value.size {
        return Done;
      }
      if v.offset + v.length > v.buf.value.size || arg.offset + arg.length > arg.buf.value.size {
        return Done;
      }
      CopyFits(v, arg, offset, mem.Length);
      CopyView(v.t, v.buf.value.base + v.offset + offsetBytes, arg.t, arg.buf.value.base + arg.offset, arg.length);
      r := Done;
    }
  }
}
