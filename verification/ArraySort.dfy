/** Array.prototype.sort(): in-place quicksort over elements, undefined values and holes. */
module ArraySort {
  import opened Bytes
  import opened SparseArray

  // ----- what a permutation of a range is -----

  /** `t` rearranges `s` within indices `lo` up to and including `hi`. */
  ghost predicate Rearranged<T>(s: seq<T>, t: seq<T>, lo: int, hi: int)
    requires 0 <= lo <= hi + 1 <= |s|
  {
    && |t| == |s| && t[..lo] == s[..lo] && t[hi + 1..] == s[hi + 1..]
    && multiset(t[lo..hi + 1]) == multiset(s[lo..hi + 1])
  }

  lemma RearrangedSelf<T>(s: seq<T>, lo: int, hi: int)
    requires 0 <= lo <= hi + 1 <= |s|
    ensures Rearranged(s, s, lo, hi)
  {
  }

  lemma RearrangedTrans<T>(s: seq<T>, t: seq<T>, u: seq<T>, lo: int, hi: int)
    requires 0 <= lo <= hi + 1 <= |s| && Rearranged(s, t, lo, hi) && Rearranged(t, u, lo, hi)
    ensures Rearranged(s, u, lo, hi)
  {
  }

  /** A rearrangement of part of a range rearranges the range. */
  lemma RearrangedWithin<T>(s: seq<T>, t: seq<T>, l: int, r: int, lo: int, hi: int)
    requires 0 <= lo <= l <= r + 1 <= hi + 1 <= |s| && Rearranged(s, t, l, r)
    ensures Rearranged(s, t, lo, hi)
  {
    Split3(s, lo, l, r + 1, hi + 1);
    Split3(t, lo, l, r + 1, hi + 1);
    assert t[lo..l] == t[..l][lo..] == s[..l][lo..] == s[lo..l];
    assert t[r + 1..hi + 1] == t[r + 1..][..hi - r] == s[r + 1..][..hi - r] == s[r + 1..hi + 1];
    assert t[..lo] == t[..l][..lo] == s[..l][..lo] == s[..lo];
    assert t[hi + 1..] == t[r + 1..][hi - r..] == s[r + 1..][hi - r..] == s[hi + 1..];
  }

  lemma Split3<T>(s: seq<T>, a: int, b: int, c: int, d: int)
    requires 0 <= a <= b <= c <= d <= |s|
    ensures multiset(s[a..d]) == multiset(s[a..b]) + multiset(s[b..c]) + multiset(s[c..d])
  {
    assert s[a..d] == s[a..b] + s[b..c] + s[c..d];
  }

  function Swapped<T>(s: seq<T>, l: int, r: int): seq<T>
    requires 0 <= l < |s| && 0 <= r < |s|
  {
    s[l := s[r]][r := s[l]]
  }

  lemma SwapRearranges<T>(s: seq<T>, l: int, r: int, lo: int, hi: int)
    requires 0 <= lo <= hi < |s| && lo <= l <= hi && lo <= r <= hi
    ensures Rearranged(s, Swapped(s, l, r), lo, hi)
  {
    var u, v := s[lo..hi + 1], Swapped(s, l, r)[lo..hi + 1];
    assert v == u[l - lo := u[r - lo]][r - lo := u[l - lo]];
  }

  /** What holds of every slot of a range still does after a rearrangement of it. */
  lemma RearrangedKeeps<T>(s: seq<T>, t: seq<T>, lo: int, hi: int, i: int) returns (j: int)
    requires 0 <= lo <= hi + 1 <= |s| && Rearranged(s, t, lo, hi) && lo <= i <= hi
    ensures lo <= j <= hi && s[j] == t[i]
  {
    var u, v := s[lo..hi + 1], t[lo..hi + 1];
    assert v[i - lo] in multiset(v);
    assert v[i - lo] in multiset(u);
    var k :| 0 <= k < |u| && u[k] == v[i - lo];
    j := lo + k;
  }

  // ----- order -----

  ghost predicate TotalPreorder<V(!new)>(le: (V, V) -> bool) {
    && (forall x, y :: le(x, y) || le(y, x))
    && (forall x, y, z :: le(x, y) && le(y, z) ==> le(x, z))
  }

  /** Values by `le`, then undefined, then holes. */
  predicate SlotLe<V>(le: (V, V) -> bool, p: Slot<V>, q: Slot<V>) {
    match p
    case Hole => q.Hole?
    case Present(Undefined) => q.Hole? || q.e.Undefined?
    case Present(Value(x)) => q.Present? && q.e.Value? ==> le(x, q.e.v)
  }

  lemma SlotLeTotal<V(!new)>(le: (V, V) -> bool, p: Slot<V>, q: Slot<V>)
    requires TotalPreorder(le)
    ensures SlotLe(le, p, q) || SlotLe(le, q, p)
  {
  }

  lemma SlotLeTrans<V(!new)>(le: (V, V) -> bool, p: Slot<V>, q: Slot<V>, r: Slot<V>)
    requires TotalPreorder(le) && SlotLe(le, p, q) && SlotLe(le, q, r)
    ensures SlotLe(le, p, r)
  {
  }

  ghost predicate AllLe<V>(le: (V, V) -> bool, s: seq<Slot<V>>, lo: int, hi: int, p: Slot<V>)
    requires 0 <= lo && hi < |s|
  {
    forall i :: lo <= i <= hi ==> SlotLe(le, s[i], p)
  }

  ghost predicate AllGe<V>(le: (V, V) -> bool, s: seq<Slot<V>>, lo: int, hi: int, p: Slot<V>)
    requires 0 <= lo && hi < |s|
  {
    forall i :: lo <= i <= hi ==> SlotLe(le, p, s[i])
  }

  ghost predicate Sorted<V>(le: (V, V) -> bool, s: seq<Slot<V>>, lo: int, hi: int)
    requires 0 <= lo && hi < |s|
  {
    forall i, j :: lo <= i < j <= hi ==> SlotLe(le, s[i], s[j])
  }

  // ----- the default order: strings byte by byte -----

  /** Unsigned comparison of the common prefix, then of the lengths. */
  function DataCompare(a: bytes, b: bytes): int {
    if a == [] && b == [] then 0
    else if a == [] then -1
    else if b == [] then 1
    else if a[0] < b[0] then -1
    else if a[0] > b[0] then 1
    else DataCompare(a[1..], b[1..])
  }

  lemma {:induction false} DataCompareAntisymmetric(a: bytes, b: bytes)
    ensures DataCompare(b, a) == -DataCompare(a, b)
  {
    if a != [] && b != [] { DataCompareAntisymmetric(a[1..], b[1..]); }
  }

  lemma {:induction false} DataCompareTransitive(a: bytes, b: bytes, c: bytes)
    requires DataCompare(a, b) <= 0 && DataCompare(b, c) <= 0
    ensures DataCompare(a, c) <= 0
  {
    if a != [] && b != [] && c != [] && a[0] == b[0] == c[0] { DataCompareTransitive(a[1..], b[1..], c[1..]); }
  }

  /** `a` and `b` agree before index `k`, where `a` ends first or has the smaller byte. */
  ghost predicate LessAt(a: bytes, b: bytes, k: int) {
    0 <= k <= |a| && k < |b| && a[..k] == b[..k] && (k == |a| || a[k] < b[k])
  }

  /** The order is the lexicographic one, a prefix coming before what it is a prefix of. */
  lemma {:induction false} DataCompareLexicographic(a: bytes, b: bytes)
    ensures DataCompare(a, b) < 0 <==> exists k :: LessAt(a, b, k)
    ensures DataCompare(a, b) > 0 <==> exists k :: LessAt(b, a, k)
    ensures DataCompare(a, b) == 0 <==> a == b
  {
    DataCompareAntisymmetric(a, b);
    LessFound(a, b);
    LessFound(b, a);
    forall k | LessAt(a, b, k) ensures DataCompare(a, b) < 0 { LessSigned(a, b, k); }
    forall k | LessAt(b, a, k) ensures DataCompare(b, a) < 0 { LessSigned(b, a, k); }
  }

  lemma {:induction false} LessSigned(a: bytes, b: bytes, k: int)
    requires LessAt(a, b, k)
    ensures DataCompare(a, b) < 0
    decreases k
  {
    if k > 0 {
      assert a[0] == a[..k][0] == b[..k][0] == b[0];
      assert a[1..][..k - 1] == a[..k][1..] == b[1..][..k - 1];
      LessSigned(a[1..], b[1..], k - 1);
    }
  }

  lemma {:induction false} LessFound(a: bytes, b: bytes)
    ensures DataCompare(a, b) < 0 ==> exists k :: LessAt(a, b, k)
    ensures DataCompare(a, b) == 0 <==> a == b
  {
    if a == [] || b == [] || a[0] != b[0] {
      if DataCompare(a, b) < 0 { assert LessAt(a, b, 0); }
    } else {
      LessFound(a[1..], b[1..]);
      assert a == [a[0]] + a[1..] && b == [b[0]] + b[1..];
      if DataCompare(a, b) < 0 {
        var k :| LessAt(a[1..], b[1..], k);
        assert a[..k + 1] == [a[0]] + a[1..][..k] && b[..k + 1] == [b[0]] + b[1..][..k];
        assert LessAt(a, b, k + 1);
      }
    }
  }

  // ----- the algorithm -----

  /** The sort of one object.  The comparison function may answer differently from call to call; its
      first argument numbers the call. */
  class Sorter<V(!new)> {
    const obj: Array<V>
    const fn: Option<(nat, V, V) -> int>
    const toStr: V -> bytes
    var calls: nat

    constructor (obj: Array<V>, fn: Option<(nat, V, V) -> int>, toStr: V -> bytes)
      ensures this.obj == obj && this.fn == fn && this.toStr == toStr
    {
      this.obj, this.fn, this.toStr := obj, fn, toStr;
      calls := 0;
    }

    /** Every answer of the comparison follows the order `le`. */
    ghost predicate Consistent(le: (V, V) -> bool) {
      && TotalPreorder(le)
      && match fn
         case None => forall x, y :: le(x, y) <==> DataCompare(toStr(x), toStr(y)) <= 0
         case Some(f) => forall k, x, y :: (f(k, x, y) < 0 <==> !le(y, x)) && (f(k, x, y) > 0 <==> !le(x, y))
    }

    /** Without a comparison function there is always an order that the answers follow. */
    lemma DefaultConsistent(le: (V, V) -> bool)
      requires fn.None? && forall x, y :: le(x, y) <==> DataCompare(toStr(x), toStr(y)) <= 0
      ensures Consistent(le)
    {
      hide DataCompare;
      forall x, y ensures le(x, y) || le(y, x) {
        DataCompareAntisymmetric(toStr(x), toStr(y));
      }
      forall x, y, z | le(x, y) && le(y, z) ensures le(x, z) {
        DataCompareTransitive(toStr(x), toStr(y), toStr(z));
      }
    }

    ghost predicate Signs(le: (V, V) -> bool, ret: int, p: Slot<V>, q: Slot<V>) {
      (ret < 0 <==> !SlotLe(le, q, p)) && (ret > 0 <==> !SlotLe(le, p, q))
    }

    method CompareValues(x: V, y: V, ghost le: (V, V) -> bool) returns (ret: int)
      modifies this`calls
      ensures Consistent(le) ==> (ret < 0 <==> !le(y, x)) && (ret > 0 <==> !le(x, y))
    {
      if fn.Some? {
        var d := fn.value(calls, x, y);
        calls := calls + 1;
        ret := if d < 0 then -1 else if d > 0 then 1 else 0;
        return;
      }
      DataCompareAntisymmetric(toStr(x), toStr(y));
      ret := DataCompare(toStr(x), toStr(y));
    }

    /** duk__array_sort_compare(). */
    method SortCompare(idx1: int, idx2: int, ghost le: (V, V) -> bool) returns (ret: int)
      modifies this`calls
      ensures Consistent(le) ==> Signs(le, ret, At(obj.props, idx1), At(obj.props, idx2))
    {
      if idx1 == idx2 {
        SameSlot(le, At(obj.props, idx1));
        return 0;
      }
      var have1, e1 := obj.GetProp(idx1);
      var have2, e2 := obj.GetProp(idx2);
      if have1 {
        if !have2 {
          return -1;
        }
      } else {
        if have2 {
          return 1;
        }
        return 0;
      }
      if e1.Undefined? {
        return if e2.Undefined? then 0 else 1;
      }
      if e2.Undefined? {
        return -1;
      }
      ret := CompareValues(e1.v, e2.v, le);
    }

    lemma SameSlot(le: (V, V) -> bool, p: Slot<V>)
      ensures Consistent(le) ==> Signs(le, 0, p, p)
    {
      if Consistent(le) { SlotLeTotal(le, p, p); }
    }

    /** duk__array_sort_swap(): holes move by deletion. */
    method SortSwap(l: int, r: int, ghost n: nat)
      requires 0 <= l < n && 0 <= r < n
      modifies obj`props
      ensures Slots(obj.props, n) == Swapped(old(Slots(obj.props, n)), l, r)
      ensures forall i :: !(0 <= i < n) ==> At(obj.props, i) == old(At(obj.props, i))
    {
      if l == r {
        return;
      }
      var haveL, el := obj.GetProp(l);
      var haveR, er := obj.GetProp(r);
      if haveR {
        obj.PutProp(l, er);
      } else {
        obj.DelProp(l);
      }
      if haveL {
        obj.PutProp(r, el);
      } else {
        obj.DelProp(r);
      }
    }

    method ScanLeft(l0: int, p: int, hi: int, ghost n: nat, ghost le: (V, V) -> bool) returns (l: int)
      requires 0 <= p < l0 <= hi < n
      modifies this`calls
      ensures l0 <= l <= hi
      ensures Consistent(le) ==> AllLe(le, Slots(obj.props, n), l0, l - 1, At(obj.props, p))
      ensures Consistent(le) && l < hi ==> SlotLe(le, At(obj.props, p), At(obj.props, l))
    {
      l := l0;
      while true
        invariant l0 <= l <= hi
        invariant Consistent(le) ==> AllLe(le, Slots(obj.props, n), l0, l - 1, At(obj.props, p))
        decreases hi - l
      {
        if l >= hi {
          break;
        }
        var c := SortCompare(l, p, le);
        if c >= 0 {
          break;
        }
        if Consistent(le) { SlotLeTotal(le, At(obj.props, l), At(obj.props, p)); }
        l := l + 1;
      }
    }

    method ScanRight(r0: int, p: int, lo: int, ghost hi: int, ghost n: nat, ghost le: (V, V) -> bool) returns (r: int)
      requires 0 <= lo <= r0 <= hi < n && p == lo
      modifies this`calls
      ensures lo <= r <= r0
      ensures Consistent(le) ==> AllGe(le, Slots(obj.props, n), r + 1, r0, At(obj.props, p))
      ensures Consistent(le) ==> SlotLe(le, At(obj.props, r), At(obj.props, p))
    {
      r := r0;
      while true
        invariant lo <= r <= r0
        invariant Consistent(le) ==> AllGe(le, Slots(obj.props, n), r + 1, r0, At(obj.props, p))
        decreases r - lo
      {
        if r <= lo {
          if Consistent(le) { SlotLeTotal(le, At(obj.props, r), At(obj.props, p)); }
          break;
        }
        var c := SortCompare(p, r, le);
        if c >= 0 {
          break;
        }
        if Consistent(le) { SlotLeTotal(le, At(obj.props, p), At(obj.props, r)); }
        r := r - 1;
      }
    }

    /** The state of a partition: pivot at `lo`, small elements before `l`, large ones after `r`. */
    ghost predicate Split(le: (V, V) -> bool, s: seq<Slot<V>>, lo: int, l: int, r: int, hi: int) {
      && 0 <= lo < l <= hi < |s| && lo <= r <= hi
      && (Consistent(le) ==> AllLe(le, s, lo + 1, l - 1, s[lo]) && AllGe(le, s, r + 1, hi, s[lo]))
    }

    lemma SplitScanned(le: (V, V) -> bool, s: seq<Slot<V>>, lo: int, l0: int, l: int, r0: int, r: int, hi: int)
      requires Split(le, s, lo, l0, r0, hi) && l0 <= l <= hi && lo <= r <= r0
      requires Consistent(le) ==> AllLe(le, s, l0, l - 1, s[lo]) && AllGe(le, s, r + 1, r0, s[lo])
      ensures Split(le, s, lo, l, r, hi)
    {
      hide SlotLe, Consistent;
    }

    lemma SplitSwapped(le: (V, V) -> bool, s: seq<Slot<V>>, lo: int, l: int, r: int, hi: int)
      requires Split(le, s, lo, l, r, hi) && l < r
      requires Consistent(le) ==> SlotLe(le, s[lo], s[l]) && SlotLe(le, s[r], s[lo])
      ensures Split(le, Swapped(s, l, r), lo, l + 1, r - 1, hi)
    {
      hide SlotLe, Consistent;
    }

    lemma SplitDone(le: (V, V) -> bool, s: seq<Slot<V>>, lo: int, l: int, r: int, hi: int)
      requires Split(le, s, lo, l, r, hi) && l >= r
      requires Consistent(le) ==> SlotLe(le, s[r], s[lo])
      ensures var t := Swapped(s, lo, r);
        Consistent(le) ==> AllLe(le, t, lo, r - 1, t[r]) && AllGe(le, t, r + 1, hi, t[r])
    {
      hide SlotLe, Consistent;
    }

    /** Swap two slots of a range under rearrangement. */
    method SwapWithin(l: int, r: int, ghost s0: seq<Slot<V>>, ghost lo: int, ghost hi: int, ghost n: nat)
      requires 0 <= lo <= l <= hi < n == |s0| && lo <= r <= hi && Rearranged(s0, Slots(obj.props, n), lo, hi)
      modifies obj`props
      ensures Slots(obj.props, n) == Swapped(old(Slots(obj.props, n)), l, r)
      ensures Rearranged(s0, Slots(obj.props, n), lo, hi)
      ensures forall i :: !(0 <= i < n) ==> At(obj.props, i) == old(At(obj.props, i))
    {
      hide Rearranged, Swapped, Slots;
      ghost var s := Slots(obj.props, n);
      SwapRearranges(s, l, r, lo, hi);
      SortSwap(l, r, n);
      RearrangedTrans(s0, s, Slots(obj.props, n), lo, hi);
    }

    /** Move a pivot, chosen anywhere in the range, to its final place and return that place. */
    method Partition(lo: int, hi: int, ghost n: nat, ghost le: (V, V) -> bool) returns (r: int)
      requires 0 <= lo < hi < n
      modifies this`calls, obj`props
      ensures lo <= r <= hi
      ensures Rearranged(old(Slots(obj.props, n)), Slots(obj.props, n), lo, hi)
      ensures forall i :: !(0 <= i < n) ==> At(obj.props, i) == old(At(obj.props, i))
      ensures Consistent(le) ==> AllLe(le, Slots(obj.props, n), lo, r - 1, Slots(obj.props, n)[r])
      ensures Consistent(le) ==> AllGe(le, Slots(obj.props, n), r + 1, hi, Slots(obj.props, n)[r])
    {
      hide Rearranged, SlotLe, Consistent, Split, AllLe, AllGe, Swapped, Slots;
      ghost var s0 := Slots(obj.props, n);
      var p :| lo <= p <= hi;
      RearrangedSelf(s0, lo, hi);
      SwapWithin(p, lo, s0, lo, hi, n);
      p := lo;
      var l := lo + 1;
      r := hi;
      SplitStart(le, Slots(obj.props, n), lo, hi);
      while true
        invariant lo < l <= hi && lo <= r <= hi && Split(le, Slots(obj.props, n), lo, l, r, hi)
        invariant Rearranged(s0, Slots(obj.props, n), lo, hi)
        invariant forall i :: !(0 <= i < n) ==> At(obj.props, i) == old(At(obj.props, i))
        decreases r - l
      {
        ghost var s := Slots(obj.props, n);
        ghost var l0, r0 := l, r;
        l := ScanLeft(l, p, hi, n, le);
        r := ScanRight(r, p, lo, hi, n, le);
        SplitScanned(le, s, lo, l0, l, r0, r, hi);
        if l >= r {
          break;
        }
        SplitSwapped(le, s, lo, l, r, hi);
        SwapWithin(l, r, s0, lo, hi, n);
        l := l + 1;
        r := r - 1;
      }
      ghost var s := Slots(obj.props, n);
      SplitDone(le, s, lo, l, r, hi);
      SwapWithin(lo, r, s0, lo, hi, n);
    }

    lemma SplitStart(le: (V, V) -> bool, s: seq<Slot<V>>, lo: int, hi: int)
      requires 0 <= lo < hi < |s|
      ensures Split(le, s, lo, lo + 1, hi, hi)
    {
      hide Consistent;
    }

    /** Two sorted parts around a pivot. */
    lemma SortedAround(le: (V, V) -> bool, s: seq<Slot<V>>, lo: int, r: int, hi: int)
      requires TotalPreorder(le) && 0 <= lo <= r <= hi < |s|
      requires Sorted(le, s, lo, r - 1) && Sorted(le, s, r + 1, hi)
      requires AllLe(le, s, lo, r - 1, s[r]) && AllGe(le, s, r + 1, hi, s[r])
      ensures Sorted(le, s, lo, hi)
    {
      hide SlotLe;
      forall i, j | lo <= i < j <= hi ensures SlotLe(le, s[i], s[j]) {
        if i < r < j { SlotLeTrans(le, s[i], s[r], s[j]); }
      }
    }

    /** Sorting one side keeps it on its side of the pivot. */
    lemma SidesKept(le: (V, V) -> bool, s: seq<Slot<V>>, t: seq<Slot<V>>, lo: int, hi: int, p: Slot<V>)
      requires 0 <= lo <= hi + 1 <= |s| && Rearranged(s, t, lo, hi)
      ensures AllLe(le, s, lo, hi, p) ==> AllLe(le, t, lo, hi, p)
      ensures AllGe(le, s, lo, hi, p) ==> AllGe(le, t, lo, hi, p)
    {
      hide SlotLe;
      forall i | lo <= i <= hi ensures exists j :: lo <= j <= hi && s[j] == t[i] {
        var j := RearrangedKeeps(s, t, lo, hi, i);
      }
    }

    lemma Elsewhere<T>(s: seq<T>, t: seq<T>, lo: int, hi: int)
      requires 0 <= lo <= hi + 1 <= |s| && Rearranged(s, t, lo, hi)
      ensures |t| == |s| && forall i :: 0 <= i < |s| && !(lo <= i <= hi) ==> t[i] == s[i]
    {
      forall i | 0 <= i < |s| && !(lo <= i <= hi) ensures t[i] == s[i] {
        if i < lo {
          assert t[i] == t[..lo][i] == s[..lo][i];
        } else {
          assert t[i] == t[hi + 1..][i - hi - 1] == s[hi + 1..][i - hi - 1];
        }
      }
    }

    /** duk__array_qsort().  Whatever the comparison answers, the range ends up a rearrangement of itself;
        if the answers follow an order, it is sorted. */
    method Qsort(lo: int, hi: int, ghost n: nat, ghost le: (V, V) -> bool)
      requires 0 <= lo <= hi + 1 <= n
      modifies this`calls, obj`props
      ensures Rearranged(old(Slots(obj.props, n)), Slots(obj.props, n), lo, hi)
      ensures forall i :: !(0 <= i < n) ==> At(obj.props, i) == old(At(obj.props, i))
      ensures Consistent(le) ==> Sorted(le, Slots(obj.props, n), lo, hi)
      decreases hi - lo + 1
    {
      hide Rearranged, SlotLe, Slots;
      if hi - lo < 1 {
        RearrangedSelf(Slots(obj.props, n), lo, hi);
        return;
      }
      ghost var s0 := Slots(obj.props, n);
      var r := Partition(lo, hi, n, le);
      ghost var s1 := Slots(obj.props, n);
      Qsort(lo, r - 1, n, le);
      ghost var s2 := Slots(obj.props, n);
      Qsort(r + 1, hi, n, le);
      ghost var s3 := Slots(obj.props, n);
      SortedSteps(le, s0, s1, s2, s3, lo, r, hi);
    }

    lemma SortedSteps(le: (V, V) -> bool, s0: seq<Slot<V>>, s1: seq<Slot<V>>, s2: seq<Slot<V>>, s3: seq<Slot<V>>, lo: int, r: int, hi: int)
      requires 0 <= lo <= r <= hi < |s0| && |s0| == |s1| == |s2| == |s3|
      requires Rearranged(s0, s1, lo, hi) && Rearranged(s1, s2, lo, r - 1) && Rearranged(s2, s3, r + 1, hi)
      requires Consistent(le) ==> AllLe(le, s1, lo, r - 1, s1[r]) && AllGe(le, s1, r + 1, hi, s1[r])
      requires Consistent(le) ==> Sorted(le, s2, lo, r - 1) && Sorted(le, s3, r + 1, hi)
      ensures Rearranged(s0, s3, lo, hi)
      ensures Consistent(le) ==> Sorted(le, s3, lo, hi)
    {
      hide Rearranged, SlotLe;
      RearrangedWithin(s1, s2, lo, r - 1, lo, hi);
      RearrangedWithin(s2, s3, r + 1, hi, lo, hi);
      RearrangedTrans(s0, s1, s2, lo, hi);
      RearrangedTrans(s0, s2, s3, lo, hi);
      Elsewhere(s1, s2, lo, r - 1);
      Elsewhere(s2, s3, r + 1, hi);
      if Consistent(le) {
        SidesKept(le, s1, s2, lo, r - 1, s1[r]);
        SidesKept(le, s2, s3, r + 1, hi, s1[r]);
        SortedAround(le, s3, lo, r, hi);
      }
    }

    /** duk_bi_array_prototype_sort(); lengths of 2^31 and more are refused. */
    method Sort(ghost le: (V, V) -> bool) returns (ok: bool)
      modifies this`calls, obj`props
      ensures ok <==> obj.length < 0x8000_0000
      ensures !ok ==> obj.props == old(obj.props)
      ensures ok ==> multiset(Slots(obj.props, obj.length)) == multiset(old(Slots(obj.props, obj.length)))
      ensures forall i :: !(0 <= i < obj.length) ==> At(obj.props, i) == old(At(obj.props, i))
      ensures ok && Consistent(le) ==> Sorted(le, Slots(obj.props, obj.length), 0, obj.length - 1)
    {
      hide SlotLe, Consistent;
      var len := obj.length;
      if len >= 0x8000_0000 {
        return false;
      }
      ghost var s := Slots(obj.props, len);
      if len > 0 {
        Qsort(0, len - 1, len, le);
        assert Slots(obj.props, len)[0..len] == Slots(obj.props, len) && s[0..len] == s;
      }
      ok := true;
    }
  }

  /** In a sorted array all values come first, then all undefined elements, then all holes. */
  lemma SortedLayout<V(!new)>(le: (V, V) -> bool, s: seq<Slot<V>>, i: int, j: int)
    requires Sorted(le, s, 0, |s| - 1) && 0 <= i < j < |s|
    ensures s[i].Hole? ==> s[j].Hole?
    ensures s[i] == Present(Undefined) ==> s[j].Hole? || s[j] == Present(Undefined)
    ensures s[i].Present? && s[i].e.Value? && s[j].Present? && s[j].e.Value? ==> le(s[i].e.v, s[j].e.v)
  {
    assert SlotLe(le, s[i], s[j]);
  }
}
