/** Array.prototype.splice(): elements and holes moved in place to make room for new items. */
module ArraySplice {
  import opened Bytes
  import opened SparseArray

  const UINT32_MAX := 0xffff_ffff

  function Clamp(n: int, lo: int, hi: int): int
    requires lo <= hi
  {
    if n < lo then lo else if n > hi then hi else n
  }

  /** Negative positions count from the end. */
  function StartOf(start: int, len: nat): (r: int)
    ensures 0 <= r <= len
  {
    var n: int := len;
    var s := Clamp(start, -n, n);
    if s < 0 then len + s else s
  }

  /** Without a delete count everything from the start on goes, when that extension is on. */
  function DeleteCount(delCount: Option<int>, start: int, len: nat, toEnd: bool): (r: int)
    requires 0 <= start <= len
    ensures 0 <= r <= len - start
  {
    match delCount
    case Some(n) => Clamp(n, 0, len - start)
    case None => if toEnd then len - start else 0
  }

  /** A start past the end is the end, one before the beginning the beginning; -1 is the last element. */
  lemma StartInNumbers(start: int, len: nat)
    ensures start >= len ==> StartOf(start, len) == len
    ensures 0 <= start < len ==> StartOf(start, len) == start
    ensures start < 0 <= len + start ==> StartOf(start, len) == len + start
    ensures len + start < 0 ==> StartOf(start, len) == 0
  {
  }

  /** No element is deleted for a negative count, and never more than there are. */
  lemma DeletedInNumbers(n: int, start: int, len: nat, toEnd: bool)
    requires 0 <= start <= len
    ensures n <= 0 ==> DeleteCount(Some(n), start, len, toEnd) == 0
    ensures 0 <= n <= len - start ==> DeleteCount(Some(n), start, len, toEnd) == n
    ensures n >= len - start ==> DeleteCount(Some(n), start, len, toEnd) == len - start
    ensures DeleteCount(None, start, len, true) == len - start && DeleteCount(None, start, len, false) == 0
  {
  }

  function Items<V>(items: seq<Elem<V>>): (r: seq<Slot<V>>)
    ensures |r| == |items| && forall i :: 0 <= i < |items| ==> r[i] == Present(items[i])
  {
    seq(|items|, i requires 0 <= i < |items| => Present(items[i]))
  }

  /** The array after a splice, as a sequence of elements and holes. */
  function Spliced<V>(s: seq<Slot<V>>, start: int, del: int, items: seq<Elem<V>>): (t: seq<Slot<V>>)
    requires 0 <= start && 0 <= del && start + del <= |s|
    ensures |t| == |s| - del + |items|
  {
    s[..start] + Items(items) + s[start + del..]
  }

  /** Index by index: what ends up where. */
  lemma SplicedAt<V>(s: seq<Slot<V>>, start: int, del: int, items: seq<Elem<V>>, i: int)
    requires 0 <= start && 0 <= del && start + del <= |s| && 0 <= i < |s| - del + |items|
    ensures Spliced(s, start, del, items)[i] ==
      if i < start then s[i] else if i < start + |items| then Present(items[i - start]) else s[i - |items| + del]
  {
  }

  /** Splicing the removed elements back in place of the items restores the array, if none of the removed
      slots was a hole. */
  lemma SpliceBack<V>(s: seq<Slot<V>>, start: int, del: int, items: seq<Elem<V>>, removed: seq<Elem<V>>)
    requires 0 <= start && 0 <= del && start + del <= |s| && Items(removed) == s[start..start + del]
    ensures Spliced(Spliced(s, start, del, items), start, |items|, removed) == s
  {
    var t := Spliced(s, start, del, items);
    assert t[..start] == s[..start] && t[start + |items|..] == s[start + del..];
    assert s == s[..start] + s[start..start + del] + s[start + del..];
  }

  // ----- property tables slot by slot -----

  /** `p` with slot `from` copied to `to`. */
  function Moved<V>(p: map<int, Elem<V>>, from: int, to: int, k: int): Slot<V> {
    if k == to then At(p, from) else At(p, k)
  }

  /** `p` with slots `lo` up to `hi` taken from `off` below. */
  function Shifted<V>(p: map<int, Elem<V>>, lo: int, hi: int, off: int, k: int): Slot<V> {
    if lo <= k < hi then At(p, k - off) else At(p, k)
  }

  /** `p` with slots `lo` up to `hi` emptied. */
  function Cut<V>(p: map<int, Elem<V>>, lo: int, hi: int, k: int): Slot<V> {
    if lo <= k < hi then Hole else At(p, k)
  }

  /** Slots `from` up to `from + n` of `p`, moved to the beginning of an empty table. */
  function Window<V>(p: map<int, Elem<V>>, from: int, n: int, k: int): Slot<V> {
    if 0 <= k < n then At(p, from + k) else Hole
  }

  /** `p` with items from `from` on. */
  function Filled<V>(p: map<int, Elem<V>>, from: int, items: seq<Elem<V>>, k: int): Slot<V> {
    if from <= k < from + |items| then Present(items[k - from]) else At(p, k)
  }

  ghost predicate IsWindow<V>(q: map<int, Elem<V>>, p: map<int, Elem<V>>, from: int, n: int) {
    forall k :: At(q, k) == Window(p, from, n, k)
  }

  ghost predicate IsFilled<V>(q: map<int, Elem<V>>, p: map<int, Elem<V>>, from: int, items: seq<Elem<V>>) {
    forall k :: At(q, k) == Filled(p, from, items, k)
  }

  /** `q` is `p` with room for `itemCount` items where `del` were, and of length `hi`. */
  ghost predicate HasRoom<V>(q: map<int, Elem<V>>, p: map<int, Elem<V>>, start: int, del: int, itemCount: int, hi: int) {
    && (forall k :: k < hi ==> At(q, k) == Shifted(p, start + itemCount, hi, itemCount - del, k))
    && (forall k :: k >= hi ==> At(q, k) == Hole)
  }

  ghost predicate Bounded<V>(p: map<int, Elem<V>>, len: nat) {
    forall k :: k >= len ==> At(p, k) == Hole
  }

  ghost predicate SameBelow<V>(p: map<int, Elem<V>>, q: map<int, Elem<V>>) {
    forall k :: k < 0 ==> At(q, k) == At(p, k)
  }

  class Splicer<V> {
    const obj: Array<V>

    constructor (obj: Array<V>)
      ensures this.obj == obj
    {
      this.obj := obj;
    }

    /** Copy one element or hole. */
    method Move(from: int, to: int)
      modifies obj`props
      ensures forall k :: At(obj.props, k) == Moved(old(obj.props), from, to, k)
    {
      var have, e := obj.GetProp(from);
      if have {
        obj.PutProp(to, e);
      } else {
        obj.DelProp(to);
      }
    }

    /** The removed elements, holes left out, in a fresh array. */
    method Removed(actStart: int, delCount: nat) returns (result: Array<V>)
      ensures fresh(result) && result.length == delCount
      ensures IsWindow(result.props, obj.props, actStart, delCount)
    {
      result := new Array<V>();
      var i := 0;
      while i < delCount
        invariant 0 <= i <= delCount && fresh(result)
        invariant forall k :: At(result.props, k) == Window(obj.props, actStart, i, k)
      {
        var have, e := obj.GetProp(actStart + i);
        if have {
          result.PutProp(i, e);
        }
        i := i + 1;
      }
      result.length := delCount;
    }

    /** Elements move down, lowest first, and the tail is deleted. */
    method CloseGap(len: nat, actStart: int, delCount: int, itemCount: int)
      requires 0 <= actStart && 0 <= itemCount < delCount && actStart + delCount <= len
      modifies obj`props
      ensures var hi := len - delCount + itemCount;
        forall k :: k < hi ==> At(obj.props, k) == Shifted(old(obj.props), actStart + itemCount, hi, itemCount - delCount, k)
      ensures var hi := len - delCount + itemCount;
        forall k :: k >= hi ==> At(obj.props, k) == Cut(old(obj.props), hi, len, k)
    {
      ghost var p0 := obj.props;
      var n := len - delCount;
      var i := actStart;
      while i < n
        invariant actStart <= i <= n
        invariant forall k :: At(obj.props, k) == Shifted(p0, actStart + itemCount, i + itemCount, itemCount - delCount, k)
      {
        Move(i + delCount, i + itemCount);
        i := i + 1;
      }
      DeleteTail(len - delCount + itemCount, len);
    }

    method DeleteTail(n: int, len: nat)
      requires n <= len
      modifies obj`props
      ensures forall k :: At(obj.props, k) == Cut(old(obj.props), n, len, k)
    {
      ghost var p0 := obj.props;
      var i := len - 1;
      while i >= n
        invariant n - 1 <= i <= len - 1
        invariant forall k :: At(obj.props, k) == Cut(p0, i + 1, len, k)
      {
        obj.DelProp(i);
        i := i - 1;
      }
    }

    /** Elements move up, highest first. */
    method OpenGap(len: nat, actStart: int, delCount: int, itemCount: int)
      requires 0 <= actStart && 0 <= delCount < itemCount && actStart + delCount <= len
      modifies obj`props
      ensures var hi := len - delCount + itemCount;
        forall k :: At(obj.props, k) == Shifted(old(obj.props), actStart + itemCount, hi, itemCount - delCount, k)
    {
      ghost var p0 := obj.props;
      var i := len - delCount - 1;
      while i >= actStart
        invariant actStart - 1 <= i <= len - delCount - 1
        invariant forall k :: At(obj.props, k) == Shifted(p0, i + 1 + itemCount, len - delCount + itemCount, itemCount - delCount, k)
      {
        Move(i + delCount, i + itemCount);
        i := i - 1;
      }
    }

    method InsertItems(actStart: int, items: seq<Elem<V>>)
      modifies obj`props
      ensures IsFilled(obj.props, old(obj.props), actStart, items)
    {
      ghost var p0 := obj.props;
      var i := 0;
      while i < |items|
        invariant 0 <= i <= |items|
        invariant forall k :: At(obj.props, k) == Filled(p0, actStart, items[..i], k)
      {
        obj.PutProp(actStart + i, items[i]);
        i := i + 1;
      }
      assert items[..i] == items;
    }

    /** Elements behind the deleted ones move to their new places. */
    method MakeRoom(len: nat, actStart: int, del: int, itemCount: int)
      requires 0 <= actStart && 0 <= del && 0 <= itemCount && actStart + del <= len && Bounded(obj.props, len)
      modifies obj`props
      ensures HasRoom(obj.props, old(obj.props), actStart, del, itemCount, len - del + itemCount)
    {
      hide At;
      if itemCount < del {
        CloseGap(len, actStart, del, itemCount);
      } else if itemCount > del {
        OpenGap(len, actStart, del, itemCount);
      }
    }

    /** Steps 9 to 16: save the deleted elements, make room, fill it, set the length. */
    method SpliceAt(actStart: int, del: int, items: seq<Elem<V>>) returns (removed: Array<V>)
      requires 0 <= actStart && 0 <= del && actStart + del <= obj.length && Bounded(obj.props, obj.length)
      modifies obj
      ensures Slots(obj.props, obj.length) == Spliced(old(Slots(obj.props, obj.length)), actStart, del, items)
      ensures fresh(removed)
      ensures Slots(removed.props, removed.length) == old(Slots(obj.props, obj.length))[actStart..actStart + del]
      ensures Bounded(obj.props, obj.length) && SameBelow(old(obj.props), obj.props)
    {
      hide At, Slots, Spliced, IsWindow, IsFilled, HasRoom, Bounded, SameBelow;
      var len := obj.length;
      ghost var p0 := obj.props;
      removed := Removed(actStart, del);
      MakeRoom(len, actStart, del, |items|);
      ghost var p1 := obj.props;
      InsertItems(actStart, items);
      obj.length := len - del + |items|;
      Assembled(p0, p1, obj.props, len, actStart, del, items);
      WindowSlots(removed.props, p0, len, actStart, del);
    }

    method Arguments(start: int, delCount: Option<int>, len: nat, toEnd: bool) returns (actStart: int, del: int)
      ensures actStart == StartOf(start, len) && del == DeleteCount(delCount, actStart, len, toEnd)
    {
      actStart := Clamp(start, 0 - len, len);
      if actStart < 0 {
        actStart := len + actStart;
      }
      if delCount.Some? {
        del := Clamp(delCount.value, 0, len - actStart);
      } else if toEnd {
        del := len - actStart;
      } else {
        del := Clamp(0, 0, len - actStart);
      }
    }

    /** duk_bi_array_prototype_splice(): prefix, items, suffix; the removed elements are returned.
        As in any array, there is nothing at indices beyond the length, before or after. */
    method Splice(start: int, delCount: Option<int>, items: seq<Elem<V>>, toEnd: bool) returns (result: Option<Array<V>>)
      requires delCount.None? ==> items == []
      requires Bounded(obj.props, obj.length)
      modifies obj
      ensures var n := old(obj.length);
        var del := DeleteCount(delCount, StartOf(start, n), n, toEnd);
        result.None? <==> n >= 0x8000_0000 || n - del + |items| > 0xffff_ffff
      ensures result.None? ==> obj.props == old(obj.props) && obj.length == old(obj.length)
      ensures var act := StartOf(start, old(obj.length));
        var del := DeleteCount(delCount, act, old(obj.length), toEnd);
        var s := old(Slots(obj.props, obj.length));
        result.Some? ==> Slots(obj.props, obj.length) == Spliced(s, act, del, items) &&
                         Slots(result.value.props, result.value.length) == s[act..act + del]
      ensures Bounded(obj.props, obj.length) && SameBelow(old(obj.props), obj.props)
    {
      hide At, Slots, Spliced, Bounded, StartOf, DeleteCount;
      var len := obj.length;
      if len >= 0x8000_0000 {
        return None;
      }
      var actStart, del := Arguments(start, delCount, len, toEnd);
      if len - del + |items| > UINT32_MAX {
        return None;
      }
      var removed := SpliceAt(actStart, del, items);
      result := Some(removed);
    }
  }

  lemma Assembled<V>(p0: map<int, Elem<V>>, p1: map<int, Elem<V>>, p2: map<int, Elem<V>>, len: nat, start: int, del: int, items: seq<Elem<V>>)
    requires 0 <= start && 0 <= del && start + del <= len
    requires HasRoom(p1, p0, start, del, |items|, len - del + |items|) && IsFilled(p2, p1, start, items)
    ensures Slots(p2, len - del + |items|) == Spliced(Slots(p0, len), start, del, items)
    ensures Bounded(p2, len - del + |items|) && SameBelow(p0, p2)
  {
    hide At, Slots;
    var n := len - del + |items|;
    forall k | 0 <= k < n ensures At(p2, k) == Spliced(Slots(p0, len), start, del, items)[k] {
      SplicedAt(Slots(p0, len), start, del, items, k);
    }
  }

  lemma WindowSlots<V>(r: map<int, Elem<V>>, p: map<int, Elem<V>>, len: nat, from: int, n: nat)
    requires 0 <= from && from + n <= len && IsWindow(r, p, from, n)
    ensures Slots(r, n) == Slots(p, len)[from..from + n]
  {
    hide At, Slots;
    forall k | 0 <= k < n ensures Slots(r, n)[k] == Slots(p, len)[from + k] {
      assert Slots(r, n)[k] == At(r, k);
    }
  }
}
