/** The value stack of a thread: slot contents, reference counts and resizing. */
module ValueStack {

  /** A tagged value; heap allocated ones are named by number. */
  datatype TVal = Undefined | Primitive(n: int) | Ref(h: nat)

  /** How often `v` refers to `h`. */
  function One(v: TVal, h: nat): nat { if v == Ref(h) then 1 else 0 }

  /** References to `h` among values. */
  function Held(s: seq<TVal>, h: nat): nat { multiset(s)[Ref(h)] }

  lemma HeldCat(s: seq<TVal>, t: seq<TVal>, h: nat)
    ensures Held(s + t, h) == Held(s, h) + Held(t, h)
  {
  }

  lemma HeldUpdate(s: seq<TVal>, i: nat, v: TVal, h: nat)
    requires i < |s|
    ensures Held(s[i := v], h) == Held(s, h) - One(s[i], h) + One(v, h)
  {
  }

  lemma HeldOne(v: TVal, h: nat)
    ensures Held([v], h) == One(v, h)
  {
  }

  lemma HeldUndefined(s: seq<TVal>, h: nat)
    requires forall i :: 0 <= i < |s| ==> s[i] == Undefined
    ensures Held(s, h) == 0
  {
    assert Ref(h) !in s;
  }

  // ----- what the primitives do to the values below the top -----

  function Swapped(s: seq<TVal>, i: nat, j: nat): seq<TVal>
    requires i < |s| && j < |s|
  {
    s[i := s[j]][j := s[i]]
  }

  function Inserted(s: seq<TVal>, p: nat): seq<TVal>
    requires p < |s|
  {
    s[..p] + [s[|s| - 1]] + s[p..|s| - 1]
  }

  function Removed(s: seq<TVal>, p: nat): seq<TVal>
    requires p < |s|
  {
    s[..p] + s[p + 1..]
  }

  function Replaced(s: seq<TVal>, p: nat): seq<TVal>
    requires p < |s|
  {
    s[p := s[|s| - 1]][..|s| - 1]
  }

  lemma HeldSwapped(s: seq<TVal>, i: nat, j: nat, h: nat)
    requires i < |s| && j < |s|
    ensures Held(Swapped(s, i, j), h) == Held(s, h)
  {
    HeldUpdate(s, i, s[j], h);
    HeldUpdate(s[i := s[j]], j, s[i], h);
  }

  lemma HeldInserted(s: seq<TVal>, p: nat, h: nat)
    requires p < |s|
    ensures Held(Inserted(s, p), h) == Held(s, h)
  {
    var last, mid := [s[|s| - 1]], s[p..|s| - 1];
    assert s == s[..p] + mid + last;
    HeldCat(s[..p] + mid, last, h);
    HeldCat(s[..p], mid, h);
    HeldCat(s[..p] + last, mid, h);
    HeldCat(s[..p], last, h);
  }

  lemma HeldRemoved(s: seq<TVal>, p: nat, h: nat)
    requires p < |s|
    ensures Held(Removed(s, p), h) == Held(s, h) - One(s[p], h)
  {
    assert s == s[..p] + [s[p]] + s[p + 1..];
    HeldCat(s[..p] + [s[p]], s[p + 1..], h);
    HeldCat(s[..p], [s[p]], h);
    HeldCat(s[..p], s[p + 1..], h);
    HeldOne(s[p], h);
  }

  lemma HeldReplaced(s: seq<TVal>, p: nat, h: nat)
    requires p < |s|
    ensures Held(Replaced(s, p), h) == Held(s, h) - One(s[p], h)
  {
    var last := s[|s| - 1];
    var t := s[p := last];
    HeldUpdate(s, p, last, h);
    assert t == t[..|s| - 1] + [last];
    HeldCat(t[..|s| - 1], [last], h);
    HeldOne(last, h);
  }

  lemma HeldPopped(s: seq<TVal>, h: nat)
    requires s != []
    ensures Held(s[..|s| - 1], h) == Held(s, h) - One(s[|s| - 1], h)
  {
    assert s == s[..|s| - 1] + [s[|s| - 1]];
    HeldCat(s[..|s| - 1], [s[|s| - 1]], h);
    HeldOne(s[|s| - 1], h);
  }

  lemma HeldPushed(s: seq<TVal>, v: TVal, h: nat)
    ensures Held(s + [v], h) == Held(s, h) + One(v, h)
  {
    HeldCat(s, [v], h);
    HeldOne(v, h);
  }

  /** An insert and the remove that undoes it. */
  lemma RemoveUndoesInsert(s: seq<TVal>, p: nat)
    requires p < |s|
    ensures Removed(Inserted(s, p), p) + [s[|s| - 1]] == s
  {
    assert s == s[..p] + s[p..|s| - 1] + [s[|s| - 1]];
  }

  // ----- sizes -----

  const GROW_STEP := 128
  const SHRINK_THRESHOLD := 256
  const SHRINK_SPARE := 64
  const INTERNAL_EXTRA := 64

  /** The size to allocate for at least `minSize` slots; `oldSize` when nothing is to be done. */
  function TargetSize(minSize: nat, oldSize: nat, shrink: bool, compact: bool): nat {
    if minSize <= oldSize && (!shrink || oldSize - minSize < SHRINK_THRESHOLD) then oldSize
    else if compact then minSize
    else
      var n := if minSize <= oldSize then minSize + SHRINK_SPARE else minSize;
      (n / GROW_STEP + 1) * GROW_STEP
  }

  /** Room for what was asked; shrinking without compacting really gives space back. */
  lemma TargetSizeFits(minSize: nat, oldSize: nat, shrink: bool, compact: bool)
    ensures TargetSize(minSize, oldSize, shrink, compact) >= minSize
    ensures minSize > oldSize ==> TargetSize(minSize, oldSize, shrink, compact) > oldSize
    ensures minSize <= oldSize ==> TargetSize(minSize, oldSize, shrink, compact) <= oldSize
    ensures var n := TargetSize(minSize, oldSize, shrink, compact);
      minSize <= oldSize && n != oldSize && !compact ==> oldSize - n >= SHRINK_THRESHOLD - SHRINK_SPARE - GROW_STEP
  {
  }

  datatype Outcome = Done | Failed | Throws

  /** Negative requests count as zero. */
  function Clamped(n: int): nat { if n < 0 then 0 else n }

  /** What a request that never shrinks comes to: nothing to do, refused by the limit or by the allocator,
      or granted. */
  function Granted(minSize: nat, oldSize: nat, max: nat, throw: bool, allocOk: bool): Outcome {
    if minSize <= oldSize || (TargetSize(minSize, oldSize, false, false) <= max && allocOk) then Done
    else if throw then Throws else Failed
  }

  /** The size after a resize request: unchanged if nothing is done or the limit forbids it, what a
      collection meanwhile left if the allocation fails. */
  function SizeAfter(minSize: nat, oldSize: nat, max: nat, shrink: bool, compact: bool, gcSize: nat, allocOk: bool): nat {
    var size := TargetSize(minSize, oldSize, shrink, compact);
    if size == oldSize || size > max then oldSize else if allocOk then size else gcSize
  }

  /** Slot of an index, which counts from the frame's start or, when negative, from the top; -1 if there is
      no such slot. */
  function SlotOf(index: int, bottom: nat, top: nat): int
    requires bottom <= top
  {
    var n := if index < 0 then top - bottom + index else index;
    if 0 <= n < top - bottom then bottom + n else -1
  }

  class Heap {
    var refcount: multiset<nat>

    constructor ()
      ensures refcount == multiset{}
    {
      refcount := multiset{};
    }

    method Incref(v: TVal)
      modifies this
      ensures forall h :: refcount[h] == old(refcount[h]) + One(v, h)
    {
      if v.Ref? {
        refcount := refcount[v.h := refcount[v.h] + 1];
      }
    }

    /** A count never goes below zero.  What happens when it reaches zero is not modelled. */
    method Decref(v: TVal)
      requires forall h :: refcount[h] >= One(v, h)
      modifies this
      ensures forall h :: refcount[h] == old(refcount[h]) - One(v, h)
    {
      if v.Ref? {
        assert refcount[v.h] >= One(v, v.h);
        refcount := refcount[v.h := refcount[v.h] - 1];
      }
    }
  }

  /** A value stack seen from outside: values below the top, start of the frame, slots allocated and allowed. */
  datatype Stack = Stack(values: seq<TVal>, bottom: nat, size: nat, max: nat)

  class Thread {
    const heap: Heap
    const max: nat
    var valstack: array<TVal>
    var bottom: nat
    var top: nat

    constructor (heap: Heap, size: nat, max: nat)
      ensures Valid() && this.heap == heap && this.max == max && fresh(valstack)
      ensures bottom == top == 0 && valstack.Length == size
    {
      this.heap, this.max := heap, max;
      valstack := new TVal[size](_ => Undefined);
      bottom, top := 0, 0;
      new;
      assert valstack[..0] == [];
    }

    /** The values below the top, all frames included. */
    ghost function Values(): seq<TVal>
      requires top <= valstack.Length
      reads this, valstack
    {
      valstack[..top]
    }

    /** Everything about this stack but its references. */
    ghost function View(): Stack
      requires top <= valstack.Length
      reads this, valstack
    {
      Stack(Values(), bottom, valstack.Length, max)
    }

    ghost predicate Shaped()
      reads this, valstack
    {
      bottom <= top <= valstack.Length && forall i :: top <= i < valstack.Length ==> valstack[i] == Undefined
    }

    /** References to `h` that are not on this stack. */
    ghost function Outside(h: nat): int
      requires top <= valstack.Length
      reads this, valstack, heap
    {
      heap.refcount[h] - Held(Values(), h)
    }

    /** Undefined above the top, and every count covers the references on the stack. */
    ghost predicate Valid()
      reads this, valstack, heap
    {
      Shaped() && forall h :: Outside(h) >= 0
    }

    /** Absolute slot of an API index; -1 for an invalid one. */
    function Slot(index: int): (p: int)
      requires bottom <= top
      reads this
      ensures p == -1 || bottom <= p < top
      ensures p == if 0 <= index < top - bottom then bottom + index else if bottom - top <= index < 0 then top + index else -1
    {
      SlotOf(index, bottom, top)
    }

    /** Everything that is not on this stack stays as it was. */
    twostate predicate SameElsewhere()
      requires old(top <= valstack.Length) && top <= valstack.Length
      reads this, valstack, heap
    {
      forall h :: Outside(h) == old(Outside(h))
    }

    method Swap(index1: int, index2: int) returns (ok: bool)
      requires Valid()
      modifies valstack
      ensures Valid() && SameElsewhere() && (ok <==> Slot(index1) >= 0 && Slot(index2) >= 0)
      ensures Values() == if ok then Swapped(old(Values()), Slot(index1), Slot(index2)) else old(Values())
    {
      hide Held, Swapped;
      var p, q := Slot(index1), Slot(index2);
      if p < 0 || q < 0 {
        return false;
      }
      ghost var s := Values();
      SwapSlots(p, q);
      ghost var t := Values();
      forall h ensures Outside(h) == old(Outside(h)) && old(Outside(h)) >= 0 {
        HeldSwapped(s, p, q, h);
        assert t == Values();
      }
      ok := true;
    }

    method SwapSlots(p: nat, q: nat)
      requires Shaped() && p < top && q < top
      modifies valstack
      ensures Shaped() && Values() == Swapped(old(Values()), p, q)
    {
      var tmp := valstack[p];
      valstack[p] := valstack[q];
      valstack[q] := tmp;
    }

    /** Push a value that is also held elsewhere, or is not counted. */
    method PushSlot(v: TVal)
      requires Valid() && top < valstack.Length
      modifies this`top, valstack, heap
      ensures Valid() && SameElsewhere() && Values() == old(Values()) + [v]
    {
      hide Held;
      ghost var s := Values();
      valstack[top] := v;
      top := top + 1;
      heap.Incref(v);
      ghost var t := Values();
      assert t == s + [v];
      forall h ensures Held(t, h) == Held(s, h) + One(v, h) && old(Outside(h)) >= 0 { HeldPushed(s, v, h); }
    }

    method Dup(fromIndex: int) returns (ok: bool)
      requires Valid()
      modifies this`top, valstack, heap
      ensures Valid() && SameElsewhere() && (ok <==> old(top) < valstack.Length && old(Slot(fromIndex)) >= 0)
      ensures Values() == if ok then old(Values()) + [old(Values()[Slot(fromIndex)])] else old(Values())
    {
      if top >= valstack.Length {
        return false;
      }
      var p := Slot(fromIndex);
      if p < 0 {
        return false;
      }
      PushSlot(valstack[p]);
      ok := true;
    }

    method DupTop() returns (ok: bool)
      requires Valid()
      modifies this`top, valstack, heap
      ensures Valid() && SameElsewhere() && (ok <==> old(top) < valstack.Length && old(top) > bottom)
      ensures Values() == if ok then old(Values()) + [old(Values()[top - 1])] else old(Values())
    {
      if top >= valstack.Length || top - bottom <= 0 {
        return false;
      }
      PushSlot(valstack[top - 1]);
      ok := true;
    }

    method Insert(toIndex: int) returns (ok: bool)
      requires Valid()
      modifies valstack
      ensures Valid() && SameElsewhere() && (ok <==> Slot(toIndex) >= 0)
      ensures Values() == if ok then Inserted(old(Values()), Slot(toIndex)) else old(Values())
    {
      hide Held, Inserted;
      var p := Slot(toIndex);
      if p < 0 {
        return false;
      }
      ghost var s := Values();
      InsertSlot(p);
      ghost var t := Values();
      forall h ensures Outside(h) == old(Outside(h)) && old(Outside(h)) >= 0 {
        HeldInserted(s, p, h);
        assert t == Values();
      }
      ok := true;
    }

    /** Move `n` slots from `src` to `dst`; the ranges may overlap. */
    method Memmove(dst: nat, src: nat, n: nat)
      requires dst + n <= valstack.Length && src + n <= valstack.Length
      modifies valstack
      ensures var a := old(valstack[..]); valstack[..] == a[..dst] + a[src..src + n] + a[dst + n..]
    {
      forall i | dst <= i < dst + n {
        valstack[i] := valstack[src + (i - dst)];
      }
    }

    method InsertSlot(p: nat)
      requires Shaped() && p < top
      modifies valstack
      ensures Shaped() && Values() == Inserted(old(Values()), p)
    {
      var q := top - 1;
      if q - p > 0 {
        var tmp := valstack[q];
        Memmove(p + 1, p, q - p);
        valstack[p] := tmp;
      }
    }

    method Replace(toIndex: int) returns (ok: bool)
      requires Valid()
      modifies this`top, valstack, heap
      ensures Valid() && SameElsewhere() && (ok <==> old(Slot(toIndex)) >= 0)
      ensures Values() == if ok then Replaced(old(Values()), old(Slot(toIndex))) else old(Values())
    {
      hide Held, Replaced;
      if Slot(-1) < 0 {
        return false;
      }
      var p := Slot(toIndex);
      if p < 0 {
        return false;
      }
      ghost var s := Values();
      var tmp := ReplaceSlot(p);
      ghost var t := Values();
      forall h ensures Held(t, h) == Held(s, h) - One(tmp, h) && old(Outside(h)) >= 0 && heap.refcount[h] >= One(tmp, h) {
        HeldReplaced(s, p, h);
        HeldLimits(t, h);
      }
      heap.Decref(tmp);
      assert Values() == t;
      ok := true;
    }

    method ReplaceSlot(p: nat) returns (tmp: TVal)
      requires Shaped() && bottom <= p < top
      modifies this`top, valstack
      ensures Shaped() && Values() == Replaced(old(Values()), p) && tmp == old(Values())[p]
    {
      tmp := valstack[p];
      valstack[p] := valstack[top - 1];
      valstack[top - 1] := Undefined;
      top := top - 1;
    }

    lemma HeldOccurs(s: seq<TVal>, i: nat, h: nat)
      requires i < |s|
      ensures Held(s, h) >= One(s[i], h)
    {
    }

    lemma HeldLimits(s: seq<TVal>, h: nat)
      ensures Held(s, h) >= 0
    {
    }

    method Copy(fromIndex: int, toIndex: int) returns (ok: bool)
      requires Valid()
      modifies valstack, heap
      ensures Valid() && SameElsewhere() && (ok <==> Slot(fromIndex) >= 0 && Slot(toIndex) >= 0)
      ensures Values() ==
        if ok then old(Values())[Slot(toIndex) := old(Values())[Slot(fromIndex)]] else old(Values())
    {
      hide Held;
      var p, q := Slot(fromIndex), Slot(toIndex);
      if p < 0 || q < 0 {
        return false;
      }
      ghost var s := Values();
      CopySlot(p, q);
      assert Values() == s[q := s[p]];
      ok := true;
    }

    /** Overwrite a slot: the new value is counted before the old one is released. */
    method CopySlot(p: nat, q: nat)
      requires Valid() && p < top && q < top
      modifies valstack, heap
      ensures Valid() && SameElsewhere() && Values() == old(Values())[q := old(Values())[p]]
    {
      hide Held;
      ghost var s := Values();
      var tmp, v := valstack[q], valstack[p];
      valstack[q] := v;
      ghost var t := Values();
      assert t == s[q := v];
      heap.Incref(v);
      forall h ensures Held(t, h) == Held(s, h) - One(tmp, h) + One(v, h) && old(Outside(h)) >= 0 && heap.refcount[h] >= One(tmp, h) {
        HeldUpdate(s, q, v, h);
        HeldOccurs(s, q, h);
      }
      heap.Decref(tmp);
      assert Values() == t;
    }

    method Remove(index: int) returns (ok: bool)
      requires Valid()
      modifies this`top, valstack, heap
      ensures Valid() && SameElsewhere() && (ok <==> old(Slot(index)) >= 0)
      ensures Values() == if ok then Removed(old(Values()), old(Slot(index))) else old(Values())
    {
      hide Held, Removed;
      var p := Slot(index);
      if p < 0 {
        return false;
      }
      ghost var s := Values();
      var tmp := RemoveSlot(p);
      ghost var t := Values();
      forall h ensures Held(t, h) == Held(s, h) - One(tmp, h) && old(Outside(h)) >= 0 && heap.refcount[h] >= One(tmp, h) {
        HeldRemoved(s, p, h);
        HeldLimits(t, h);
      }
      heap.Decref(tmp);
      assert Values() == t;
      ok := true;
    }

    method RemoveSlot(p: nat) returns (tmp: TVal)
      requires Shaped() && bottom <= p < top
      modifies this`top, valstack
      ensures Shaped() && Values() == Removed(old(Values()), p) && tmp == old(Values())[p]
    {
      hide Removed;
      ghost var a, s := valstack[..], Values();
      tmp := valstack[p];
      var q := top - 1;
      Memmove(p, p + 1, q - p);
      assert valstack[..q] == valstack[..][..q] == Removed(s, p) by { RemovedBlock(a, p, top); }
      valstack[q] := Undefined;
      top := top - 1;
    }

    lemma RemovedBlock(a: seq<TVal>, p: nat, n: nat)
      requires p < n <= |a|
      ensures (a[..p] + a[p + 1..n] + a[n - 1..])[..n - 1] == Removed(a[..n], p)
    {
      assert a[..n][p + 1..] == a[p + 1..n];
    }

    /** Drop values from the top, one at a time. */
    method Drop(count: nat)
      requires Valid() && count <= top - bottom
      modifies this`top, valstack, heap
      ensures Valid() && SameElsewhere() && Values() == old(Values())[..old(top) - count]
    {
      hide Held;
      ghost var s := Values();
      var n := count;
      while n > 0
        invariant 0 <= n <= count && top == old(top) - (count - n) && Valid() && SameElsewhere()
        invariant Values() == s[..top]
      {
        n := n - 1;
        DropOne();
      }
    }

    method DropOne()
      requires Valid() && top > bottom
      modifies this`top, valstack, heap
      ensures Valid() && SameElsewhere() && top == old(top) - 1 && Values() == old(Values())[..top]
    {
      hide Held;
      ghost var s := Values();
      top := top - 1;
      var tmp := valstack[top];
      valstack[top] := Undefined;
      assert Values() == s[..|s| - 1];
      ghost var t := Values();
      forall h ensures Held(t, h) == Held(s, h) - One(tmp, h) && old(Outside(h)) >= 0 && heap.refcount[h] >= One(tmp, h) {
        HeldPopped(s, h);
        HeldLimits(t, h);
      }
      heap.Decref(tmp);
      assert Values() == t;
    }

    method PopN(count: int) returns (ok: bool)
      requires Valid()
      modifies this`top, valstack, heap
      ensures Valid() && SameElsewhere() && (ok <==> 0 <= count <= old(top) - bottom)
      ensures Values() == if ok then old(Values())[..old(top) - count] else old(Values())
    {
      if count < 0 || top - bottom < count {
        return false;
      }
      Drop(count);
      ok := true;
    }

    /** A negative index counts from the top; a larger one must fit what is allocated. */
    method SetTop(index: int) returns (ok: bool)
      requires Valid()
      modifies this`top, valstack, heap
      ensures var n := if index < 0 then old(top) - bottom + index else index;
        Valid() && SameElsewhere() && (ok <==> 0 <= n <= valstack.Length - bottom)
      ensures ok ==> top == bottom + if index < 0 then old(top) - bottom + index else index
      ensures var s := old(Values());
        Values() == if top <= old(top) then s[..top] else s + seq(top - old(top), _ => Undefined)
      ensures !ok ==> top == old(top)
    {
      hide Held;
      var vsSize, vsLimit := top - bottom, valstack.Length - bottom;
      var uindex := if index < 0 then vsSize + index else index;
      if uindex < 0 || uindex > vsLimit {
        return false;
      }
      if uindex >= vsSize {
        RaiseTop(bottom + uindex);
      } else {
        Drop(vsSize - uindex);
      }
      ok := true;
    }

    method RaiseTop(n: nat)
      requires Valid() && top <= n <= valstack.Length
      modifies this`top
      ensures Valid() && SameElsewhere() && top == n && Values() == old(Values()) + seq(n - old(top), _ => Undefined)
    {
      hide Held;
      ghost var s := Values();
      ghost var more := seq(n - top, _ => Undefined);
      top := n;
      assert Values() == s + more;
      forall h ensures Held(s + more, h) == Held(s, h) && old(Outside(h)) >= 0 {
        HeldCat(s, more, h);
        HeldUndefined(more, h);
      }
    }

    /** Push a value. */
    method Push(v: TVal) returns (ok: bool)
      requires Valid()
      modifies this`top, valstack, heap
      ensures Valid() && SameElsewhere() && (ok <==> old(top) < valstack.Length)
      ensures Values() == if ok then old(Values()) + [v] else old(Values())
    {
      if top >= valstack.Length {
        return false;
      }
      PushSlot(v);
      ok := true;
    }

    // ----- two stacks -----

    /** References to `h` that are neither on this stack nor on `other`. */
    ghost function OutsideBoth(other: Thread, h: nat): int
      requires top <= valstack.Length && other.top <= other.valstack.Length
      reads this, valstack, heap, other, other.valstack
    {
      heap.refcount[h] - Held(Values(), h) - Held(other.Values(), h)
    }

    ghost predicate ValidBoth(other: Thread)
      reads this, valstack, heap, other, other.valstack
    {
      && other != this && other.valstack != valstack && other.heap == heap && Shaped() && other.Shaped()
      && forall h :: OutsideBoth(other, h) >= 0
    }

    /** Copy or move `count` values from the top of `from` to the top of this stack. */
    method XcopyMove(from: Thread, count: int, isCopy: bool) returns (ok: bool)
      requires ValidBoth(from)
      modifies this`top, valstack, heap, from`top, from.valstack
      ensures ValidBoth(from) && forall h :: OutsideBoth(from, h) == old(OutsideBoth(from, h))
      ensures ok <==> 0 <= count <= max && (count == 0 || (count <= valstack.Length - old(top) && count <= old(from.top) - from.bottom))
      ensures var moved := if ok then old(from.Values())[old(from.top) - count..] else [];
        Values() == old(Values()) + moved
      ensures from.Values() == if ok && !isCopy then old(from.Values())[..old(from.top) - count] else old(from.Values())
    {
      hide Held;
      if count < 0 || count > max {
        return false;
      }
      if count == 0 {
        return true;
      }
      if valstack.Length - top < count {
        return false;
      }
      if from.top - count < from.bottom {
        return false;
      }
      ghost var s, u := Values(), from.Values();
      ghost var moved := u[from.top - count..];
      var p0 := top;
      CopySlots(from, count);
      ghost var t := Values();
      forall h ensures Held(t, h) == Held(s, h) + Held(moved, h) && old(OutsideBoth(from, h)) >= 0 { HeldCat(s, moved, h); }
      if isCopy {
        IncrefFrom(p0);
        assert Values() == t && from.Values() == u;
      } else {
        from.ClearTop(count);
        ghost var kept := u[..from.top];
        assert from.Values() == kept && u == kept + moved;
        forall h ensures Held(u, h) == Held(kept, h) + Held(moved, h) { HeldCat(kept, moved, h); }
      }
      ok := true;
    }

    /** duk_xcopymove_raw(): a stack is not its own partner. */
    method XcopyMoveRaw(from: Thread, count: int, isCopy: bool) returns (ok: bool)
      requires if from == this then Valid() else ValidBoth(from)
      modifies this`top, valstack, heap, from`top, from.valstack
      ensures from == this ==> !ok && Valid() && SameElsewhere() && Values() == old(Values())
      ensures from != this ==> ValidBoth(from) && forall h :: OutsideBoth(from, h) == old(OutsideBoth(from, h))
      ensures var fits := count <= valstack.Length - old(top) && count <= old(from.top) - from.bottom;
        ok <==> from != this && 0 <= count <= max && (count == 0 || fits)
      ensures ok ==> Values() == old(Values()) + old(from.Values())[old(from.top) - count..]
      ensures !ok ==> Values() == old(Values())
      ensures from.Values() == if ok && !isCopy then old(from.Values())[..old(from.top) - count] else old(from.Values())
    {
      hide Held;
      if from == this {
        return false;
      }
      ok := XcopyMove(from, count, isCopy);
    }

    method CopySlots(from: Thread, count: nat)
      requires Shaped() && from.Shaped() && from.valstack != valstack && from != this
      requires count <= valstack.Length - top && count <= from.top
      modifies this`top, valstack
      ensures Shaped() && Values() == old(Values()) + from.Values()[from.top - count..]
    {
      ghost var s := Values();
      forall i | 0 <= i < count {
        valstack[top + i] := from.valstack[from.top - count + i];
      }
      top := top + count;
      assert valstack[..top - count] == s;
      assert valstack[top - count..top] == from.Values()[from.top - count..];
    }

    method IncrefFrom(p0: nat)
      requires p0 <= top <= valstack.Length
      modifies heap
      ensures forall h :: heap.refcount[h] == old(heap.refcount[h]) + Held(Values()[p0..], h)
    {
      hide Held;
      ghost var s := Values();
      forall h ensures Held([], h) == 0 { HeldUndefined([], h); }
      var p := p0;
      assert s[p0..p] == [];
      while p < top
        invariant p0 <= p <= top && Values() == s
        invariant forall h :: heap.refcount[h] == old(heap.refcount[h]) + Held(s[p0..p], h)
      {
        ghost var v := valstack[p];
        forall h ensures Held(s[p0..p + 1], h) == Held(s[p0..p], h) + One(v, h) {
          HeldPushed(s[p0..p], v, h);
          assert s[p0..p + 1] == s[p0..p] + [v];
        }
        heap.Incref(valstack[p]);
        p := p + 1;
      }
      assert s[p0..p] == s[p0..];
    }

    method ClearTop(count: nat)
      requires Shaped() && count <= top - bottom
      modifies this`top, valstack
      ensures Shaped() && top == old(top) - count && Values() == old(Values())[..top]
    {
      ghost var s := Values();
      var p := top;
      top := top - count;
      while p > top
        invariant top == |s| - count <= p <= |s| && valstack[..p] == s[..p]
        invariant forall i :: p <= i < valstack.Length ==> valstack[i] == Undefined
      {
        p := p - 1;
        valstack[p] := Undefined;
      }
    }

    // ----- resizing -----

    /** A garbage collection that runs inside a reallocation may have resized this very stack. */
    method CollectGarbage(gcSize: nat)
      requires Valid() && gcSize >= top
      modifies this`valstack
      ensures Valid() && SameElsewhere() && Values() == old(Values())
      ensures fresh(valstack) && valstack.Length == gcSize
    {
      hide Held;
      ghost var s := Values();
      var block := new TVal[gcSize](i requires 0 <= i reads this, valstack => if i < top <= valstack.Length then valstack[i] else Undefined);
      valstack := block;
      assert Values() == s;
      forall h ensures Outside(h) == old(Outside(h)) && old(Outside(h)) >= 0 {
      }
    }

    /** duk__resize_valstack(): slots beyond those copied over hold `junk` until they are initialized.
        `gcSize` is the size the stack had when its contents were copied. */
    method ResizeValstack(newSize: nat, gcSize: nat, allocOk: bool, junk: TVal) returns (ok: bool)
      requires Valid() && top <= newSize && top <= gcSize
      modifies this`valstack
      ensures Valid() && SameElsewhere() && Values() == old(Values()) && ok == allocOk
      ensures fresh(valstack) && valstack.Length == if ok then newSize else gcSize
    {
      hide Held;
      CollectGarbage(gcSize);
      if !allocOk {
        return false;
      }
      ghost var s := Values();
      var oldEnd := valstack.Length;
      var block := new TVal[newSize](i requires 0 <= i reads this, valstack => if i < valstack.Length then valstack[i] else junk);
      valstack := block;
      var p := oldEnd;
      while p < valstack.Length
        invariant oldEnd <= p && valstack == block && (forall i :: oldEnd <= i < p && i < newSize ==> valstack[i] == Undefined)
        invariant forall i :: 0 <= i < oldEnd && i < newSize ==> valstack[i] == if i < top then s[i] else Undefined
      {
        valstack[p] := Undefined;
        p := p + 1;
      }
      assert Values() == s;
      forall h ensures Outside(h) == old(Outside(h)) && old(Outside(h)) >= 0 {
      }
      ok := true;
    }

    /** duk_valstack_resize_raw().  A size that is granted is there, unless a collection gave space back
        and the reallocation then failed. */
    method Resize(minNewSize: nat, shrink: bool, compact: bool, throw: bool, gcSize: nat, allocOk: bool, junk: TVal)
      returns (r: Outcome)
      requires Valid() && top <= gcSize && (shrink ==> top <= minNewSize)
      modifies this`valstack
      ensures Valid() && SameElsewhere() && Values() == old(Values()) && (valstack == old(valstack) || fresh(valstack))
      ensures var size := TargetSize(minNewSize, old(valstack.Length), shrink, compact);
        r == if size == old(valstack.Length) || (size <= max && (allocOk || minNewSize <= old(valstack.Length))) then Done
             else if throw then Throws else Failed
      ensures r == Done && (allocOk || gcSize >= minNewSize) ==> valstack.Length >= minNewSize
      ensures valstack.Length == SizeAfter(minNewSize, old(valstack.Length), max, shrink, compact, gcSize, allocOk)
    {
      hide Held;
      var oldSize := valstack.Length;
      TargetSizeFits(minNewSize, oldSize, shrink, compact);
      var isShrink := false;
      if minNewSize <= oldSize {
        isShrink := true;
        if !shrink || oldSize - minNewSize < SHRINK_THRESHOLD {
          return Done;
        }
      }
      var newSize := minNewSize;
      if !compact {
        if isShrink {
          newSize := newSize + SHRINK_SPARE;
        }
        newSize := (newSize / GROW_STEP + 1) * GROW_STEP;
      }
      if newSize > max {
        return if throw then Throws else Failed;
      }
      var ok := ResizeValstack(newSize, gcSize, allocOk, junk);
      if !ok {
        if isShrink {
          return Done;
        }
        return if throw then Throws else Failed;
      }
      r := Done;
    }

    /** duk_check_stack() and duk_require_stack(): room for `extra` more values and the engine's own. */
    method CheckStack(extra: int, throw: bool, gcSize: nat, allocOk: bool, junk: TVal) returns (r: Outcome)
      requires Valid() && top <= gcSize
      modifies this`valstack
      ensures Valid() && SameElsewhere() && Values() == old(Values()) && (valstack == old(valstack) || fresh(valstack))
      ensures r == Done ==> valstack.Length - top >= extra + INTERNAL_EXTRA && valstack.Length - top >= INTERNAL_EXTRA
      ensures r == Granted(top + Clamped(extra) + INTERNAL_EXTRA, old(valstack.Length), max, throw, allocOk)
      ensures valstack.Length ==
        SizeAfter(top + Clamped(extra) + INTERNAL_EXTRA, old(valstack.Length), max, false, false, gcSize, allocOk)
    {
      var n := if extra < 0 then 0 else extra;
      var minNewSize := top + n + INTERNAL_EXTRA;
      TargetSizeFits(minNewSize, valstack.Length, false, false);
      r := Resize(minNewSize, false, false, throw, gcSize, allocOk, junk);
    }

    /** duk_check_stack_top() and duk_require_stack_top(): the size is counted from the start of the stack,
        not from the frame. */
    method CheckStackTop(n: int, throw: bool, gcSize: nat, allocOk: bool, junk: TVal) returns (r: Outcome)
      requires Valid() && top <= gcSize
      modifies this`valstack
      ensures Valid() && SameElsewhere() && Values() == old(Values()) && (valstack == old(valstack) || fresh(valstack))
      ensures r == Done ==> valstack.Length >= n + INTERNAL_EXTRA && valstack.Length >= INTERNAL_EXTRA
      ensures r == Granted(Clamped(n) + INTERNAL_EXTRA, old(valstack.Length), max, throw, allocOk)
      ensures valstack.Length ==
        SizeAfter(Clamped(n) + INTERNAL_EXTRA, old(valstack.Length), max, false, false, gcSize, allocOk)
      ensures r == Done ==> valstack.Length == TargetSize(Clamped(n) + INTERNAL_EXTRA, old(valstack.Length), false, false)
    {
      var wanted := if n < 0 then 0 else n;
      TargetSizeFits(wanted + INTERNAL_EXTRA, valstack.Length, false, false);
      r := Resize(wanted + INTERNAL_EXTRA, false, false, throw, gcSize, allocOk, junk);
    }
  }

  /** A granted stack top check leaves room for `n` values in the frame, whatever the size before, exactly
      when the frame starts within the engine's own reserve. */
  lemma CheckStackTopExact(bottom: nat, n: nat)
    requires n > 0
    ensures (forall size: nat :: size >= bottom ==> FrameRoom(size, bottom, n) >= n) <==> bottom <= INTERNAL_EXTRA
  {
    forall size: nat | size >= bottom && bottom <= INTERNAL_EXTRA ensures FrameRoom(size, bottom, n) >= n {
      TargetSizeFits(n + INTERNAL_EXTRA, size, false, false);
    }
    if bottom > INTERNAL_EXTRA {
      var size := if n + INTERNAL_EXTRA >= bottom then n + INTERNAL_EXTRA else bottom;
      assert FrameRoom(size, bottom, n) == size - bottom < n;
    }
  }

  /** Slots from the frame's start on after a successful check for a top of `n`. */
  function FrameRoom(size: nat, bottom: nat, n: nat): int {
    TargetSize(n + INTERNAL_EXTRA, size, false, false) - bottom
  }
}
