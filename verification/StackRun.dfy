/** Runs over the value stacks of all threads of a heap: what every sequence of operations, values moving
    between stacks included, does to the stacks and keeps of the reference counts. */
module StackRun {
  import opened ValueStack

  // ----- requests and what they do to stacks -----

  /** What may be asked of one stack.  `gcSpare` is what a collection meanwhile leaves above the top,
      `spare` what a resize asks for above it. */
  datatype Op =
    | Push(v: TVal) | Swap(i: int, j: int) | Dup(i: int) | DupTop | Insert(i: int) | Replace(i: int)
    | Copy(i: int, j: int) | Remove(i: int) | PopN(n: int) | SetTop(i: int)
    | CheckStack(extra: int, gcSpare: nat, allocOk: bool, junk: TVal)
    | CheckStackTop(n: int, gcSpare: nat, allocOk: bool, junk: TVal)
    | Resize(spare: nat, shrink: bool, compact: bool, gcSpare: nat, allocOk: bool, junk: TVal)

  /** A request to the stacks of a heap, threads by number of creation. */
  datatype Request =
    | NewThread(size: nat, max: nat) | On(thr: nat, op: Op) | Xcopy(to: nat, from: nat, count: int, isCopy: bool)

  predicate StackValid(s: Stack) { s.bottom <= |s.values| <= s.size }

  function Resized(s: Stack, minSize: nat, shrink: bool, compact: bool, gcSpare: nat, allocOk: bool): Stack {
    s.(size := SizeAfter(minSize, s.size, s.max, shrink, compact, |s.values| + gcSpare, allocOk))
  }

  /** The slot an index names in a frame, -1 for none. */
  function SlotIn(s: Stack, index: int): (p: int)
    requires StackValid(s)
    ensures p == -1 || s.bottom <= p < |s.values|
  {
    SlotOf(index, s.bottom, |s.values|)
  }

  /** Values after an operation that reallocates nothing; a request that cannot be met changes nothing. */
  function ValuesAfter(s: Stack, op: Op): seq<TVal>
    requires StackValid(s)
  {
    var vs := s.values;
    match op
    case Push(v) => if |vs| < s.size then vs + [v] else vs
    case Swap(i, j) => if SlotIn(s, i) >= 0 && SlotIn(s, j) >= 0 then Swapped(vs, SlotIn(s, i), SlotIn(s, j)) else vs
    case Dup(i) => if |vs| < s.size && SlotIn(s, i) >= 0 then vs + [vs[SlotIn(s, i)]] else vs
    case DupTop => if s.bottom < |vs| < s.size then vs + [vs[|vs| - 1]] else vs
    case Insert(i) => if SlotIn(s, i) >= 0 then Inserted(vs, SlotIn(s, i)) else vs
    case Replace(i) => if SlotIn(s, i) >= 0 then Replaced(vs, SlotIn(s, i)) else vs
    case Copy(i, j) => if SlotIn(s, i) >= 0 && SlotIn(s, j) >= 0 then vs[SlotIn(s, j) := vs[SlotIn(s, i)]] else vs
    case Remove(i) => if SlotIn(s, i) >= 0 then Removed(vs, SlotIn(s, i)) else vs
    case PopN(n) => if 0 <= n <= |vs| - s.bottom then vs[..|vs| - n] else vs
    case SetTop(i) =>
      var n := if i < 0 then |vs| + i else s.bottom + i;
      if !(s.bottom <= n <= s.size) then vs
      else if n <= |vs| then vs[..n] else vs + seq(n - |vs|, _ => Undefined)
    case _ => vs
  }

  /** A stack after one operation. */
  function Applied(s: Stack, op: Op): Stack
    requires StackValid(s)
  {
    match op
    case CheckStack(extra, spare, allocOk, _) =>
      Resized(s, |s.values| + Clamped(extra) + INTERNAL_EXTRA, false, false, spare, allocOk)
    case CheckStackTop(n, spare, allocOk, _) => Resized(s, Clamped(n) + INTERNAL_EXTRA, false, false, spare, allocOk)
    case Resize(more, shrink, compact, spare, allocOk, _) => Resized(s, |s.values| + more, shrink, compact, spare, allocOk)
    case _ => s.(values := ValuesAfter(s, op))
  }

  /** The primitives change nothing below the slots they work on. */
  lemma BelowKept(s: seq<TVal>, b: nat, p: nat, q: nat)
    requires b <= p < |s| && b <= q < |s|
    ensures |Swapped(s, p, q)| == |Inserted(s, p)| == |s| && |Removed(s, p)| == |Replaced(s, p)| == |s| - 1
    ensures Swapped(s, p, q)[..b] == s[..b] && s[q := s[p]][..b] == s[..b]
    ensures Inserted(s, p)[..b] == s[..b] && Removed(s, p)[..b] == s[..b] && Replaced(s, p)[..b] == s[..b]
  {
  }

  /** Whatever is asked of a stack, the frames below the current one keep their values. */
  lemma AppliedKeeps(s: Stack, op: Op)
    requires StackValid(s)
    ensures StackValid(Applied(s, op)) && Applied(s, op).bottom == s.bottom
    ensures Applied(s, op).values[..s.bottom] == s.values[..s.bottom]
  {
    hide Swapped, Inserted, Removed, Replaced;
    SlotValues(s, op);
  }

  lemma SlotValues(s: Stack, op: Op)
    requires StackValid(s)
    ensures s.bottom <= |ValuesAfter(s, op)| <= s.size
    ensures ValuesAfter(s, op)[..s.bottom] == s.values[..s.bottom]
  {
    hide Swapped, Inserted, Removed, Replaced, SlotOf;
    match op
    case Swap(i, j) => if SlotIn(s, i) >= 0 && SlotIn(s, j) >= 0 { BelowKept(s.values, s.bottom, SlotIn(s, i), SlotIn(s, j)); }
    case Insert(i) => if SlotIn(s, i) >= 0 { BelowKept(s.values, s.bottom, SlotIn(s, i), SlotIn(s, i)); }
    case Replace(i) => if SlotIn(s, i) >= 0 { BelowKept(s.values, s.bottom, SlotIn(s, i), SlotIn(s, i)); }
    case Copy(i, j) => if SlotIn(s, i) >= 0 && SlotIn(s, j) >= 0 { BelowKept(s.values, s.bottom, SlotIn(s, i), SlotIn(s, j)); }
    case Remove(i) => if SlotIn(s, i) >= 0 { BelowKept(s.values, s.bottom, SlotIn(s, i), SlotIn(s, i)); }
    case _ =>
  }

  /** Is a copy or move of `count` values from `f` to `t` carried out? */
  predicate CanMove(t: Stack, f: Stack, count: int) {
    0 <= count <= t.max && count <= t.size - |t.values| && count <= |f.values| - f.bottom
  }

  /** The same for stacks by number; a stack is refused as its own partner. */
  predicate Moves(ss: seq<Stack>, to: nat, from: nat, count: int)
    requires to < |ss| && from < |ss|
  {
    to != from && CanMove(ss[to], ss[from], count)
  }

  /** `t` with `count` values from the top of `f` on top, if they are moved. */
  function Receives(t: Stack, f: Stack, count: int, ok: bool): Stack
    requires ok ==> CanMove(t, f, count) && StackValid(f)
  {
    if ok then t.(values := t.values + f.values[|f.values| - count..]) else t
  }

  /** `f` without the values given away. */
  function Gives(f: Stack, count: int, ok: bool): Stack
    requires ok ==> 0 <= count <= |f.values| - f.bottom
  {
    if ok then f.(values := f.values[..|f.values| - count]) else f
  }

  /** All stacks after `count` values have been copied or moved, or not. */
  function Xcopied(ss: seq<Stack>, to: nat, from: nat, count: int, isCopy: bool): seq<Stack>
    requires to < |ss| && from < |ss| && forall s :: s in ss ==> StackValid(s)
  {
    var ok := Moves(ss, to, from, count);
    ss[to := Receives(ss[to], ss[from], count, ok)][from := Gives(ss[from], count, ok && !isCopy)]
  }

  /** All stacks after one request; one to a thread that does not exist is none. */
  function Served(ss: seq<Stack>, r: Request): seq<Stack>
    requires forall s :: s in ss ==> StackValid(s)
  {
    match r
    case NewThread(size, max) => ss + [Stack([], 0, size, max)]
    case On(thr, op) => if thr < |ss| then ss[thr := Applied(ss[thr], op)] else ss
    case Xcopy(to, from, count, isCopy) => if to < |ss| && from < |ss| then Xcopied(ss, to, from, count, isCopy) else ss
  }

  /** The frames there were start where they did, and everything below them is the same. */
  ghost predicate FramesKept(ss: seq<Stack>, ts: seq<Stack>) {
    |ts| >= |ss| &&
    forall i :: 0 <= i < |ss| && StackValid(ss[i]) ==>
      StackValid(ts[i]) && ts[i].bottom == ss[i].bottom && ts[i].values[..ts[i].bottom] == ss[i].values[..ss[i].bottom]
  }

  lemma XcopiedValid(ss: seq<Stack>, to: nat, from: nat, count: int, isCopy: bool)
    requires to < |ss| && from < |ss| && forall s :: s in ss ==> StackValid(s)
    ensures forall s :: s in Xcopied(ss, to, from, count, isCopy) ==> StackValid(s)
    ensures |Xcopied(ss, to, from, count, isCopy)| == |ss| && FramesKept(ss, Xcopied(ss, to, from, count, isCopy))
  {
    if Moves(ss, to, from, count) {
      assert StackValid(ss[to]) && StackValid(ss[from]);
      var ts := Xcopied(ss, to, from, count, isCopy);
      assert StackValid(ts[to]) && StackValid(ts[from]);
    }
  }

  /** A request leaves well-formed stacks and the frames below the current ones alone. */
  lemma ServedValid(ss: seq<Stack>, r: Request)
    requires forall s :: s in ss ==> StackValid(s)
    ensures (forall s :: s in Served(ss, r) ==> StackValid(s)) && FramesKept(ss, Served(ss, r))
  {
    hide Applied, Xcopied;
    if r.On? && r.thr < |ss| {
      AppliedKeeps(ss[r.thr], r.op);
    } else if r.Xcopy? && r.to < |ss| && r.from < |ss| {
      XcopiedValid(ss, r.to, r.from, r.count, r.isCopy);
    }
  }

  /** All stacks after a sequence of requests. */
  function ServedAll(ss: seq<Stack>, rs: seq<Request>): seq<Stack>
    requires forall s :: s in ss ==> StackValid(s)
    decreases |rs|
  {
    if rs == [] then ss else
    ServedValid(ss, rs[0]);
    ServedAll(Served(ss, rs[0]), rs[1..])
  }

  // ----- what indices mean -----

  /** Counting from the top: with `n` values in the frame, the index -k is the index n - k. */
  lemma NegativeIndex(s: Stack, k: int)
    requires StackValid(s) && 1 <= k <= |s.values| - s.bottom
    ensures var n := |s.values| - s.bottom;
      && Applied(s, Dup(-k)) == Applied(s, Dup(n - k)) && Applied(s, Insert(-k)) == Applied(s, Insert(n - k))
      && Applied(s, Replace(-k)) == Applied(s, Replace(n - k)) && Applied(s, Remove(-k)) == Applied(s, Remove(n - k))
      && Applied(s, SetTop(-k)) == Applied(s, SetTop(n - k))
  {
    hide Swapped, Inserted, Replaced, Removed, SlotOf;
    SameSlot(s, k);
  }

  /** The same for either of two indices. */
  lemma NegativeIndices(s: Stack, k: int, j: int)
    requires StackValid(s) && 1 <= k <= |s.values| - s.bottom
    ensures var n := |s.values| - s.bottom;
      && Applied(s, Swap(-k, j)) == Applied(s, Swap(n - k, j)) && Applied(s, Swap(j, -k)) == Applied(s, Swap(j, n - k))
      && Applied(s, Copy(-k, j)) == Applied(s, Copy(n - k, j)) && Applied(s, Copy(j, -k)) == Applied(s, Copy(j, n - k))
  {
    hide Swapped, Inserted, Replaced, Removed, SlotOf;
    SameSlot(s, k);
  }

  lemma SameSlot(s: Stack, k: int)
    requires StackValid(s) && 1 <= k <= |s.values| - s.bottom
    ensures SlotIn(s, -k) == SlotIn(s, |s.values| - s.bottom - k)
  {
  }

  /** An index that is in no frame changes nothing. */
  lemma NoSuchIndex(s: Stack, i: int, j: int)
    requires StackValid(s) && (i < -(|s.values| - s.bottom) || i >= |s.values| - s.bottom)
    ensures Applied(s, Dup(i)) == Applied(s, Insert(i)) == Applied(s, Replace(i)) == Applied(s, Remove(i)) == s
    ensures Applied(s, Swap(i, j)) == Applied(s, Swap(j, i)) == Applied(s, Copy(i, j)) == Applied(s, Copy(j, i)) == s
    ensures i < 0 ==> Applied(s, SetTop(i)) == s
  {
    hide Swapped, Inserted, Replaced, Removed;
  }

  /** What an index from 0 on names: the value that many places above the start of the frame. */
  lemma IndexFromBottom(s: Stack, i: int)
    requires StackValid(s) && 0 <= i < |s.values| - s.bottom
    ensures var t := Applied(s, Dup(i));
      t == if |s.values| == s.size then s else s.(values := s.values + [s.values[s.bottom + i]])
    ensures var vs, p := s.values, s.bottom + i;
      Applied(s, Insert(i)) == s.(values := vs[..p] + [vs[|vs| - 1]] + vs[p..|vs| - 1])
    ensures var vs, p := s.values, s.bottom + i;
      Applied(s, Replace(i)) == s.(values := if p == |vs| - 1 then vs[..p] else vs[..p] + [vs[|vs| - 1]] + vs[p + 1..|vs| - 1])
    ensures var vs, p := s.values, s.bottom + i;
      Applied(s, Remove(i)) == s.(values := vs[..p] + vs[p + 1..])
    ensures Applied(s, SetTop(i)) == s.(values := s.values[..s.bottom + i])
  {
    hide Replaced, SlotOf;
    SlotAt(s, i);
    ReplacedAt(s.values, s.bottom + i);
  }

  lemma SlotAt(s: Stack, i: int)
    requires StackValid(s) && 0 <= i < |s.values| - s.bottom
    ensures SlotIn(s, i) == s.bottom + i
  {
  }

  lemma ReplacedAt(vs: seq<TVal>, p: nat)
    requires p < |vs|
    ensures Replaced(vs, p) == if p == |vs| - 1 then vs[..p] else vs[..p] + [vs[|vs| - 1]] + vs[p + 1..|vs| - 1]
  {
    var top := vs[|vs| - 1];
    if p < |vs| - 1 {
      assert vs[p := top][..|vs| - 1] == vs[..p] + [top] + vs[p + 1..|vs| - 1];
    } else {
      assert vs[p := top][..|vs| - 1] == vs[..p];
    }
  }

  /** The same for two indices. */
  lemma IndicesFromBottom(s: Stack, i: int, j: int)
    requires StackValid(s) && 0 <= i < |s.values| - s.bottom && 0 <= j < |s.values| - s.bottom
    ensures var vs, p, q := s.values, s.bottom + i, s.bottom + j;
      && Applied(s, Swap(i, j)) == s.(values := vs[p := vs[q]][q := vs[p]])
      && Applied(s, Copy(i, j)) == s.(values := vs[q := vs[p]])
  {
  }

  /** The top value by its index. */
  lemma TopIndex(s: Stack)
    requires StackValid(s) && s.bottom < |s.values|
    ensures Applied(s, Dup(-1)) == Applied(s, DupTop) && Applied(s, Remove(-1)) == Applied(s, PopN(1))
    ensures Applied(s, Insert(-1)) == s && Applied(s, Swap(-1, -1)) == s && Applied(s, Copy(-1, -1)) == s
    ensures Applied(s, Replace(-1)) == Applied(s, PopN(1)) == Applied(s, SetTop(-1))
  {
    hide Swapped, Inserted, Replaced, Removed, SlotOf;
    assert SlotIn(s, -1) == |s.values| - 1 by { TopSlot(s); }
    TopValues(s.values);
  }

  lemma TopSlot(s: Stack)
    requires StackValid(s) && s.bottom < |s.values|
    ensures SlotIn(s, -1) == |s.values| - 1
  {
  }

  lemma TopValues(vs: seq<TVal>)
    requires vs != []
    ensures var n := |vs| - 1;
      Inserted(vs, n) == vs && Removed(vs, n) == vs[..n] && Replaced(vs, n) == vs[..n] && Swapped(vs, n, n) == vs
  {
    var n := |vs| - 1;
    assert vs[..n] + [vs[n]] + vs[n..n] == vs;
    assert vs[..n] + vs[n + 1..] == vs[..n];
    assert vs[n := vs[n]][..n] == vs[..n];
  }

  /** The rest of the operations in plain terms. */
  lemma WithoutIndex(s: Stack, v: TVal, n: int)
    requires StackValid(s)
    ensures Applied(s, Push(v)) == if |s.values| == s.size then s else s.(values := s.values + [v])
    ensures 0 <= n <= |s.values| - s.bottom ==> Applied(s, PopN(n)) == s.(values := s.values[..|s.values| - n])
    ensures n < 0 || n > |s.values| - s.bottom ==> Applied(s, PopN(n)) == s
    ensures |s.values| - s.bottom <= n <= s.size - s.bottom ==>
      Applied(s, SetTop(n)) == s.(values := s.values + seq(s.bottom + n - |s.values|, _ => Undefined))
    ensures n > s.size - s.bottom ==> Applied(s, SetTop(n)) == s
  {
    if s.bottom + n == |s.values| {
      assert s.values[..|s.values|] == s.values && s.values + seq(0, _ => Undefined) == s.values;
    }
  }

  /** Sizes in plain numbers: a request for more allocates the next larger multiple of 128 above what is needed,
      with 64 slots in reserve, or nothing if the limit forbids it. */
  lemma GrowthInNumbers(s: Stack, extra: int, gcSpare: nat, junk: TVal)
    requires StackValid(s)
    ensures Applied(s, CheckStack(extra, gcSpare, true, junk)) == Grown(s, |s.values| + (if extra < 0 then 0 else extra) + 64)
    ensures Applied(s, CheckStackTop(extra, gcSpare, true, junk)) == Grown(s, (if extra < 0 then 0 else extra) + 64)
  {
  }

  function Grown(s: Stack, need: nat): Stack {
    if need <= s.size || (need / 128 + 1) * 128 > s.max then s else s.(size := (need / 128 + 1) * 128)
  }

  /** Shrinking gives nothing back for less than 256 slots; otherwise it keeps 64 in reserve and rounds up, or
      keeps just what is asked when compacting. */
  lemma ShrinkageInNumbers(s: Stack, spare: nat, compact: bool, gcSpare: nat, junk: TVal)
    requires StackValid(s) && |s.values| + spare <= s.size <= s.max
    ensures var need := |s.values| + spare;
      Applied(s, Resize(spare, true, compact, gcSpare, true, junk)) ==
      if s.size - need < 256 then s else s.(size := if compact then need else ((need + 64) / 128 + 1) * 128)
  {
  }

  // ----- references on all stacks together -----

  /** References to `h` on any of the stacks. */
  function HeldAll(ss: seq<Stack>, h: nat): nat {
    if ss == [] then 0 else Held(ss[0].values, h) + HeldAll(ss[1..], h)
  }

  lemma {:induction false} HeldAllUpdate(ss: seq<Stack>, i: nat, s: Stack, h: nat)
    requires i < |ss|
    ensures HeldAll(ss[i := s], h) == HeldAll(ss, h) - Held(ss[i].values, h) + Held(s.values, h)
  {
    hide Held;
    if i > 0 {
      HeldAllUpdate(ss[1..], i - 1, s, h);
      assert ss[i := s][1..] == ss[1..][i - 1 := s];
    } else {
      assert ss[i := s][1..] == ss[1..];
    }
  }

  /** A new stack holds nothing. */
  lemma {:induction false} HeldAllMore(ss: seq<Stack>, s: Stack, h: nat)
    requires s.values == []
    ensures HeldAll(ss + [s], h) == HeldAll(ss, h)
  {
    if ss != [] {
      HeldAllMore(ss[1..], s, h);
      assert (ss + [s])[1..] == ss[1..] + [s];
    }
  }

  /** All stacks hold at least what one or two of them do. */
  lemma HeldAllParts(ss: seq<Stack>, i: nat, j: nat, h: nat)
    requires i < |ss| && j < |ss|
    ensures HeldAll(ss, h) >= Held(ss[i].values, h)
    ensures i != j ==> HeldAll(ss, h) >= Held(ss[i].values, h) + Held(ss[j].values, h)
  {
    var none := Stack([], 0, 0, 0);
    HeldAllUpdate(ss, i, none, h);
    HeldAllUpdate(ss[i := none], j, none, h);
  }

  // ----- the stacks themselves -----

  /** Operations on slots of the frame. */
  method StepSlots(thr: Thread, op: Op)
    requires thr.Valid() && (op.Swap? || op.Insert? || op.Replace? || op.Copy? || op.Remove?)
    modifies thr, thr.valstack, thr.heap
    ensures thr.Valid() && thr.View() == Applied(old(thr.View()), op)
    ensures thr.valstack == old(thr.valstack) || fresh(thr.valstack)
    ensures forall h :: thr.Outside(h) == old(thr.Outside(h))
  {
    hide Held, Swapped, Inserted, Removed, Replaced;
    match op {
      case Swap(i, j) =>
        var ok := thr.Swap(i, j);
      case Insert(i) =>
        var ok := thr.Insert(i);
      case Replace(i) =>
        var ok := thr.Replace(i);
      case Copy(i, j) =>
        var ok := thr.Copy(i, j);
      case Remove(i) =>
        var ok := thr.Remove(i);
    }
  }

  /** Operations at the top. */
  method StepTop(thr: Thread, op: Op)
    requires thr.Valid() && (op.Push? || op.Dup? || op.DupTop? || op.PopN? || op.SetTop?)
    modifies thr, thr.valstack, thr.heap
    ensures thr.Valid() && thr.View() == Applied(old(thr.View()), op)
    ensures thr.valstack == old(thr.valstack) || fresh(thr.valstack)
    ensures forall h :: thr.Outside(h) == old(thr.Outside(h))
  {
    hide Held, Swapped, Inserted, Removed, Replaced;
    match op {
      case Push(v) =>
        var ok := thr.Push(v);
      case Dup(i) =>
        var ok := thr.Dup(i);
      case DupTop =>
        var ok := thr.DupTop();
      case PopN(n) =>
        var ok := thr.PopN(n);
      case SetTop(i) =>
        var ok := thr.SetTop(i);
    }
  }

  /** Operations on the size. */
  method StepSize(thr: Thread, op: Op)
    requires thr.Valid() && (op.CheckStack? || op.CheckStackTop? || op.Resize?)
    modifies thr, thr.valstack, thr.heap
    ensures thr.Valid() && thr.View() == Applied(old(thr.View()), op)
    ensures thr.valstack == old(thr.valstack) || fresh(thr.valstack)
    ensures forall h :: thr.Outside(h) == old(thr.Outside(h))
  {
    hide Held, ValuesAfter, TargetSize, SizeAfter, Granted;
    match op {
      case CheckStack(extra, gcSpare, allocOk, junk) =>
        var r := thr.CheckStack(extra, false, thr.top + gcSpare, allocOk, junk);
      case CheckStackTop(n, gcSpare, allocOk, junk) =>
        var r := thr.CheckStackTop(n, false, thr.top + gcSpare, allocOk, junk);
      case Resize(spare, shrink, compact, gcSpare, allocOk, junk) =>
        var r := thr.Resize(thr.top + spare, shrink, compact, false, thr.top + gcSpare, allocOk, junk);
    }
  }

  /** One operation on one stack. */
  method StepOn(thr: Thread, op: Op)
    requires thr.Valid()
    modifies thr, thr.valstack, thr.heap
    ensures thr.Valid() && thr.View() == Applied(old(thr.View()), op)
    ensures thr.valstack == old(thr.valstack) || fresh(thr.valstack)
    ensures forall h :: thr.Outside(h) == old(thr.Outside(h))
  {
    hide Held, Applied;
    if op.Swap? || op.Insert? || op.Replace? || op.Copy? || op.Remove? {
      StepSlots(thr, op);
    } else if op.Push? || op.Dup? || op.DupTop? || op.PopN? || op.SetTop? {
      StepTop(thr, op);
    } else {
      StepSize(thr, op);
    }
  }

  /** References to `h` that are on neither of two stacks, which may be the same. */
  ghost function OutsideOf(t: Thread, f: Thread, h: nat): int
    requires t.Shaped() && f.Shaped()
    reads t, t.valstack, t.heap, f, f.valstack
  {
    if t == f then t.Outside(h) else t.OutsideBoth(f, h)
  }

  /** A copy or move as it looks from outside. */
  method XcopyOn(t: Thread, f: Thread, count: int, isCopy: bool) returns (ghost ok: bool)
    requires if t == f then t.Valid() else t.ValidBoth(f)
    modifies t`top, t.valstack, t.heap, f`top, f.valstack
    ensures t.Shaped() && f.Shaped() && forall h :: OutsideOf(t, f, h) == old(OutsideOf(t, f, h))
    ensures ok == (t != f && CanMove(old(t.View()), old(f.View()), count))
    ensures t != f ==> t.View() == Receives(old(t.View()), old(f.View()), count, ok)
    ensures f.View() == Gives(old(f.View()), count, ok && !isCopy)
  {
    hide Held;
    ghost var s, u := t.View(), f.View();
    var done := t.XcopyMoveRaw(f, count, isCopy);
    ok := t != f && CanMove(s, u, count);
    assert done == ok;
  }

  /** A stack that nothing has touched looks the same. */
  twostate lemma Untouched(t: Thread)
    requires old(allocated(t)) && old(allocated(t.valstack)) && unchanged(t) && unchanged(t.valstack) && old(t.Shaped())
    ensures t.Shaped() && t.View() == old(t.View())
  {
    assert t.valstack[..t.top] == old(t.valstack[..t.top]);
  }

  /** The threads of a heap, with their stacks. */
  class Threads {
    const heap: Heap
    var threads: seq<Thread>
    ghost var Repr: set<object>

    /** Take charge of existing threads, seen from outside as `ss`. */
    constructor (heap: Heap, threads: seq<Thread>, ghost repr: set<object>, ghost ss: seq<Stack>)
      requires heap in repr && forall i :: 0 <= i < |threads| ==> threads[i] in repr && threads[i].valstack in repr
      requires forall i :: 0 <= i < |threads| ==> threads[i].heap == heap && threads[i].Shaped()
      requires forall i, j :: 0 <= i < j < |threads| ==> threads[i] != threads[j] && threads[i].valstack != threads[j].valstack
      requires |ss| == |threads| && forall i :: 0 <= i < |threads| ==> threads[i].Shaped() && ss[i] == threads[i].View()
      requires forall h :: heap.refcount[h] >= HeldAll(ss, h)
      ensures Valid() && this.heap == heap && this.threads == threads && Views() == ss
    {
      hide Held, HeldAll;
      this.heap, this.threads, Repr := heap, threads, repr;
      new;
      assert Views() == ss;
    }

    /** Threads share nothing but the heap. */
    ghost predicate Separate()
      reads this, Repr
    {
      && heap in Repr && this !in Repr
      && (forall i :: 0 <= i < |threads| ==> Owns(threads[i]))
      && (forall i, j :: 0 <= i < j < |threads| ==> threads[i] != threads[j] && threads[i].valstack != threads[j].valstack)
    }

    ghost predicate Owns(t: Thread)
      reads this, Repr
    {
      t in Repr && t.valstack in Repr && t.heap == heap && t.Shaped()
    }

    /** The stacks as seen from outside. */
    ghost function Views(): (ss: seq<Stack>)
      requires Separate()
      reads this, Repr
      ensures |ss| == |threads| && forall i :: 0 <= i < |threads| ==> ss[i] == threads[i].View()
    {
      ViewsTo(|threads|)
    }

    ghost function ViewsTo(n: nat): (ss: seq<Stack>)
      requires Separate() && n <= |threads|
      reads this, Repr
      ensures |ss| == n && forall i :: 0 <= i < n ==> ss[i] == threads[i].View()
    {
      if n == 0 then [] else ViewsTo(n - 1) + [threads[n - 1].View()]
    }

    /** References to `h` that are on no stack. */
    ghost function Outside(h: nat): int
      requires Separate()
      reads this, Repr
    {
      heap.refcount[h] - HeldAll(Views(), h)
    }

    /** Undefined above every top, and every count covers the references on all stacks. */
    ghost predicate Valid()
      reads this, Repr
    {
      Separate() && forall h :: Outside(h) >= 0
    }

    lemma ViewsValid()
      requires Separate()
      ensures forall s :: s in Views() ==> StackValid(s)
    {
      forall i | 0 <= i < |threads| ensures StackValid(Views()[i]) {
        assert Owns(threads[i]);
      }
    }

    /** A stack among others is valid by itself. */
    lemma ValidAlone(i: nat)
      requires Valid() && i < |threads|
      ensures threads[i].Valid()
    {
      hide Held;
      assert Owns(threads[i]);
      forall h ensures threads[i].Outside(h) >= 0 {
        HeldAllParts(Views(), i, i, h);
        assert Outside(h) >= 0;
      }
    }

    /** Two stacks among others are valid as a pair. */
    lemma ValidPair(i: nat, j: nat)
      requires Valid() && i < |threads| && j < |threads| && i != j
      ensures threads[i].ValidBoth(threads[j])
    {
      hide Held;
      assert Owns(threads[i]) && Owns(threads[j]);
      forall h ensures threads[i].OutsideBoth(threads[j], h) >= 0 {
        HeldAllParts(Views(), i, j, h);
        assert Outside(h) >= 0;
      }
    }

    method StepOne(thr: nat, op: Op)
      requires Valid() && thr < |threads|
      modifies this`Repr, Repr
      ensures Valid() && fresh(Repr - old(Repr))
      ensures StackValid(old(Views()[thr])) && Views() == old(Views())[thr := Applied(old(Views()[thr]), op)]
      ensures forall h :: Outside(h) == old(Outside(h))
    {
      hide Held, HeldAll, Applied, Views;
      ghost var ss := Views();
      ghost var t := threads[thr];
      ValidAlone(thr);
      assert Owns(t);
      StepOn(threads[thr], op);
      Repr := Repr + {t.valstack};
      forall k | 0 <= k < |threads| ensures Owns(threads[k]) && (k != thr ==> threads[k].View() == old(threads[k].View())) {
        assert old(Owns(threads[k]));
        if k != thr { Untouched(threads[k]); }
      }
      assert Views() == ss[thr := t.View()];
      forall h ensures Outside(h) == old(Outside(h)) {
        HeldAllUpdate(ss, thr, t.View(), h);
        assert t.Outside(h) == old(t.Outside(h));
      }
    }

    method XcopyBetween(to: nat, from: nat, count: int, isCopy: bool)
      requires Valid() && to < |threads| && from < |threads|
      modifies Repr
      ensures Valid()
      ensures (forall s :: s in old(Views()) ==> StackValid(s)) && Views() == Xcopied(old(Views()), to, from, count, isCopy)
      ensures forall h :: Outside(h) == old(Outside(h))
    {
      hide Held, HeldAll, Views, CanMove, Receives, Gives;
      ghost var ss := Views();
      ghost var t, f := threads[to], threads[from];
      ViewsValid();
      assert Owns(t) && Owns(f);
      if to != from { ValidPair(to, from); } else { ValidAlone(to); }
      ghost var ok := XcopyOn(threads[to], threads[from], count, isCopy);
      forall k | 0 <= k < |threads| ensures Owns(threads[k]) && (k != to && k != from ==> threads[k].View() == old(threads[k].View())) {
        assert old(Owns(threads[k]));
        if k != to && k != from { Untouched(threads[k]); }
      }
      assert Views() == ss[to := t.View()][from := f.View()];
      forall h ensures Outside(h) == old(Outside(h)) {
        HeldAllUpdate(ss, to, t.View(), h);
        HeldAllUpdate(ss[to := t.View()], from, f.View(), h);
        assert OutsideOf(t, f, h) == old(OutsideOf(t, f, h));
      }
    }

    method AddThread(size: nat, max: nat)
      requires Valid()
      modifies this
      ensures Valid() && fresh(Repr - old(Repr)) && Views() == old(Views()) + [Stack([], 0, size, max)]
      ensures forall h :: Outside(h) == old(Outside(h))
    {
      hide Held, HeldAll, Views;
      ghost var ss := Views();
      var t := new Thread(heap, size, max);
      forall k | 0 <= k < |threads| ensures threads[k].Shaped() && threads[k].View() == old(threads[k].View()) {
        assert old(Owns(threads[k]));
        Untouched(threads[k]);
      }
      threads := threads + [t];
      Repr := Repr + {t, t.valstack};
      assert Views() == ss + [t.View()];
      forall h ensures Outside(h) == old(Outside(h)) {
        HeldAllMore(ss, t.View(), h);
      }
    }

    /** Serve one request. */
    method Step(r: Request)
      requires Valid()
      modifies this, Repr
      ensures Valid() && fresh(Repr - old(Repr))
      ensures (forall s :: s in old(Views()) ==> StackValid(s)) && Views() == Served(old(Views()), r)
      ensures forall h :: Outside(h) == old(Outside(h))
    {
      hide Held, HeldAll, Applied, Xcopied;
      ViewsValid();
      match r {
        case NewThread(size, max) =>
          AddThread(size, max);
        case On(thr, op) =>
          if thr < |threads| {
            StepOne(thr, op);
          }
        case Xcopy(to, from, count, isCopy) =>
          if to < |threads| && from < |threads| {
            XcopyBetween(to, from, count, isCopy);
          }
      }
    }

    /** Whatever is asked of the stacks of a heap in whatever order: they end as the requests say, slots
        above every top are undefined, every reference count is still the references on all stacks plus
        the same number elsewhere, and the frames below the current ones are untouched. */
    method Run(rs: seq<Request>)
      requires Valid()
      modifies this, Repr
      ensures Valid()
      ensures (forall s :: s in old(Views()) ==> StackValid(s)) && Views() == ServedAll(old(Views()), rs)
      ensures FramesKept(old(Views()), Views())
      ensures forall h :: Outside(h) == old(Outside(h))
    {
      hide Held, HeldAll, Served, Views;
      ViewsValid();
      var i := 0;
      while i < |rs|
        invariant i <= |rs| && Valid() && fresh(Repr - old(Repr))
        invariant (forall s :: s in Views() ==> StackValid(s)) && FramesKept(old(Views()), Views())
        invariant ServedAll(Views(), rs[i..]) == ServedAll(old(Views()), rs)
        invariant forall h :: Outside(h) == old(Outside(h))
      {
        ServedValid(Views(), rs[i]);
        Step(rs[i]);
        assert rs[i..][1..] == rs[i + 1..];
        i := i + 1;
      }
    }
  }
}
