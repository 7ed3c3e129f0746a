/** What the serializer's walk means on arbitrary object graphs: sharing is invisible, exactly the
    cyclic graphs are rejected as cyclic, and nesting errors need long simple chains. */
module JsonGraph {
  import opened Bytes
  import opened JsonDocument
  import JsonEncoder

  // ----- the meaning of a value, without any record of the objects visited -----

  /** The document `v` denotes when objects may nest at most `n` deep. */
  function Denotes(h: Heap, v: Val, n: nat): Walked
    decreases n, 0, 1
  {
    if !v.Object? then Walk(h, v, [], 0)
    else if v.ref !in h || h[v.ref].FunctionObj? then Absent
    else if n == 0 then Failed(TooDeep)
    else if h[v.ref].ArrayObj? then
      match DenotesElems(h, h[v.ref].slots, n - 1)
      case Elems(docs) => Document(DArr(docs))
      case ElemsFailed(e) => Failed(e)
    else
      match DenotesMembers(h, h[v.ref].entries, n - 1)
      case Members(ms) => Document(DObj(ms))
      case MembersFailed(e) => Failed(e)
  }

  function DenotesElems(h: Heap, slots: seq<Option<Val>>, n: nat): WalkedElems
    decreases n, |slots| + 1, 0
  {
    if slots == [] then Elems([]) else
    var last := slots[|slots| - 1];
    match DenotesElems(h, slots[..|slots| - 1], n)
    case ElemsFailed(e) => ElemsFailed(e)
    case Elems(docs) =>
      if last.None? then Elems(docs + [DNull]) else
      match Denotes(h, last.value, n)
      case Failed(e) => ElemsFailed(e)
      case Absent => Elems(docs + [DNull])
      case Document(d) => Elems(docs + [d])
  }

  function DenotesMembers(h: Heap, entries: seq<Option<Entry>>, n: nat): WalkedMembers
    decreases n, |entries| + 1, 0
  {
    if entries == [] then Members([]) else
    var last := entries[|entries| - 1];
    match DenotesMembers(h, entries[..|entries| - 1], n)
    case MembersFailed(e) => MembersFailed(e)
    case Members(ms) =>
      if !Visible(last) then Members(ms) else
      match Denotes(h, last.value.val, n)
      case Failed(e) => MembersFailed(e)
      case Absent => Members(ms)
      case Document(d) => Members(ms + [Member(last.value.key, d)])
  }

  ghost predicate Fits(h: Heap, v: Val, n: nat) { !Denotes(h, v, n).Failed? }

  // ----- serialized references -----

  /** `v` is serialized as part of the object `r`. */
  ghost predicate ChildOf(h: Heap, r: Ref, v: Val) {
    r in h &&
    match h[r]
    case FunctionObj => false
    case ArrayObj(slots) => Some(v) in slots
    case PlainObj(entries) => exists e :: e in entries && Visible(e) && e.value.val == v
  }

  /** What comes after position `i` of a path that leads to `v`. */
  ghost function Next(path: seq<Ref>, v: Val, i: nat): Val
    requires i < |path|
  {
    if i == |path| - 1 then v else Object(path[i + 1])
  }

  /** Each object of `path` holds the next one, and the last one holds `v`. */
  ghost predicate Chain(h: Heap, path: seq<Ref>, v: Val) {
    forall i :: 0 <= i < |path| ==> ChildOf(h, path[i], Next(path, v, i))
  }

  /** A chain starting at `v` that comes back to one of its own objects. */
  ghost predicate Lasso(h: Heap, v: Val, path: seq<Ref>, i: nat) {
    i < |path| && v == Object(path[0]) && Chain(h, path, Object(path[i]))
  }

  ghost predicate ReachesCycle(h: Heap, v: Val) { exists p, i :: Lasso(h, v, p, i) }

  // ----- children of a value that fits, fit in one level less -----

  lemma {:induction false} ElemFits(h: Heap, slots: seq<Option<Val>>, n: nat, v: Val)
    requires DenotesElems(h, slots, n).Elems? && Some(v) in slots
    ensures Fits(h, v, n)
  {
    if slots[|slots| - 1] != Some(v) {
      ElemFits(h, slots[..|slots| - 1], n, v);
    }
  }

  lemma {:induction false} MemberFits(h: Heap, entries: seq<Option<Entry>>, n: nat, e: Option<Entry>)
    requires DenotesMembers(h, entries, n).Members? && e in entries && Visible(e)
    ensures Fits(h, e.value.val, n)
  {
    if entries[|entries| - 1] != e {
      MemberFits(h, entries[..|entries| - 1], n, e);
    }
  }

  lemma ChildFits(h: Heap, r: Ref, v: Val, n: nat)
    requires ChildOf(h, r, v) && Fits(h, Object(r), n)
    ensures n > 0 && Fits(h, v, n - 1)
  {
    match h[r]
    case ArrayObj(slots) => ElemFits(h, slots, n - 1, v);
    case PlainObj(entries) =>
      var e :| e in entries && Visible(e) && e.value.val == v;
      MemberFits(h, entries, n - 1, e);
  }

  lemma {:induction false} ChainFits(h: Heap, path: seq<Ref>, v: Val, n: nat)
    requires path != [] && Chain(h, path, v) && Fits(h, Object(path[0]), n)
    ensures n >= |path| && Fits(h, v, n - |path|)
    decreases |path|
  {
    hide Denotes, ChildOf;
    var next := Next(path, v, 0);
    assert ChildOf(h, path[0], next);
    ChildFits(h, path[0], next, n);
    if |path| > 1 {
      ChainTail(h, path, v, 1);
      ChainFits(h, path[1..], v, n - 1);
    }
  }

  lemma ChainTail(h: Heap, path: seq<Ref>, v: Val, k: nat)
    requires Chain(h, path, v) && k <= |path|
    ensures Chain(h, path[k..], v)
  {
    forall i | 0 <= i < |path[k..]|
      ensures ChildOf(h, path[k..][i], Next(path[k..], v, i))
    {
      assert ChildOf(h, path[k + i], Next(path, v, k + i));
    }
  }

  lemma ChainSnoc(h: Heap, path: seq<Ref>, r: Ref, v: Val)
    requires Chain(h, path, Object(r)) && ChildOf(h, r, v)
    ensures Chain(h, path + [r], v)
  {
    var p := path + [r];
    forall i | 0 <= i < |p|
      ensures ChildOf(h, p[i], Next(p, v, i))
    {
      if i < |path| {
        assert ChildOf(h, path[i], Next(path, Object(r), i));
      }
    }
  }

  /** A value that fits is not on any chain leading to it: going once around a cycle would make it
      fit in less, for ever. */
  lemma {:induction false} NotOnOwnChain(h: Heap, path: seq<Ref>, r: Ref, n: nat)
    requires Chain(h, path, Object(r)) && Fits(h, Object(r), n)
    ensures r !in path
    decreases n
  {
    hide Denotes, ChildOf;
    if r in path {
      var i :| 0 <= i < |path| && path[i] == r;
      ChainTail(h, path, Object(r), i);
      ChainFits(h, path[i..], Object(r), n);
      NotOnOwnChain(h, path, r, n - |path[i..]|);
    }
  }

  // ----- the walk computes the meaning -----

  /** A walk that succeeds yields what the value denotes. */
  lemma {:induction false} WalkSound(h: Heap, v: Val, path: seq<Ref>, limit: nat)
    requires |path| <= limit && !Walk(h, v, path, limit).Failed?
    ensures Denotes(h, v, limit - |path|) == Walk(h, v, path, limit)
    decreases limit - |path|, 0, 1
  {
    if v.Object? && v.ref in h && !h[v.ref].FunctionObj? {
      var inner := path + [v.ref];
      match h[v.ref]
      case ArrayObj(slots) => WalkElemsSound(h, slots, inner, limit);
      case PlainObj(entries) => WalkMembersSound(h, entries, inner, limit);
    }
  }

  lemma {:induction false} WalkElemsSound(h: Heap, slots: seq<Option<Val>>, path: seq<Ref>, limit: nat)
    requires |path| <= limit && WalkElems(h, slots, path, limit).Elems?
    ensures DenotesElems(h, slots, limit - |path|) == WalkElems(h, slots, path, limit)
    decreases limit - |path|, |slots| + 1, 0
  {
    if slots != [] {
      WalkElemsSound(h, slots[..|slots| - 1], path, limit);
      if slots[|slots| - 1].Some? { WalkSound(h, slots[|slots| - 1].value, path, limit); }
    }
  }

  lemma {:induction false} WalkMembersSound(h: Heap, entries: seq<Option<Entry>>, path: seq<Ref>, limit: nat)
    requires |path| <= limit && WalkMembers(h, entries, path, limit).Members?
    ensures DenotesMembers(h, entries, limit - |path|) == WalkMembers(h, entries, path, limit)
    decreases limit - |path|, |entries| + 1, 0
  {
    if entries != [] {
      WalkMembersSound(h, entries[..|entries| - 1], path, limit);
      if Visible(entries[|entries| - 1]) { WalkSound(h, entries[|entries| - 1].value.val, path, limit); }
    }
  }

  /** A value that fits in the levels left is walked without error, whatever chain led to it. */
  lemma {:induction false} WalkComplete(h: Heap, v: Val, path: seq<Ref>, limit: nat)
    requires |path| <= limit && Chain(h, path, v) && Fits(h, v, limit - |path|)
    ensures Walk(h, v, path, limit) == Denotes(h, v, limit - |path|)
    decreases limit - |path|, 0, 1
  {
    if v.Object? && v.ref in h && !h[v.ref].FunctionObj? {
      NotOnOwnChain(h, path, v.ref, limit - |path|);
      match h[v.ref]
      case ArrayObj(slots) => WalkElemsComplete(h, slots, path, v.ref, limit);
      case PlainObj(entries) => WalkMembersComplete(h, entries, path, v.ref, limit);
    }
  }

  lemma {:induction false} WalkElemsComplete(h: Heap, slots: seq<Option<Val>>, path: seq<Ref>, r: Ref, limit: nat)
    requires |path| < limit && Chain(h, path, Object(r))
    requires forall v :: Some(v) in slots ==> ChildOf(h, r, v)
    requires DenotesElems(h, slots, limit - |path| - 1).Elems?
    ensures WalkElems(h, slots, path + [r], limit) == DenotesElems(h, slots, limit - |path| - 1)
    decreases limit - |path| - 1, |slots| + 1, 0
  {
    if slots != [] {
      var last := slots[|slots| - 1];
      WalkElemsComplete(h, slots[..|slots| - 1], path, r, limit);
      if last.Some? {
        assert Some(last.value) in slots;
        ChainSnoc(h, path, r, last.value);
        WalkComplete(h, last.value, path + [r], limit);
      }
    }
  }

  lemma {:induction false} WalkMembersComplete(h: Heap, entries: seq<Option<Entry>>, path: seq<Ref>, r: Ref, limit: nat)
    requires |path| < limit && Chain(h, path, Object(r))
    requires forall e :: e in entries && Visible(e) ==> ChildOf(h, r, e.value.val)
    requires DenotesMembers(h, entries, limit - |path| - 1).Members?
    ensures WalkMembers(h, entries, path + [r], limit) == DenotesMembers(h, entries, limit - |path| - 1)
    decreases limit - |path| - 1, |entries| + 1, 0
  {
    if entries != [] {
      var last := entries[|entries| - 1];
      WalkMembersComplete(h, entries[..|entries| - 1], path, r, limit);
      if Visible(last) {
        assert last in entries;
        ChainSnoc(h, path, r, last.value.val);
        WalkComplete(h, last.value.val, path + [r], limit);
      }
    }
  }

  /** The loop check never changes what a serializable value gives: the walk succeeds exactly when
      the value unfolds within the limit, and with the unfolding as result. */
  lemma SharingIsInvisible(h: Heap, v: Val, limit: nat)
    ensures Walk(h, v, [], limit).Failed? <==> Denotes(h, v, limit).Failed?
    ensures !Denotes(h, v, limit).Failed? ==> Walk(h, v, [], limit) == Denotes(h, v, limit)
  {
    if !Walk(h, v, [], limit).Failed? { WalkSound(h, v, [], limit); }
    if Fits(h, v, limit) { WalkComplete(h, v, [], limit); }
  }

  // ----- what the errors mean -----

  /** A failing walk exhibits its reason: a path extending the current one, and either an object of
      that path reached again, or a path as long as the limit with yet another object below it. */
  ghost predicate Witness(h: Heap, v: Val, path: seq<Ref>, limit: nat, error: WalkError, p: seq<Ref>, r: Ref) {
    path <= p && |p| <= limit && Chain(h, p, Object(r)) && r in h &&
    (if |p| == |path| then v == Object(r) else v == Object(p[|path|])) &&
    JsonEncoder.Distinct(p) &&
    (error.Cyclic? ==> r in p) && (error.TooDeep? ==> r !in p && |p| == limit)
  }

  lemma {:induction false} WalkWitness(h: Heap, v: Val, path: seq<Ref>, limit: nat) returns (p: seq<Ref>, r: Ref)
    requires |path| <= limit && Chain(h, path, v) && JsonEncoder.Distinct(path)
    requires Walk(h, v, path, limit).Failed?
    ensures Witness(h, v, path, limit, Walk(h, v, path, limit).error, p, r)
    decreases limit - |path|, 0, 1
  {
    hide JsonEncoder.Distinct, ChildOf;
    if v.ref in path || |path| >= limit {
      p, r := path, v.ref;
    } else {
      var w: Val;
      DistinctSnoc(path, v.ref);
      ChildrenOf(h, v.ref);
      if h[v.ref].ArrayObj? {
        w, p, r := ElemsWitness(h, h[v.ref].slots, path, v.ref, limit);
      } else {
        w, p, r := MembersWitness(h, h[v.ref].entries, path, v.ref, limit);
      }
      assert p[|path|] == v.ref;
    }
  }

  lemma {:induction false} ElemsWitness(h: Heap, slots: seq<Option<Val>>, path: seq<Ref>, o: Ref, limit: nat)
    returns (w: Val, p: seq<Ref>, r: Ref)
    requires |path| < limit && Chain(h, path, Object(o)) && JsonEncoder.Distinct(path + [o])
    requires forall v :: Some(v) in slots ==> ChildOf(h, o, v)
    requires WalkElems(h, slots, path + [o], limit).ElemsFailed?
    ensures Witness(h, w, path + [o], limit, WalkElems(h, slots, path + [o], limit).error, p, r)
    decreases limit - |path| - 1, |slots| + 1, 0
  {
    var last := slots[|slots| - 1];
    if WalkElems(h, slots[..|slots| - 1], path + [o], limit).ElemsFailed? {
      w, p, r := ElemsWitness(h, slots[..|slots| - 1], path, o, limit);
    } else {
      assert Some(last.value) in slots;
      ChainSnoc(h, path, o, last.value);
      w := last.value;
      p, r := WalkWitness(h, w, path + [o], limit);
    }
  }

  lemma {:induction false} MembersWitness(h: Heap, entries: seq<Option<Entry>>, path: seq<Ref>, o: Ref, limit: nat)
    returns (w: Val, p: seq<Ref>, r: Ref)
    requires |path| < limit && Chain(h, path, Object(o)) && JsonEncoder.Distinct(path + [o])
    requires forall e :: e in entries && Visible(e) ==> ChildOf(h, o, e.value.val)
    requires WalkMembers(h, entries, path + [o], limit).MembersFailed?
    ensures Witness(h, w, path + [o], limit, WalkMembers(h, entries, path + [o], limit).error, p, r)
    decreases limit - |path| - 1, |entries| + 1, 0
  {
    var last := entries[|entries| - 1];
    if WalkMembers(h, entries[..|entries| - 1], path + [o], limit).MembersFailed? {
      w, p, r := MembersWitness(h, entries[..|entries| - 1], path, o, limit);
    } else {
      assert last in entries;
      ChainSnoc(h, path, o, last.value.val);
      w := last.value.val;
      p, r := WalkWitness(h, w, path + [o], limit);
    }
  }

  lemma DistinctSnoc(p: seq<Ref>, r: Ref)
    requires JsonEncoder.Distinct(p) && r !in p
    ensures JsonEncoder.Distinct(p + [r])
  {
    assert (p + [r])[..|p|] == p;
  }

  lemma ChildrenOf(h: Heap, r: Ref)
    requires r in h
    ensures h[r].ArrayObj? ==> forall v :: Some(v) in h[r].slots ==> ChildOf(h, r, v)
    ensures h[r].PlainObj? ==> forall e :: e in h[r].entries && Visible(e) ==> ChildOf(h, r, e.value.val)
  {
  }

  lemma {:induction false} DistinctCount(p: seq<Ref>, s: set<Ref>)
    requires JsonEncoder.Distinct(p) && forall r :: r in p ==> r in s
    ensures |p| <= |s|
  {
    if p != [] {
      var last := p[|p| - 1];
      DistinctCount(p[..|p| - 1], s - {last});
    }
  }

  /** A lasso never fits, at any nesting limit. */
  lemma LassoNeverFits(h: Heap, v: Val, path: seq<Ref>, i: nat, n: nat)
    requires Lasso(h, v, path, i)
    ensures !Fits(h, v, n)
  {
    if Fits(h, v, n) {
      var back := Object(path[i]);
      ChainFits(h, path, back, n);
      NotOnOwnChain(h, path, path[i], n - |path|);
    }
  }

  /** A nesting error needs more objects than the limit, whatever their shape. */
  lemma TooDeepNeedsManyObjects(h: Heap, v: Val, limit: nat)
    requires Walk(h, v, [], limit) == Failed(TooDeep)
    ensures |h| > limit
  {
    var p, r := WalkWitness(h, v, [], limit);
    ChainInHeap(h, p, Object(r));
    DistinctSnoc(p, r);
    DistinctCount(p + [r], h.Keys);
    assert |h| == |h.Keys|;
  }

  /** A cycle is reported only when one can be reached, and one that can be reached is never
      serialized. */
  lemma CycleReports(h: Heap, v: Val, limit: nat)
    ensures Walk(h, v, [], limit) == Failed(Cyclic) ==> ReachesCycle(h, v)
    ensures ReachesCycle(h, v) ==> Walk(h, v, [], limit).Failed?
  {
    var w := Walk(h, v, [], limit);
    if w == Failed(Cyclic) {
      var p, r := WalkWitness(h, v, [], limit);
      var i :| 0 <= i < |p| && p[i] == r;
      assert Lasso(h, v, p, i);
    }
    if ReachesCycle(h, v) {
      var p, i :| Lasso(h, v, p, i);
      LassoNeverFits(h, v, p, i, limit);
      SharingIsInvisible(h, v, limit);
    }
  }

  /** On any graph with no more objects than the recursion limit, JSON.stringify() throws exactly
      when some cycle can be reached, it then reports a cycle, and otherwise it produces the text of
      the document the value denotes, however its objects are shared. */
  lemma StringifyOutcome(h: Heap, st: Style, v: Val)
    requires |h| <= 1000
    ensures JsonEncoder.Expected(h, st, v).Thrown? <==> ReachesCycle(h, v)
    ensures JsonEncoder.Expected(h, st, v).Thrown? ==> JsonEncoder.Expected(h, st, v).error == Cyclic
    ensures !Denotes(h, v, 1000).Failed? ==>
      JsonEncoder.Expected(h, st, v) == JsonEncoder.Outcome(st, Denotes(h, v, 1000))
  {
    hide Walk, Denotes, DocText, ReachesCycle;
    var limit := JsonEncoder.ENC_RECLIMIT;
    SharingIsInvisible(h, v, limit);
    var w := Walk(h, v, [], limit);
    if w.Failed? && w.error.TooDeep? {
      TooDeepNeedsManyObjects(h, v, limit);
    }
    CycleReports(h, v, limit);
  }

  lemma ChainInHeap(h: Heap, path: seq<Ref>, v: Val)
    requires Chain(h, path, v)
    ensures forall r :: r in path ==> r in h
  {
    forall i | 0 <= i < |path| ensures path[i] in h {
      assert ChildOf(h, path[i], Next(path, v, i));
    }
  }

  // ----- how far the fast path reaches -----

  /** No value in sight is a lightweight function, which the fast path never takes. */
  ghost predicate NoLightFuncs(h: Heap) {
    forall r, v :: ChildOf(h, r, v) ==> !v.LightFunc?
  }

  /** The fast path gives up on none of the graphs that nest less than its own limit. */
  lemma {:induction false} FastPathReaches(h: Heap, v: Val, path: seq<Ref>)
    requires |path| < JsonEncoder.LOOP_ARRAY && NoLightFuncs(h) && (forall r :: r in path && r in h ==> !h[r].FunctionObj?) && !v.LightFunc?
    requires !Walk(h, v, path, JsonEncoder.LOOP_ARRAY - 1).Failed?
    ensures !JsonEncoder.Aborts(h, v, path)
    decreases JsonEncoder.LOOP_ARRAY - |path|, 0, 1
  {
    if v.Object? && v.ref in h && !h[v.ref].FunctionObj? && v.ref !in path {
      ChildrenOf(h, v.ref);
      if h[v.ref].ArrayObj? {
        ElemsReached(h, h[v.ref].slots, path + [v.ref], v.ref);
      } else {
        MembersReached(h, h[v.ref].entries, path + [v.ref], v.ref);
      }
    }
  }

  lemma {:induction false} ElemsReached(h: Heap, slots: seq<Option<Val>>, path: seq<Ref>, o: Ref)
    requires |path| < JsonEncoder.LOOP_ARRAY && NoLightFuncs(h) && (forall r :: r in path && r in h ==> !h[r].FunctionObj?)
    requires forall v :: Some(v) in slots ==> ChildOf(h, o, v)
    requires WalkElems(h, slots, path, JsonEncoder.LOOP_ARRAY - 1).Elems?
    ensures !JsonEncoder.AbortsElems(h, slots, path)
    decreases JsonEncoder.LOOP_ARRAY - |path|, |slots| + 1, 0
  {
    if slots != [] {
      var last := slots[|slots| - 1];
      ElemsReached(h, slots[..|slots| - 1], path, o);
      if last.Some? {
        assert Some(last.value) in slots;
        FastPathReaches(h, last.value, path);
      }
    }
  }

  lemma {:induction false} MembersReached(h: Heap, entries: seq<Option<Entry>>, path: seq<Ref>, o: Ref)
    requires |path| < JsonEncoder.LOOP_ARRAY && NoLightFuncs(h) && (forall r :: r in path && r in h ==> !h[r].FunctionObj?)
    requires forall e :: e in entries && Visible(e) ==> ChildOf(h, o, e.value.val)
    requires WalkMembers(h, entries, path, JsonEncoder.LOOP_ARRAY - 1).Members?
    ensures !JsonEncoder.AbortsMembers(h, entries, path)
    decreases JsonEncoder.LOOP_ARRAY - |path|, |entries| + 1, 0
  {
    if entries != [] {
      var last := entries[|entries| - 1];
      MembersReached(h, entries[..|entries| - 1], path, o);
      if Visible(last) {
        assert last in entries;
        FastPathReaches(h, last.value.val, path);
      }
    }
  }
}
