/** Prototype links: object creation and Object.setPrototypeOf() with its loop prevention. */
module PrototypeChain {

  class HObject {
    var prototype: HObject?
    var extensible: bool

    constructor (proto: HObject?)
      ensures prototype == proto && extensible
    {
      prototype, extensible := proto, true;
    }
  }

  // ----- chains in a graph of prototype links -----

  type Graph = map<HObject, HObject?>

  /** The chain from `o` ends within `n` links. */
  ghost predicate Ends(g: Graph, o: HObject?, n: nat) {
    o == null || (o in g && n > 0 && Ends(g, g[o], n - 1))
  }

  /** `target` is `n` links up the chain from `o`. */
  ghost predicate ReachesIn(g: Graph, o: HObject?, target: HObject, n: nat) {
    o != null && (if n == 0 then o == target else o in g && ReachesIn(g, g[o], target, n - 1))
  }

  /** `target` is on the chain from `o`, `o` included. */
  ghost predicate Reaches(g: Graph, o: HObject?, target: HObject) {
    exists n: nat :: ReachesIn(g, o, target, n)
  }

  ghost predicate Finite(g: Graph, o: HObject?) {
    exists n: nat :: Ends(g, o, n)
  }

  ghost predicate Acyclic(g: Graph) {
    forall o :: o in g ==> Finite(g, o)
  }

  lemma {:induction false} EndsLonger(g: Graph, o: HObject?, m: nat, n: nat)
    requires m <= n && Ends(g, o, m)
    ensures Ends(g, o, n)
  {
    if o != null { EndsLonger(g, g[o], m - 1, n - 1); }
  }

  lemma ReachesUp(g: Graph, o: HObject, target: HObject)
    requires o in g
    ensures Reaches(g, o, target) <==> o == target || Reaches(g, g[o], target)
  {
    if o == target {
      assert ReachesIn(g, o, target, 0);
    } else if Reaches(g, g[o], target) {
      var k: nat :| ReachesIn(g, g[o], target, k);
      assert ReachesIn(g, o, target, k + 1);
    } else if Reaches(g, o, target) {
      var k: nat :| ReachesIn(g, o, target, k);
      assert !ReachesIn(g, g[o], target, k - 1);
    }
  }

  /** The chain from `o` after redirecting `changed`, which is not on it. */
  lemma {:induction false} EndsElsewhere(g: Graph, changed: HObject, proto: HObject?, o: HObject?, n: nat)
    requires Ends(g, o, n) && !Reaches(g, o, changed)
    ensures Ends(g[changed := proto], o, n)
    decreases n
  {
    if o != null {
      ReachesUp(g, o, changed);
      EndsElsewhere(g, changed, proto, g[o], n - 1);
    }
  }

  /** Every chain ends after redirecting `changed` to a chain that does not contain it. */
  lemma {:induction false} EndsRedirected(g: Graph, changed: HObject, proto: HObject?, m: nat, o: HObject?, n: nat)
    requires Ends(g, o, n) && Ends(g[changed := proto], proto, m)
    ensures Ends(g[changed := proto], o, n + m + 1)
    decreases n
  {
    var h := g[changed := proto];
    if o == changed {
      EndsLonger(h, proto, m, n + m);
    } else if o != null {
      EndsRedirected(g, changed, proto, m, g[o], n - 1);
    }
  }

  /** A chain that has come back to `changed` once comes back for ever. */
  lemma {:induction false} CycleNeverEnds(g: Graph, changed: HObject, proto: HObject?, k: nat, n: nat)
    requires changed in g && ReachesIn(g, proto, changed, k)
    ensures !Ends(g[changed := proto], changed, n)
    decreases n
  {
    var h := g[changed := proto];
    if n > 0 && Ends(h, proto, n - 1) {
      var left := Follow(g, changed, proto, proto, k, n - 1);
      CycleNeverEnds(g, changed, proto, k, left);
    }
  }

  /** Walking up to `changed` on links that are still the old ones. */
  lemma {:induction false} Follow(g: Graph, changed: HObject, proto: HObject?, o: HObject?, k: nat, n: nat) returns (left: nat)
    requires ReachesIn(g, o, changed, k) && Ends(g[changed := proto], o, n)
    ensures left <= n && Ends(g[changed := proto], changed, left)
    decreases n
  {
    if o == changed {
      left := n;
    } else {
      left := Follow(g, changed, proto, g[o], k - 1, n - 1);
    }
  }

  /** Redirecting a prototype link leaves all chains finite exactly when the object is not on the chain of
      its new prototype. */
  lemma LoopExactlyWhenReached(g: Graph, o: HObject, proto: HObject?)
    requires Acyclic(g) && o in g && (proto == null || proto in g)
    ensures Acyclic(g[o := proto]) <==> !Reaches(g, proto, o)
  {
    hide Ends, ReachesIn;
    var h := g[o := proto];
    if Reaches(g, proto, o) {
      var k: nat :| ReachesIn(g, proto, o, k);
      forall n: nat ensures !Ends(h, o, n) { CycleNeverEnds(g, o, proto, k, n); }
      assert o in h && !Finite(h, o);
    } else {
      var m := ChainBound(g, proto);
      EndsElsewhere(g, o, proto, proto, m);
      forall x | x in h ensures Finite(h, x) {
        var n := ChainBound(g, x);
        EndsRedirected(g, o, proto, m, x, n);
      }
    }
  }

  lemma ChainBound(g: Graph, o: HObject?) returns (n: nat)
    requires Acyclic(g) && (o == null || o in g)
    ensures Ends(g, o, n)
  {
    if o == null { n := 0; } else {
      assert Finite(g, o);
      n :| Ends(g, o, n);
    }
  }

  /** A new object at the start of a chain. */
  lemma GrowKeepsAcyclic(g: Graph, o: HObject, proto: HObject?)
    requires Acyclic(g) && o !in g && (proto == null || proto in g) && Closed(g)
    ensures Acyclic(g[o := proto])
  {
    hide Ends, ReachesIn;
    var h := g[o := proto];
    forall x | x in h ensures Finite(h, x) {
      var m := ChainBound(g, proto);
      EndsGrown(g, o, proto, proto, m);
      if x == o {
        EndsStep(h, o, m);
      } else {
        var n := ChainBound(g, x);
        EndsGrown(g, o, proto, x, n);
      }
    }
  }

  lemma EndsStep(g: Graph, o: HObject, n: nat)
    requires o in g && Ends(g, g[o], n)
    ensures Ends(g, o, n + 1)
  {
  }

  ghost predicate Closed(g: Graph) {
    forall o :: o in g && g[o] != null ==> g[o] in g
  }

  lemma {:induction false} EndsGrown(g: Graph, o: HObject, proto: HObject?, x: HObject?, n: nat)
    requires Ends(g, x, n) && o !in g
    ensures Ends(g[o := proto], x, n)
    decreases n
  {
    if x != null { EndsGrown(g, o, proto, g[x], n - 1); }
  }

  // ----- the operations -----

  /** What a built-in gets as an argument or `this`. */
  datatype Val = Undefined | Null | Primitive | LightFunc | Object(o: HObject)

  datatype Outcome = TypeError | ReturnUndefined | ReturnTarget

  ghost predicate ProtoAllowed(v: Val) { v.Null? || v.Object? }

  ghost function ProtoOf(v: Val): HObject? { if v.Object? then v.o else null }

  /** The `__proto__` setter returns undefined, Object.setPrototypeOf() its target. */
  ghost function Success(setter: bool): Outcome { if setter then ReturnUndefined else ReturnTarget }

  /** A request, with objects by their number of creation; a number out of range stands for null. */
  datatype Op = Create(proto: int) | SetProto(target: int, proto: int, setter: bool) | PreventExtensions(target: int)

  /** All objects of a heap, oldest first; the first one is the prototype of functions. */
  class ObjectHeap {
    var all: seq<HObject>

    ghost function Links(): Graph
      reads this, all
    {
      map o | o in all :: o.prototype
    }

    ghost predicate Valid()
      reads this, all
    {
      all != [] && Closed(Links()) && Acyclic(Links())
    }

    constructor ()
      ensures Valid()
    {
      var f := new HObject(null);
      all := [f];
      new;
      assert Links() == map[f := null];
      assert Ends(Links(), f, 1);
    }

    ghost predicate Known(v: Val)
      reads this
    {
      v.Object? ==> v.o in all
    }

    /** duk_bi_object_constructor_create(), without property descriptors. */
    method CreateObject(proto: Val) returns (o: HObject?)
      requires Valid() && Known(proto)
      modifies this
      ensures Valid()
      ensures !ProtoAllowed(proto) ==> o == null && all == old(all)
      ensures ProtoAllowed(proto) ==> o != null && fresh(o) && o.extensible && all == old(all) + [o]
      ensures ProtoAllowed(proto) ==> Links() == old(Links())[o := ProtoOf(proto)]
    {
      if !(proto.Null? || proto.Object?) {
        return null;
      }
      o := new HObject(if proto.Object? then proto.o else null);
      GrowKeepsAcyclic(Links(), o, ProtoOf(proto));
      ghost var g := Links();
      all := all + [o];
      assert Links() == g[o := ProtoOf(proto)];
    }

    /** Is `obj` on the chain of `newProto`?  The walk ends because all chains do. */
    method WalkFinds(obj: HObject, newProto: HObject?) returns (found: bool)
      requires Valid() && (newProto == null || newProto in all)
      ensures found <==> Reaches(Links(), newProto, obj)
    {
      hide Ends, ReachesIn;
      ghost var g := Links();
      ghost var n := ChainBound(g, newProto);
      var curr := newProto;
      while curr != null
        invariant curr == null || curr in all
        invariant Ends(g, curr, n) && (Reaches(g, newProto, obj) <==> Reaches(g, curr, obj))
        decreases n
      {
        ReachesUp(g, curr, obj);
        if curr == obj {
          return true;
        }
        EndsNext(g, curr, n);
        curr := curr.prototype;
        n := n - 1;
      }
      NullReachesNothing(g, obj);
      found := false;
    }

    /** duk_bi_object_setprototype_shared(). */
    method SetPrototypeShared(target: Val, protoArg: Val, setter: bool) returns (r: Outcome)
      requires Valid() && Known(target) && Known(protoArg)
      modifies all
      ensures Valid()
      ensures forall o :: o in all ==> o.extensible == old(o.extensible)
      ensures target.Undefined? || target.Null? ==> r == TypeError
      ensures !target.Undefined? && !target.Null? && !ProtoAllowed(protoArg) ==> r == if setter then ReturnUndefined else TypeError
      ensures target.Primitive? && ProtoAllowed(protoArg) ==> r == Success(setter)
      ensures target.LightFunc? && ProtoAllowed(protoArg) ==>
        r == if ProtoOf(protoArg) == all[0] then Success(setter) else TypeError
      ensures target.Object? && ProtoAllowed(protoArg) ==>
        var same := ProtoOf(protoArg) == old(target.o.prototype);
        var refused := !target.o.extensible || Reaches(old(Links()), ProtoOf(protoArg), target.o);
        r == if !same && refused then TypeError else Success(setter)
      ensures Links() ==
        if target.Object? && ProtoAllowed(protoArg) && r != TypeError then old(Links())[target.o := ProtoOf(protoArg)] else old(Links())
    {
      if target.Undefined? || target.Null? {
        return TypeError;
      }
      if !(protoArg.Null? || protoArg.Object?) {
        return if setter then ReturnUndefined else TypeError;
      }
      var hNewProto: HObject? := if protoArg.Object? then protoArg.o else null;
      var success := if setter then ReturnUndefined else ReturnTarget;
      if target.LightFunc? {
        return if hNewProto == all[0] then success else TypeError;
      }
      if !target.Object? {
        return success;
      }
      var hObj := target.o;
      if hNewProto == hObj.prototype {
        return success;
      }
      if !hObj.extensible {
        return TypeError;
      }
      var loop := WalkFinds(hObj, hNewProto);
      if loop {
        return TypeError;
      }
      ghost var g := Links();
      LoopExactlyWhenReached(g, hObj, hNewProto);
      hObj.prototype := hNewProto;
      assert Links() == g[hObj := hNewProto];
      r := success;
    }

    function Lookup(i: int): Val
      reads this
    {
      if 0 <= i < |all| then Object(all[i]) else Null
    }

    predicate Extensible(i: int)
      reads this, all
    {
      0 <= i < |all| && all[i].extensible
    }

    /** The links after asking for a new prototype: granted where it neither closes a cycle nor changes a
        sealed object. */
    ghost function Reset(g: Graph, target: Val, extensible: bool, proto: HObject?): Graph {
      if target.Object? && extensible && !Reaches(g, proto, target.o) then g[target.o := proto] else g
    }

    /** One request. */
    method Step(op: Op)
      requires Valid()
      modifies this, all
      ensures Valid() && |all| >= |old(all)| && all[..|old(all)|] == old(all)
      ensures forall k :: 0 <= k < |all| ==> all[k] in old(all) || fresh(all[k])
      ensures |all| == |old(all)| + if op.Create? then 1 else 0
      ensures op.Create? ==> Links() == old(Links())[all[|old(all)|] := ProtoOf(old(Lookup(op.proto)))]
      ensures op.SetProto? ==> Links() == Reset(old(Links()), Lookup(op.target), old(Extensible(op.target)), ProtoOf(Lookup(op.proto)))
      ensures op.PreventExtensions? ==> Links() == old(Links())
      ensures forall o :: o in old(all) ==> o.extensible == (old(o.extensible) && !(op.PreventExtensions? && Lookup(op.target) == Object(o)))
    {
      match op {
        case Create(proto) =>
          var o := CreateObject(Lookup(proto));
        case SetProto(target, proto, setter) =>
          var r := SetPrototypeShared(Lookup(target), Lookup(proto), setter);
        case PreventExtensions(target) =>
          if 0 <= target < |all| {
            ghost var g := Links();
            all[target].extensible := false;
            assert Links() == g;
          }
      }
    }

    /** After any sequence of requests every chain is finite. */
    method Run(ops: seq<Op>)
      requires Valid()
      modifies this, all
      ensures Valid()
    {
      var i := 0;
      while i < |ops|
        invariant i <= |ops| && Valid()
        invariant forall k :: 0 <= k < |all| ==> all[k] in old(all) || fresh(all[k])
      {
        Step(ops[i]);
        i := i + 1;
      }
    }
  }

  lemma EndsNext(g: Graph, o: HObject, n: nat)
    requires Ends(g, o, n)
    ensures n > 0 && o in g && Ends(g, g[o], n - 1)
  {
  }

  lemma NullReachesNothing(g: Graph, target: HObject)
    ensures !Reaches(g, null, target)
  {
  }
}
