/** The serializer: the slow path that follows the specification's algorithm, the fast path that walks
    property tables directly, and the wrapper that tries the fast path first. */
module JsonEncoder {
  import opened Bytes
  import opened Xutf8
  import opened JsonDocument
  import opened LookupTables
  import opened JsonReserve

  /** Depth up to which the loop check uses a fixed array; also the fast path's recursion limit. */
  const LOOP_ARRAY: nat := 64
  const ENC_RECLIMIT: nat := 1000
  const ENCSTR_CHUNK: nat := 64

  /** The short-escape letters of the lookup-free variant, 0 where there is none. */
  const QUOTESTR_ESC: seq<byte> := [0, 0, 0, 0, 0, 0, 0, 0, 0x62, 0x74, 0x6e, 0, 0x66, 0x72]

  /** The keys JSON sees of an object, in table order. */
  function VisibleKeys(entries: seq<Option<Entry>>): seq<bytes> {
    if entries == [] then [] else
    var last := entries[|entries| - 1];
    VisibleKeys(entries[..|entries| - 1]) + (if Visible(last) then [last.value.key] else [])
  }

  /** Own property lookup. */
  function Get(entries: seq<Option<Entry>>, key: bytes): Val {
    if entries == [] then Undefined
    else if entries[0].Some? && entries[0].value.key == key then entries[0].value.val
    else Get(entries[1..], key)
  }

  lemma {:induction false} GetFinds(entries: seq<Option<Entry>>, i: nat)
    requires i < |entries| && entries[i].Some? && DistinctKeys(entries)
    ensures Get(entries, entries[i].value.key) == entries[i].value.val
  {
    if i > 0 { GetFinds(entries[1..], i - 1); }
  }

  /** Walking an object by key list and lookup, as the slow path does. */
  function WalkKeys(h: Heap, entries: seq<Option<Entry>>, keys: seq<bytes>, path: seq<Ref>, limit: nat): WalkedMembers
    requires |path| <= limit
  {
    if keys == [] then Members([]) else
    var last := keys[|keys| - 1];
    match WalkKeys(h, entries, keys[..|keys| - 1], path, limit)
    case MembersFailed(e) => MembersFailed(e)
    case Members(ms) =>
      match Walk(h, Get(entries, last), path, limit)
      case Failed(e) => MembersFailed(e)
      case Absent => Members(ms)
      case Document(d) => Members(ms + [Member(last, d)])
  }

  /** Key list and lookup visit the same values as the property table itself. */
  lemma {:induction false} WalkKeysAgrees(h: Heap, entries: seq<Option<Entry>>, n: nat, path: seq<Ref>, limit: nat)
    requires |path| <= limit && n <= |entries| && DistinctKeys(entries)
    ensures WalkKeys(h, entries, VisibleKeys(entries[..n]), path, limit) == WalkMembers(h, entries[..n], path, limit)
  {
    hide Walk, Get, DistinctKeys;
    if n > 0 {
      WalkKeysAgrees(h, entries, n - 1, path, limit);
      var before, last := entries[..n - 1], entries[n - 1];
      assert entries[..n] == before + [last];
      OneMoreKey(before, last);
      if Visible(last) {
        GetFinds(entries, n - 1);
        NextKey(h, entries, VisibleKeys(before), last.value.key, path, limit);
      }
      NextMember(h, before, last, path, limit);
    }
  }

  lemma OneMoreKey(before: seq<Option<Entry>>, last: Option<Entry>)
    ensures VisibleKeys(before + [last]) == if Visible(last) then VisibleKeys(before) + [last.value.key] else VisibleKeys(before)
  {
    assert (before + [last])[..|before|] == before;
    assert VisibleKeys(before) + [] == VisibleKeys(before);
  }

  lemma NextKey(h: Heap, entries: seq<Option<Entry>>, keys: seq<bytes>, key: bytes, path: seq<Ref>, limit: nat)
    requires |path| <= limit
    ensures WalkKeys(h, entries, keys + [key], path, limit) ==
      WithMember(WalkKeys(h, entries, keys, path, limit), key, Walk(h, Get(entries, key), path, limit))
  {
    hide Walk, Get;
    assert (keys + [key])[..|keys|] == keys;
  }

  /** Members with one more, if it denotes anything. */
  function WithMember(w: WalkedMembers, key: bytes, v: Walked): WalkedMembers {
    if w.MembersFailed? then w
    else match v
      case Failed(e) => MembersFailed(e)
      case Absent => w
      case Document(d) => Members(w.members + [Member(key, d)])
  }

  lemma NextMember(h: Heap, before: seq<Option<Entry>>, last: Option<Entry>, path: seq<Ref>, limit: nat)
    requires |path| <= limit
    ensures WalkMembers(h, before + [last], path, limit) ==
      if Visible(last) then WithMember(WalkMembers(h, before, path, limit), last.value.key, Walk(h, last.value.val, path, limit))
      else WalkMembers(h, before, path, limit)
  {
    hide Walk;
    assert (before + [last])[..|before|] == before;
  }

  lemma {:induction false} WalkKeysFails(h: Heap, entries: seq<Option<Entry>>, keys: seq<bytes>, n: nat, path: seq<Ref>, limit: nat)
    requires |path| <= limit && n <= |keys|
    requires WalkKeys(h, entries, keys[..n], path, limit).MembersFailed?
    ensures WalkKeys(h, entries, keys, path, limit) == WalkKeys(h, entries, keys[..n], path, limit)
    decreases |keys|
  {
    if n < |keys| {
      assert keys[..|keys| - 1][..n] == keys[..n];
      WalkKeysFails(h, entries, keys[..|keys| - 1], n, path, limit);
    } else {
      assert keys[..n] == keys;
    }
  }

  lemma {:induction false} WalkElemsFails(h: Heap, slots: seq<Option<Val>>, n: nat, path: seq<Ref>, limit: nat)
    requires |path| <= limit && n <= |slots|
    requires WalkElems(h, slots[..n], path, limit).ElemsFailed?
    ensures WalkElems(h, slots, path, limit) == WalkElems(h, slots[..n], path, limit)
    decreases |slots|
  {
    if n < |slots| {
      assert slots[..|slots| - 1][..n] == slots[..n];
      WalkElemsFails(h, slots[..|slots| - 1], n, path, limit);
    } else {
      assert slots[..n] == slots;
    }
  }

  // ----- when the fast path gives up -----

  /** The fast path throws: a lightfunc, a repeated object, or more than LOOP_ARRAY levels. */
  predicate Aborts(h: Heap, v: Val, path: seq<Ref>)
    requires |path| <= LOOP_ARRAY
    decreases LOOP_ARRAY - |path|, 0, 1
  {
    v.LightFunc? ||
    (v.Object? && v.ref in h &&
      (|path| >= LOOP_ARRAY || v.ref in path ||
        match h[v.ref]
        case FunctionObj => false
        case ArrayObj(slots) => AbortsElems(h, slots, path + [v.ref])
        case PlainObj(entries) => AbortsMembers(h, entries, path + [v.ref])))
  }

  predicate AbortsElems(h: Heap, slots: seq<Option<Val>>, path: seq<Ref>)
    requires |path| <= LOOP_ARRAY
    decreases LOOP_ARRAY - |path|, |slots| + 1, 0
  {
    slots != [] &&
    var last := slots[|slots| - 1];
    (AbortsElems(h, slots[..|slots| - 1], path) || (last.Some? && Aborts(h, last.value, path)))
  }

  predicate AbortsMembers(h: Heap, entries: seq<Option<Entry>>, path: seq<Ref>)
    requires |path| <= LOOP_ARRAY
    decreases LOOP_ARRAY - |path|, |entries| + 1, 0
  {
    entries != [] &&
    var last := entries[|entries| - 1];
    (AbortsMembers(h, entries[..|entries| - 1], path) || (Visible(last) && Aborts(h, last.value.val, path)))
  }

  lemma {:induction false} AbortsElemsPrefix(h: Heap, slots: seq<Option<Val>>, n: nat, path: seq<Ref>)
    requires |path| <= LOOP_ARRAY && n <= |slots| && AbortsElems(h, slots[..n], path)
    ensures AbortsElems(h, slots, path)
    decreases |slots|
  {
    if n < |slots| {
      assert slots[..|slots| - 1][..n] == slots[..n];
      AbortsElemsPrefix(h, slots[..|slots| - 1], n, path);
    } else {
      assert slots[..n] == slots;
    }
  }

  lemma {:induction false} AbortsMembersPrefix(h: Heap, entries: seq<Option<Entry>>, n: nat, path: seq<Ref>)
    requires |path| <= LOOP_ARRAY && n <= |entries| && AbortsMembers(h, entries[..n], path)
    ensures AbortsMembers(h, entries, path)
    decreases |entries|
  {
    if n < |entries| {
      assert entries[..|entries| - 1][..n] == entries[..n];
      AbortsMembersPrefix(h, entries[..|entries| - 1], n, path);
    } else {
      assert entries[..n] == entries;
    }
  }

  datatype FastResult = FastEmitted | FastUndefined | FastAborted

  /** The value of JSON.stringify(): a string, undefined, or a thrown error. */
  datatype Stringified = Text(text: bytes) | UndefinedResult | Thrown(error: WalkError)

  /** The result for a value that denotes `w`. */
  function Outcome(st: Style, w: Walked): Stringified {
    match w
    case Document(d) => Text(DocText(st, d, 0))
    case Absent => UndefinedResult
    case Failed(e) => Thrown(e)
  }

  /** What the specification's algorithm gives. */
  function Expected(h: Heap, st: Style, v: Val): Stringified { Outcome(st, Walk(h, v, [], ENC_RECLIMIT)) }

  /** The part of the path the loop check keeps in its key set. */
  ghost function Overflow(path: seq<Ref>): set<Ref> {
    if |path| <= LOOP_ARRAY then {} else set r | r in path[LOOP_ARRAY..]
  }

  ghost predicate Distinct(path: seq<Ref>) {
    path == [] || (path[|path| - 1] !in path[..|path| - 1] && Distinct(path[..|path| - 1]))
  }

  /** The serialization context. */
  class EncCtx {
    const heap: Heap
    const st: Style
    const visiting: array<Ref>
    var bw: bytes
    var depth: nat
    var limit: nat
    var loop: set<Ref>
    ghost var path: seq<Ref>

    /** The loop check state holds exactly the objects on the current path: the first LOOP_ARRAY of
        them in the array, the rest in the key set. */
    ghost predicate Valid()
      reads this, visiting
    {
      && HeapValid(heap)
      && visiting.Length == LOOP_ARRAY
      && depth == |path| <= limit
      && (forall i :: 0 <= i < depth && i < LOOP_ARRAY ==> visiting[i] == path[i])
      && loop == Overflow(path)
      && Distinct(path)
    }

    constructor (heap: Heap, st: Style)
      requires HeapValid(heap)
      ensures Valid() && this.heap == heap && this.st == st
      ensures fresh(visiting) && bw == [] && path == [] && limit == ENC_RECLIMIT
    {
      this.heap, this.st := heap, st;
      visiting := new Ref[LOOP_ARRAY];
      bw, depth, limit, loop, path := [], 0, ENC_RECLIMIT, {}, [];
    }

    // ----- output -----

    /** One codepoint of quoting with the lookup table. */
    method QuoteOne(s: bytes, p: nat) returns (p': nat)
      requires p < |s|
      modifies this`bw
      ensures p' == p + QuoteStep(s[p..]).1 && bw == old(bw) + QuoteStep(s[p..]).0
    {
      hide Quotestr;
      QuotestrIs(s[p]);
      var b := Quotestr(s[p]);
      if b < 0x80 {
        bw := bw + [b];
        p' := p + 1;
      } else if b >= 0xa0 {
        bw := bw + [BACKSLASH, b - 0x80];
        p' := p + 1;
      } else if b == 0x80 {
        bw := bw + EscapeU(s[p]);
        p' := p + 1;
      } else {
        p' := QuoteSlow(s, p);
      }
    }

    /** One codepoint of quoting without the table. */
    method QuoteOnePlain(s: bytes, p: nat) returns (p': nat)
      requires p < |s|
      modifies this`bw
      ensures p' == p + QuoteStep(s[p..]).1 && bw == old(bw) + QuoteStep(s[p..]).0
    {
      var cp := s[p];
      if cp <= 0x7f {
        if cp == QUOTE || cp == BACKSLASH {
          bw := bw + [BACKSLASH, cp];
        } else if cp < 0x20 {
          if cp < |QUOTESTR_ESC| && QUOTESTR_ESC[cp] != 0 {
            bw := bw + [BACKSLASH, QUOTESTR_ESC[cp]];
          } else {
            bw := bw + EscapeU(cp);
          }
        } else {
          bw := bw + [cp];
        }
        p' := p + 1;
      } else {
        p' := QuoteSlow(s, p);
      }
    }

    /** The shared non-ASCII path: decode one codepoint, or take the byte itself. */
    method QuoteSlow(s: bytes, p: nat) returns (p': nat)
      requires p < |s| && s[p] >= 0x7f
      modifies this`bw
      ensures p' == p + QuoteStep(s[p..]).1 && bw == old(bw) + QuoteStep(s[p..]).0
    {
      var cp: codepoint;
      match Decode(s[p..]) {
        case Some((c, n)) => cp, p' := c, p + n;
        case None => cp, p' := s[p], p + 1;
      }
      if cp == 0x2028 || cp == 0x2029 {
        bw := bw + EscapeU(cp);
      } else {
        bw := bw + Encode(cp);
      }
    }

    /** Quoting one chunk, with or without the lookup table; the last codepoint may reach beyond it. */
    method EncQuoteChunk(s: bytes, p: nat, pNow: nat, table: bool) returns (p': nat)
      requires p <= pNow <= |s|
      modifies this`bw
      ensures pNow <= p' <= |s|
      ensures bw + QuoteBody(s[p'..]) == old(bw) + QuoteBody(s[p..])
      ensures bw == old(bw) + ChunkText(s[p..], pNow - p)
      ensures |bw| - |old(bw)| <= EXPANSION * (pNow - p) + 1
      ensures |bw| - |old(bw)| <= EXPANSION * (pNow - p) <==> !Overruns(s[p..], pNow - p)
    {
      hide QuoteBody, QuoteStep, Overruns, ChunkText;
      p' := p;
      ChunkRoom(s[p..], pNow - p);
      NothingLeft(bw, s[p..]);
      while p' < pNow
        invariant p <= p' <= |s|
        invariant bw + ChunkLeft(s, p', pNow) == old(bw) + ChunkText(s[p..], pNow - p)
        invariant bw + QuoteBody(s[p'..]) == old(bw) + QuoteBody(s[p..])
        decreases |s| - p'
      {
        QuoteJoin(bw, s, p');
        ChunkJoin(bw, s, p', pNow);
        if table { p' := QuoteOne(s, p'); } else { p' := QuoteOnePlain(s, p'); }
      }
    }

    method EncQuoteString(s: bytes, table: bool)
      modifies this`bw
      ensures bw == old(bw) + Quote(s)
    {
      bw := bw + [QUOTE];
      ghost var start := bw;
      var p := 0;
      assert s[p..] == s;
      while p < |s|
        invariant p <= |s|
        invariant bw + QuoteBody(s[p..]) == start + QuoteBody(s)
      {
        var left := |s| - p;
        var now := if left > ENCSTR_CHUNK then ENCSTR_CHUNK else left;
        p := EncQuoteChunk(s, p, p + now, table);
      }
      assert s[p..] == [];
      assert bw + [] == bw;
      bw := bw + [QUOTE];
      Regroup3(old(bw), [QUOTE], QuoteBody(s), [QUOTE]);
    }

    /** Line break and indent; indents are emitted by copying what is already there, doubling the
        amount each time. */
    method EncNewlineIndent(depth: nat)
      requires st.gap != []
      modifies this`bw
      ensures bw == old(bw) + Indent(st.gap, depth)
    {
      hide Repeat;
      bw := bw + [NEWLINE];
      ghost var head := bw;
      if depth == 0 {
        RepeatZero(st.gap);
        assert bw == old(bw) + ([NEWLINE] + []);
        return;
      }
      var gapLen := |st.gap|;
      var needBytes := gapLen * depth;
      var pStart := |bw|;
      bw := bw + st.gap;
      var availBytes := gapLen;
      needBytes := needBytes - gapLen;
      ghost var done := 1;
      RepeatOnce(st.gap);
      Times(gapLen, depth, 1);
      while needBytes >= availBytes
        invariant 1 <= done <= depth
        invariant availBytes == gapLen * done > 0 && needBytes == gapLen * (depth - done)
        invariant bw == head + Repeat(st.gap, done)
        decreases needBytes
      {
        Compare(gapLen, done, depth - done);
        CopyCopies(head, st.gap, done, done);
        Times(gapLen, depth - done, done);
        bw := bw + bw[pStart..pStart + availBytes];
        needBytes := needBytes - availBytes;
        availBytes := availBytes * 2;
        done := done + done;
      }
      Compare(gapLen, done, depth - done);
      CopyCopies(head, st.gap, done, depth - done);
      bw := bw + bw[pStart..pStart + needBytes];
      Regroup2(old(bw), [NEWLINE], Repeat(st.gap, depth));
    }

    method EmitIndent(depth: nat)
      modifies this`bw
      ensures bw == old(bw) + Indent(st.gap, depth)
    {
      if st.gap != [] { EncNewlineIndent(depth); }
    }

    method EmitClosing(any: bool, depth: nat, ghost count: nat)
      requires any == (count > 0)
      modifies this`bw
      ensures bw == old(bw) + Closing(st, count, depth)
    {
      if any { EmitIndent(depth); } else { assert bw == old(bw) + []; }
    }

    // ----- loop check -----

    /** Entering an object: refused exactly when it is on the path already, or when the nesting limit
        is reached. */
    method EncObjarrEntry(target: Ref) returns (err: Option<WalkError>)
      requires Valid()
      modifies this, visiting
      ensures err == if target in old(path) then Some(Cyclic) else if |old(path)| >= limit then Some(TooDeep) else None
      ensures err.None? ==> Valid() && path == old(path) + [target]
      ensures bw == old(bw) && limit == old(limit)
    {
      var n := if depth > LOOP_ARRAY then LOOP_ARRAY else depth;
      var i := 0;
      while i < n
        invariant i <= n
        invariant forall j :: 0 <= j < i ==> path[j] != target
      {
        if visiting[i] == target { return Some(Cyclic); }
        i := i + 1;
      }
      OverflowMember(path, target);
      if depth < LOOP_ARRAY {
        visiting[depth] := target;
      } else {
        if target in loop { return Some(Cyclic); }
        loop := loop + {target};
      }
      if depth >= limit { return Some(TooDeep); }
      OverflowSnoc(path, target);
      depth := depth + 1;
      path := path + [target];
      return None;
    }

    /** Leaving the innermost object. */
    method EncObjarrExit(target: Ref)
      requires Valid() && path != [] && path[|path| - 1] == target
      modifies this`depth, this`loop, this`path
      ensures Valid() && path == old(path)[..|old(path)| - 1]
    {
      depth := depth - 1;
      ghost var outer := path[..|path| - 1];
      assert path == outer + [target];
      OverflowSnoc(outer, target);
      OverflowMember(outer, target);
      if depth >= LOOP_ARRAY {
        loop := loop - {target};
      }
      path := outer;
    }

    // ----- slow path -----

    /** What serializing a value that denotes `w` must have done. */
    ghost predicate Serialized(w: Walked, err: Option<WalkError>, bw0: bytes, path0: seq<Ref>)
      reads this, visiting
    {
      match w
      case Document(d) =>
        err.None? && Valid() && path == path0 && bw == bw0 + DocText(st, d, |path0|)
      case Absent => false
      case Failed(e) => err == Some(e)
    }

    /** Steps 5-10 of Str(): only for values that are not left out. */
    method EncValue2(v: Val) returns (err: Option<WalkError>)
      requires Valid() && ValInHeap(heap, v)
      requires !Undef(v)
      modifies this, visiting
      ensures limit == old(limit)
      ensures Serialized(Walk(heap, v, old(path), limit), err, old(bw), old(path))
      decreases limit - depth, 1
    {
      err := None;
      match v {
        case Null => bw := bw + NULL_TEXT;
        case Bool(b) => bw := bw + (if b then TRUE_TEXT else FALSE_TEXT);
        case Number(n) => bw := bw + st.conv.text(n);
        case NonFinite => bw := bw + NULL_TEXT;
        case Str(s) => EncQuoteString(s, true);
        case Object(ref) =>
          if heap[ref].ArrayObj? {
            err := EncArray(ref);
          } else {
            err := EncObject(ref);
          }
      }
    }

    /** Whether steps 1-4 of Str() give undefined. */
    predicate Undef(v: Val) {
      v.Undefined? || v.LightFunc? || v.Opaque? || (v.Object? && v.ref in heap && heap[v.ref].FunctionObj?)
    }

    /** One turn of the array loop: separator, indent and the element, null for an undefined one. */
    method EncElement(slot: Option<Val>, first: bool) returns (err: Option<WalkError>)
      requires Valid() && (slot.Some? ==> ValInHeap(heap, slot.value))
      modifies this, visiting
      ensures limit == old(limit)
      ensures var w := SlotWalk(heap, slot, old(path), limit);
        if w.Failed? then err == Some(w.error) else
        err.None? && Valid() && path == old(path) &&
        bw == old(bw) + Separator(if first then 0 else 1) + ElemText(st, ElemDoc(w), |path|)
      decreases limit - depth, 2
    {
      hide Distinct, Overflow, Indent;
      ghost var sep := Separator(if first then 0 else 1);
      if !first { bw := bw + [COMMA]; }
      assert bw == old(bw) + sep;
      EmitIndent(depth);
      ghost var line := bw;
      var v := if slot.Some? then slot.value else Undefined;
      err := None;
      if Undef(v) {
        bw := bw + NULL_TEXT;
      } else {
        err := EncValue2(v);
      }
      if err.None? {
        ghost var doc := ElemDoc(SlotWalk(heap, slot, path, limit));
        assert bw == line + DocText(st, doc, |path|);
        ElemJoin(st, old(bw) + sep, doc, |path|);
      }
    }

    /** The array loop. */
    method EncElements(slots: seq<Option<Val>>) returns (err: Option<WalkError>)
      requires Valid() && forall i :: 0 <= i < |slots| && slots[i].Some? ==> ValInHeap(heap, slots[i].value)
      modifies this, visiting
      ensures limit == old(limit)
      ensures match WalkElems(heap, slots, old(path), limit)
        case ElemsFailed(e) => err == Some(e)
        case Elems(docs) => err.None? && Valid() && path == old(path) && bw == old(bw) + ElemsText(st, docs, |path|)
      decreases limit - depth, 3
    {
      hide Distinct, Overflow;
      err := None;
      ghost var docs: seq<Doc> := [];
      ghost var here := path;
      var i := 0;
      assert bw == old(bw) + [];
      while i < |slots|
        invariant i <= |slots| && Valid() && path == here && limit == old(limit) && err.None?
        invariant WalkElems(heap, slots[..i], here, limit) == Elems(docs)
        invariant |docs| == i
        invariant bw == old(bw) + ElemsText(st, docs, |here|)
      {
        WalkElemsStep(heap, slots, i, here, limit);
        err := EncElement(slots[i], i == 0);
        if err.Some? {
          WalkElemsFails(heap, slots, i + 1, here, limit);
          return;
        }
        ghost var d := ElemDoc(SlotWalk(heap, slots[i], here, limit));
        ElemsJoin(st, old(bw), docs, d, |here|);
        docs := docs + [d];
        i := i + 1;
      }
      assert slots[..i] == slots;
    }

    method EncArray(ref: Ref) returns (err: Option<WalkError>)
      requires Valid() && ref in heap && heap[ref].ArrayObj?
      modifies this, visiting
      ensures limit == old(limit)
      ensures Serialized(Walk(heap, Object(ref), old(path), limit), err, old(bw), old(path))
      decreases limit - depth, 0
    {
      hide DocText, ElemsText, MembersText, Closing, Overflow, Distinct;
      err := EncObjarrEntry(ref);
      if err.Some? { return; }
      assert NodeValid(heap, heap[ref]);
      bw := bw + [LBRACKET];
      var slots := heap[ref].slots;
      ghost var w := WalkElems(heap, slots, path, limit);
      err := EncElements(slots);
      if err.Some? { return; }
      EmitClosing(|slots| > 0, depth - 1, |w.docs|);
      bw := bw + [RBRACKET];
      EncObjarrExit(ref);
      assert path == old(path);
      assert bw == old(bw) + DocText(st, DArr(w.docs), |path|) by { ArrJoin(st, old(bw), w.docs, |path|); }
      WalkArr(heap, ref, path, limit);
    }

    method EnumeratedKeys(ref: Ref) returns (keys: seq<bytes>)
      requires ref in heap && heap[ref].PlainObj?
      ensures keys == VisibleKeys(heap[ref].entries)
    {
      var entries := heap[ref].entries;
      keys := [];
      var i := 0;
      while i < |entries|
        invariant i <= |entries|
        invariant keys == VisibleKeys(entries[..i])
      {
        assert entries[..i + 1][..i] == entries[..i];
        if Visible(entries[i]) {
          keys := keys + [entries[i].value.key];
        }
        i := i + 1;
      }
      assert entries[..i] == entries;
    }

    /** One written member of the object loop. */
    method EncMember(key: bytes, v: Val, first: bool) returns (err: Option<WalkError>)
      requires Valid() && ValInHeap(heap, v) && !Undef(v)
      modifies this, visiting
      ensures limit == old(limit)
      ensures var w := Walk(heap, v, old(path), limit);
        !w.Absent? &&
        if w.Failed? then err == Some(w.error) else
        err.None? && Valid() && path == old(path) &&
        bw == old(bw) + Separator(if first then 0 else 1) + MemberText(st, Member(key, w.doc), |path|)
      decreases limit - depth, 2
    {
      hide Distinct, Overflow, QuoteBody, Indent;
      ghost var b0 := bw;
      if !first { bw := bw + [COMMA]; }
      assert bw == b0 + Separator(if first then 0 else 1);
      EmitIndent(depth);
      EncQuoteString(key, true);
      bw := bw + (if st.gap != [] then [COLON, SPACE] else [COLON]);
      ghost var b1 := bw;
      err := EncValue2(v);
      if err.None? {
        MemberJoin(st, b0, Separator(if first then 0 else 1), key, Walk(heap, v, path, limit).doc, |path|);
      }
    }

    /** The object loop. */
    method EncMembers(entries: seq<Option<Entry>>, keys: seq<bytes>) returns (err: Option<WalkError>, first: bool)
      requires Valid() && forall i :: 0 <= i < |entries| && entries[i].Some? ==> ValInHeap(heap, entries[i].value.val)
      modifies this, visiting
      ensures limit == old(limit)
      ensures match WalkKeys(heap, entries, keys, old(path), limit)
        case MembersFailed(e) => err == Some(e)
        case Members(ms) =>
          err.None? && Valid() && path == old(path) && first == (ms == []) &&
          bw == old(bw) + MembersText(st, ms, |path|)
      decreases limit - depth, 3
    {
      hide MemberText, Distinct, Overflow;
      err := None;
      first := true;
      ghost var ms: seq<Member> := [];
      ghost var here := path;
      var i := 0;
      assert bw == old(bw) + [];
      while i < |keys|
        invariant i <= |keys| && Valid() && path == here && limit == old(limit) && err.None?
        invariant WalkKeys(heap, entries, keys[..i], here, limit) == Members(ms)
        invariant first == (ms == [])
        invariant bw == old(bw) + MembersText(st, ms, |here|)
      {
        WalkKeysStep(heap, entries, keys, i, here, limit);
        var v := Get(entries, keys[i]);
        GetInHeap(heap, entries, keys[i]);
        if !Undef(v) {
          err := EncMember(keys[i], v, first);
          if err.Some? {
            WalkKeysFails(heap, entries, keys, i + 1, here, limit);
            return;
          }
          first := false;
          ghost var m := Member(keys[i], Walk(heap, v, here, limit).doc);
          MembersJoin(st, old(bw), ms, m, |here|);
          ms := ms + [m];
        }
        i := i + 1;
      }
      assert keys[..i] == keys;
    }

    method EncObject(ref: Ref) returns (err: Option<WalkError>)
      requires Valid() && ref in heap && heap[ref].PlainObj?
      modifies this, visiting
      ensures limit == old(limit)
      ensures Serialized(Walk(heap, Object(ref), old(path), limit), err, old(bw), old(path))
      decreases limit - depth, 0
    {
      hide DocText, ElemsText, MembersText, Closing, Overflow, Distinct;
      err := EncObjarrEntry(ref);
      if err.Some? { return; }
      assert NodeValid(heap, heap[ref]);
      var entries := heap[ref].entries;
      var keys := EnumeratedKeys(ref);
      assert entries[..|entries|] == entries;
      WalkKeysAgrees(heap, entries, |entries|, path, limit);
      ghost var w := WalkMembers(heap, entries, path, limit);
      bw := bw + [LCURLY];
      var first;
      err, first := EncMembers(entries, keys);
      if err.Some? { return; }
      EmitClosing(!first, depth - 1, |w.members|);
      bw := bw + [RCURLY];
      EncObjarrExit(ref);
      assert path == old(path);
      assert bw == old(bw) + DocText(st, DObj(w.members), |path|) by { ObjJoin(st, old(bw), w.members, |path|); }
      WalkObj(heap, ref, path, limit);
    }

    // ----- fast path -----

    /** The fast path's own entry check: bounded depth, and a scan of the whole array. */
    method FastEnter(ref: Ref) returns (ok: bool)
      requires Valid() && limit == LOOP_ARRAY
      modifies this`depth, this`path, visiting
      ensures ok == (|old(path)| < LOOP_ARRAY && ref !in old(path))
      ensures ok ==> Valid() && path == old(path) + [ref]
    {
      if depth >= limit { return false; }
      var i := 0;
      while i < depth
        invariant i <= depth
        invariant forall j :: 0 <= j < i ==> path[j] != ref
      {
        if visiting[i] == ref { return false; }
        i := i + 1;
      }
      visiting[depth] := ref;
      depth := depth + 1;
      path := path + [ref];
      return true;
    }

    method FastLeave()
      requires Valid() && path != [] && limit == LOOP_ARRAY
      modifies this`depth, this`path
      ensures Valid() && path == old(path)[..|old(path)| - 1]
    {
      depth := depth - 1;
      path := path[..|path| - 1];
    }

    /** What the fast path must have done for a value that denotes `w`. */
    ghost predicate FastDone(r: FastResult, w: Walked, bw0: bytes, path0: seq<Ref>)
      reads this, visiting
    {
      match r
      case FastAborted => true
      case FastUndefined => w.Absent? && Valid() && path == path0 && bw == bw0
      case FastEmitted => w.Document? && Valid() && path == path0 && bw == bw0 + DocText(st, w.doc, |path0|)
    }

    method FastValue(v: Val) returns (r: FastResult)
      requires Valid() && ValInHeap(heap, v) && limit == LOOP_ARRAY
      modifies this, visiting
      ensures limit == old(limit)
      ensures r.FastAborted? <==> Aborts(heap, v, old(path))
      ensures FastDone(r, Walk(heap, v, old(path), ENC_RECLIMIT), old(bw), old(path))
      decreases limit - depth, 1
    {
      hide Overflow, Distinct;
      r := FastEmitted;
      match v {
        case Undefined => r := FastUndefined;
        case Null => bw := bw + (NULL_TEXT);
        case Bool(b) => bw := bw + (if b then TRUE_TEXT else FALSE_TEXT);
        case Str(s) => EncQuoteString(s, true);
        case Object(ref) => r := FastObject(ref);
        case Opaque => r := FastUndefined;
        case LightFunc => r := FastAborted;
        case Number(n) => bw := bw + (st.conv.text(n));
        case NonFinite => bw := bw + (NULL_TEXT);
      }
    }

    method FastObject(ref: Ref) returns (r: FastResult)
      requires Valid() && ref in heap && limit == LOOP_ARRAY
      modifies this, visiting
      ensures limit == old(limit)
      ensures r.FastAborted? <==> Aborts(heap, Object(ref), old(path))
      ensures FastDone(r, Walk(heap, Object(ref), old(path), ENC_RECLIMIT), old(bw), old(path))
      decreases limit - depth, 0
    {
      hide DocText, ElemsText, MembersText, Closing, Overflow, Distinct;
      var ok := FastEnter(ref);
      if !ok { return FastAborted; }
      assert NodeValid(heap, heap[ref]);
      match heap[ref] {
        case PlainObj(entries) =>
          bw := bw + [LCURLY];
          var aborted, emitted := FastMembers(entries);
          if aborted { return FastAborted; }
          ghost var ms := WalkMembers(heap, entries, path, ENC_RECLIMIT).members;
          FastClose(old(bw) + [LCURLY] + MembersText(st, ms, |path|), emitted, RCURLY, |ms|);
          FastLeave();
          assert path == old(path);
          assert bw == old(bw) + DocText(st, DObj(ms), |path|) by { ObjJoin(st, old(bw), ms, |path|); }
          WalkObj(heap, ref, path, ENC_RECLIMIT);
          return FastEmitted;
        case ArrayObj(slots) =>
          bw := bw + [LBRACKET];
          var aborted, emitted := FastElems(slots);
          if aborted { return FastAborted; }
          ghost var docs := WalkElems(heap, slots, path, ENC_RECLIMIT).docs;
          FastClose(old(bw) + [LBRACKET] + ElemsText(st, docs, |path|), emitted, RBRACKET, |docs|);
          FastLeave();
          assert path == old(path);
          assert bw == old(bw) + DocText(st, DArr(docs), |path|) by { ArrJoin(st, old(bw), docs, |path|); }
          WalkArr(heap, ref, path, ENC_RECLIMIT);
          return FastEmitted;
        case FunctionObj =>
          FastLeave();
          assert path == old(path);
          return FastUndefined;
      }
    }

    /** Take back the trailing comma, if any, and close the brackets. */
    method FastClose(ghost b: bytes, emitted: bool, bracket: byte, ghost count: nat)
      requires depth > 0 && emitted == (count > 0) && bw == b + Separator(count)
      modifies this`bw
      ensures bw == b + Closing(st, count, depth - 1) + [bracket]
    {
      if emitted {
        bw := bw[..|bw| - 1];
      }
      assert bw == b;
      EmitClosing(emitted, depth - 1, count);
      bw := bw + [bracket];
    }

    /** One property: key and colon first, taken back if the value turns out to be undefined. */
    method FastMember(e: Entry) returns (r: FastResult)
      requires Valid() && ValInHeap(heap, e.val) && limit == LOOP_ARRAY
      modifies this, visiting
      ensures limit == old(limit)
      ensures r.FastAborted? <==> Aborts(heap, e.val, old(path))
      ensures var w := Walk(heap, e.val, old(path), ENC_RECLIMIT);
        match r
        case FastAborted => true
        case FastUndefined => w.Absent? && Valid() && path == old(path) && bw == old(bw)
        case FastEmitted =>
          w.Document? && Valid() && path == old(path) &&
          bw == old(bw) + MemberText(st, Member(e.key, w.doc), |path|) + [COMMA]
      decreases limit - depth, 2
    {
      hide Overflow, Distinct, QuoteBody, Indent, Walk, Aborts;
      var prevSize := |bw|;
      EmitIndent(depth);
      EncQuoteString(e.key, true);
      bw := bw + (if st.gap != [] then [COLON, SPACE] else [COLON]);
      r := FastValue(e.val);
      if r.FastUndefined? {
        bw := bw[..prevSize];
      } else if r.FastEmitted? {
        assert old(bw) + [] == old(bw);
        MemberJoin(st, old(bw), [], e.key, Walk(heap, e.val, path, ENC_RECLIMIT).doc, |path|);
        bw := bw + [COMMA];
      }
    }

    method FastMembers(entries: seq<Option<Entry>>) returns (aborted: bool, emitted: bool)
      requires Valid() && limit == LOOP_ARRAY
      requires forall i :: 0 <= i < |entries| && entries[i].Some? ==> ValInHeap(heap, entries[i].value.val)
      modifies this, visiting
      ensures limit == old(limit)
      ensures aborted <==> AbortsMembers(heap, entries, old(path))
      ensures !aborted ==> Valid() && path == old(path)
      ensures var w := WalkMembers(heap, entries, old(path), ENC_RECLIMIT);
        aborted || (
        w.Members? && emitted == (|w.members| > 0) &&
        bw == old(bw) + MembersText(st, w.members, |path|) + Separator(|w.members|))
      decreases limit - depth, 3
    {
      hide MemberText, Distinct, Overflow;
      emitted := false;
      ghost var ms: seq<Member> := [];
      ghost var here := path;
      var i := 0;
      assert bw == old(bw) + [] + [];
      while i < |entries|
        invariant i <= |entries| && Valid() && path == here && limit == old(limit)
        invariant !AbortsMembers(heap, entries[..i], here)
        invariant WalkMembers(heap, entries[..i], here, ENC_RECLIMIT) == Members(ms)
        invariant emitted == (|ms| > 0)
        invariant bw == old(bw) + MembersText(st, ms, |here|) + Separator(|ms|)
      {
        assert entries[..i + 1][..i] == entries[..i];
        if Visible(entries[i]) {
          var r := FastMember(entries[i].value);
          if r.FastAborted? {
            AbortsMembersPrefix(heap, entries, i + 1, here);
            return true, emitted;
          }
          if r.FastEmitted? {
            emitted := true;
            ghost var m := Member(entries[i].value.key, Walk(heap, entries[i].value.val, here, ENC_RECLIMIT).doc);
            MembersJoin(st, old(bw), ms, m, |here|);
            ms := ms + [m];
          }
        }
        i := i + 1;
      }
      assert entries[..i] == entries;
      aborted := false;
    }

    method FastElem(slot: Option<Val>) returns (aborted: bool)
      requires Valid() && limit == LOOP_ARRAY && (slot.Some? ==> ValInHeap(heap, slot.value))
      modifies this, visiting
      ensures limit == old(limit)
      ensures aborted <==> slot.Some? && Aborts(heap, slot.value, old(path))
      ensures !aborted ==> Valid() && path == old(path)
      ensures var w := SlotWalk(heap, slot, old(path), ENC_RECLIMIT);
        aborted || (
        !w.Failed? && bw == old(bw) + ElemText(st, ElemDoc(w), |path|) + [COMMA])
      decreases limit - depth, 2
    {
      hide Overflow, Distinct, Indent, Walk, Aborts;
      EmitIndent(depth);
      ghost var line := bw;
      if slot.None? {
        bw := bw + NULL_TEXT;
      } else {
        var r := FastValue(slot.value);
        if r.FastAborted? { return true; }
        if r.FastUndefined? {
          bw := bw + NULL_TEXT;
        }
      }
      ghost var doc := ElemDoc(SlotWalk(heap, slot, path, ENC_RECLIMIT));
      assert bw == line + DocText(st, doc, |path|);
      ElemJoin(st, old(bw), doc, |path|);
      bw := bw + [COMMA];
      aborted := false;
    }

    method FastElems(slots: seq<Option<Val>>) returns (aborted: bool, emitted: bool)
      requires Valid() && limit == LOOP_ARRAY
      requires forall i :: 0 <= i < |slots| && slots[i].Some? ==> ValInHeap(heap, slots[i].value)
      modifies this, visiting
      ensures limit == old(limit)
      ensures aborted <==> AbortsElems(heap, slots, old(path))
      ensures !aborted ==> Valid() && path == old(path)
      ensures var w := WalkElems(heap, slots, old(path), ENC_RECLIMIT);
        aborted || (
        w.Elems? && emitted == (|w.docs| > 0) &&
        bw == old(bw) + ElemsText(st, w.docs, |path|) + Separator(|w.docs|))
      decreases limit - depth, 3
    {
      hide ElemText, Distinct, Overflow;
      emitted := false;
      ghost var docs: seq<Doc> := [];
      ghost var here := path;
      var i := 0;
      assert bw == old(bw) + [] + [];
      while i < |slots|
        invariant i <= |slots| && Valid() && path == here && limit == old(limit)
        invariant !AbortsElems(heap, slots[..i], here)
        invariant WalkElems(heap, slots[..i], here, ENC_RECLIMIT) == Elems(docs)
        invariant |docs| == i && emitted == (i > 0)
        invariant bw == old(bw) + ElemsText(st, docs, |here|) + Separator(|docs|)
      {
        assert slots[..i + 1][..i] == slots[..i];
        WalkElemsStep(heap, slots, i, here, ENC_RECLIMIT);
        aborted := FastElem(slots[i]);
        if aborted {
          AbortsElemsPrefix(heap, slots, i + 1, here);
          return;
        }
        emitted := true;
        ghost var d := ElemDoc(SlotWalk(heap, slots[i], here, ENC_RECLIMIT));
        ElemsJoin(st, old(bw), docs, d, |here|);
        docs := docs + [d];
        i := i + 1;
      }
      assert slots[..i] == slots;
      aborted := false;
    }

    // ----- JSON.stringify() -----

    /** Serialize `v` into a fresh context, trying the fast path first when it is compiled in: the
        result is the specification's either way. */
    method Stringify(v: Val, useFastPath: bool) returns (r: Stringified)
      requires Valid() && path == [] && bw == [] && ValInHeap(heap, v)
      modifies this, visiting
      ensures r == Expected(heap, st, v)
    {
      hide DocText, Walk, Aborts;
      if useFastPath {
        limit := LOOP_ARRAY;
        var fast := FastValue(v);
        if fast.FastEmitted? {
          assert bw == [] + DocText(st, Walk(heap, v, [], ENC_RECLIMIT).doc, 0);
          return Text(bw);
        }
        // anything else is a failure of the fast path: start again on the slow one
        bw := [];
        depth, path, loop := 0, [], {};
      }
      limit := ENC_RECLIMIT;
      UndefAbsent(v);
      if Undef(v) {
        return UndefinedResult;
      }
      var err := EncValue2(v);
      match err {
        case Some(e) => return Thrown(e);
        case None => return Text(bw);
      }
    }

    lemma UndefAbsent(v: Val)
      requires ValInHeap(heap, v)
      ensures Walk(heap, v, [], ENC_RECLIMIT).Absent? <==> Undef(v)
    {
    }
  }

  /** What an array slot denotes. */
  function SlotWalk(h: Heap, slot: Option<Val>, path: seq<Ref>, limit: nat): Walked
    requires |path| <= limit
  {
    if slot.None? then Absent else Walk(h, slot.value, path, limit)
  }

  function ElemDoc(w: Walked): Doc { if w.Document? then w.doc else DNull }

  lemma WalkElemsStep(h: Heap, slots: seq<Option<Val>>, i: nat, path: seq<Ref>, limit: nat)
    requires |path| <= limit && i < |slots|
    ensures WalkElems(h, slots[..i + 1], path, limit) ==
      match WalkElems(h, slots[..i], path, limit)
      case ElemsFailed(e) => ElemsFailed(e)
      case Elems(docs) =>
        var w := SlotWalk(h, slots[i], path, limit);
        if w.Failed? then ElemsFailed(w.error) else Elems(docs + [ElemDoc(w)])
  {
    assert slots[..i + 1][..i] == slots[..i];
  }

  lemma WalkKeysStep(h: Heap, entries: seq<Option<Entry>>, keys: seq<bytes>, i: nat, path: seq<Ref>, limit: nat)
    requires |path| <= limit && i < |keys|
    ensures WalkKeys(h, entries, keys[..i + 1], path, limit) ==
      match WalkKeys(h, entries, keys[..i], path, limit)
      case MembersFailed(e) => MembersFailed(e)
      case Members(ms) =>
        match Walk(h, Get(entries, keys[i]), path, limit)
        case Failed(e) => MembersFailed(e)
        case Absent => Members(ms)
        case Document(d) => Members(ms + [Member(keys[i], d)])
  {
    assert keys[..i + 1][..i] == keys[..i];
  }

  lemma MemberJoin(st: Style, b: bytes, sep: bytes, key: bytes, doc: Doc, depth: nat)
    ensures b + sep + Indent(st.gap, depth) + Quote(key) + ColonText(st.gap) + DocText(st, doc, depth) ==
      b + sep + MemberText(st, Member(key, doc), depth)
  {
    Regroup(b + sep, Indent(st.gap, depth), Quote(key), ColonText(st.gap), DocText(st, doc, depth));
  }

  lemma Regroup(a: bytes, b: bytes, c: bytes, d: bytes, e: bytes)
    ensures a + b + c + d + e == a + (b + c + d + e)
  {
  }

  lemma QuoteJoin(b: bytes, s: bytes, p: nat)
    requires p < |s|
    ensures var (text, n) := QuoteStep(s[p..]);
      p + n <= |s| && b + QuoteBody(s[p..]) == b + text + QuoteBody(s[p + n..])
  {
    hide QuoteStep;
    var (text, n) := QuoteStep(s[p..]);
    assert s[p..][n..] == s[p + n..];
    Regroup2(b, text, QuoteBody(s[p + n..]));
  }

  /** What is left to write of a chunk that ends at `pNow`. */
  function ChunkLeft(s: bytes, p: nat, pNow: nat): bytes
    requires p <= |s| && pNow <= |s|
  {
    if p < pNow then ChunkText(s[p..], pNow - p) else []
  }

  lemma ChunkJoin(b: bytes, s: bytes, p: nat, pNow: nat)
    requires p < pNow <= |s|
    ensures var (text, n) := QuoteStep(s[p..]);
      p + n <= |s| && b + ChunkLeft(s, p, pNow) == b + text + ChunkLeft(s, p + n, pNow)
  {
    hide QuoteStep;
    var (text, n) := QuoteStep(s[p..]);
    assert s[p..][n..] == s[p + n..];
    Regroup2(b, text, ChunkLeft(s, p + n, pNow));
  }

  lemma NothingLeft(b: bytes, s: bytes)
    ensures ChunkText(s, 0) == [] && b + [] == b
  {
  }

  lemma ElemJoin(st: Style, b: bytes, doc: Doc, depth: nat)
    ensures b + Indent(st.gap, depth) + DocText(st, doc, depth) == b + ElemText(st, doc, depth)
  {
    Regroup2(b, Indent(st.gap, depth), DocText(st, doc, depth));
  }

  lemma ElemsJoin(st: Style, b: bytes, docs: seq<Doc>, d: Doc, depth: nat)
    ensures b + ElemsText(st, docs, depth) + Separator(|docs|) + ElemText(st, d, depth) ==
      b + ElemsText(st, docs + [d], depth)
  {
    ElemsTextSnoc(st, docs, d, depth);
    Regroup3(b, ElemsText(st, docs, depth), Separator(|docs|), ElemText(st, d, depth));
  }

  lemma MembersJoin(st: Style, b: bytes, ms: seq<Member>, m: Member, depth: nat)
    ensures b + MembersText(st, ms, depth) + Separator(|ms|) + MemberText(st, m, depth) ==
      b + MembersText(st, ms + [m], depth)
  {
    MembersTextSnoc(st, ms, m, depth);
    Regroup3(b, MembersText(st, ms, depth), Separator(|ms|), MemberText(st, m, depth));
  }

  lemma WalkArr(h: Heap, ref: Ref, path: seq<Ref>, limit: nat)
    requires |path| < limit && ref in h && h[ref].ArrayObj? && ref !in path
    requires WalkElems(h, h[ref].slots, path + [ref], limit).Elems?
    ensures Walk(h, Object(ref), path, limit) == Document(DArr(WalkElems(h, h[ref].slots, path + [ref], limit).docs))
  {
  }

  lemma WalkObj(h: Heap, ref: Ref, path: seq<Ref>, limit: nat)
    requires |path| < limit && ref in h && h[ref].PlainObj? && ref !in path
    requires WalkMembers(h, h[ref].entries, path + [ref], limit).Members?
    ensures Walk(h, Object(ref), path, limit) == Document(DObj(WalkMembers(h, h[ref].entries, path + [ref], limit).members))
  {
  }

  lemma ArrJoin(st: Style, b: bytes, docs: seq<Doc>, depth: nat)
    ensures b + [LBRACKET] + ElemsText(st, docs, depth + 1) + Closing(st, |docs|, depth) + [RBRACKET] ==
      b + DocText(st, DArr(docs), depth)
  {
    Regroup(b, [LBRACKET], ElemsText(st, docs, depth + 1), Closing(st, |docs|, depth), [RBRACKET]);
  }

  lemma ObjJoin(st: Style, b: bytes, ms: seq<Member>, depth: nat)
    ensures b + [LCURLY] + MembersText(st, ms, depth + 1) + Closing(st, |ms|, depth) + [RCURLY] ==
      b + DocText(st, DObj(ms), depth)
  {
    Regroup(b, [LCURLY], MembersText(st, ms, depth + 1), Closing(st, |ms|, depth), [RCURLY]);
  }

  lemma Regroup2(a: bytes, b: bytes, c: bytes)
    ensures a + b + c == a + (b + c)
  {
  }

  lemma Regroup3(a: bytes, b: bytes, c: bytes, d: bytes)
    ensures a + b + c + d == a + (b + c + d)
  {
  }

  lemma {:induction false} GetInHeap(h: Heap, entries: seq<Option<Entry>>, key: bytes)
    requires forall i :: 0 <= i < |entries| && entries[i].Some? ==> ValInHeap(h, entries[i].value.val)
    ensures ValInHeap(h, Get(entries, key))
  {
    if entries != [] { GetInHeap(h, entries[1..], key); }
  }

  lemma OverflowMember(path: seq<Ref>, target: Ref)
    ensures target in Overflow(path) <==> exists i :: LOOP_ARRAY <= i < |path| && path[i] == target
  {
    if |path| > LOOP_ARRAY {
      forall i | LOOP_ARRAY <= i < |path| ensures path[i] in path[LOOP_ARRAY..] {
        assert path[i] == path[LOOP_ARRAY..][i - LOOP_ARRAY];
      }
    }
  }

  lemma OverflowSnoc(path: seq<Ref>, target: Ref)
    ensures Overflow(path + [target]) == Overflow(path) + (if |path| >= LOOP_ARRAY then {target} else {})
  {
    if |path| >= LOOP_ARRAY {
      assert (path + [target])[LOOP_ARRAY..] == path[LOOP_ARRAY..] + [target];
    }
  }

  lemma RepeatZero(s: bytes)
    ensures Repeat(s, 0) == []
  {
  }

  lemma RepeatOnce(s: bytes)
    ensures Repeat(s, 1) == s
  {
    assert Repeat(s, 0) == [];
  }

  lemma RepeatTake(s: bytes, n: nat, k: nat)
    requires k <= n
    ensures |s| * k <= |s| * n && Repeat(s, n)[..|s| * k] == Repeat(s, k)
  {
    RepeatSum(s, k, n - k);
  }

  /** Copying the first `k` of `done` indents behind them gives `done + k` indents. */
  lemma CopyCopies(head: bytes, gap: bytes, done: nat, k: nat)
    requires k <= done
    ensures var b := head + Repeat(gap, done);
      |head| + |gap| * k <= |b| && b + b[|head|..|head| + |gap| * k] == head + Repeat(gap, done + k)
  {
    RepeatTake(gap, done, k);
    var b := head + Repeat(gap, done);
    assert b[|head|..|head| + |gap| * k] == Repeat(gap, k);
    RepeatSum(gap, done, k);
    Regroup2(head, Repeat(gap, done), Repeat(gap, k));
  }

  lemma Times(a: int, b: int, c: int)
    ensures a * (b - c) == a * b - a * c && a * (b + c) == a * b + a * c
  {
  }

  lemma Compare(a: int, b: int, c: int)
    requires a > 0
    ensures a * c >= a * b <==> c >= b
  {
  }
}
