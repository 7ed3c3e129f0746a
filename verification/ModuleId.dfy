/** CommonJS module identifiers: resolving relative terms into a canonical identifier. */
module ModuleId {
  import opened Bytes

  const SLASH: byte := 0x2f
  const PERIOD: byte := 0x2e

  const ID_LIMIT := 256

  /** The C string in a byte string: what precedes the first NUL. */
  function CString(s: bytes): (r: bytes)
    ensures 0 !in r && r <= s && (|r| < |s| ==> s[|r|] == 0)
  {
    if s == [] || s[0] == 0 then [] else [s[0]] + CString(s[1..])
  }

  // ----- terms -----

  function FirstSlash(s: bytes): (k: nat)
    ensures k <= |s| && (forall i :: 0 <= i < k ==> s[i] != SLASH) && (k < |s| ==> s[k] == SLASH)
  {
    if s == [] || s[0] == SLASH then 0 else 1 + FirstSlash(s[1..])
  }

  function SkipSlashes(s: bytes): (r: bytes)
    ensures |r| <= |s|
  {
    if s != [] && s[0] == SLASH then SkipSlashes(s[1..]) else s
  }

  /** The terms between runs of slashes; a leading or trailing run leaves an empty term. */
  function Terms(s: bytes): (r: seq<bytes>)
    ensures r != []
    decreases |s|
  {
    var k := FirstSlash(s);
    if k == |s| then [s] else [s[..k]] + Terms(SkipSlashes(s[k..]))
  }

  const DOT: bytes := [PERIOD]
  const DOTDOT: bytes := [PERIOD, PERIOD]

  predicate Plain(t: bytes) { t != [] && t[0] != PERIOD && SLASH !in t }

  /** Walk the terms with a stack of names: `.` stays, `..` drops a name, which must exist, the last term
      has to be a name. */
  function Walk(terms: seq<bytes>, stack: seq<bytes>): (r: Option<seq<bytes>>)
    requires terms != []
    ensures r.Some? ==> r.value != []
  {
    var t := terms[0];
    if |terms| == 1 then (if Plain(t) then Some(stack + [t]) else None)
    else if t == DOT then Walk(terms[1..], stack)
    else if t == DOTDOT then (if stack == [] then None else Walk(terms[1..], stack[..|stack| - 1]))
    else if Plain(t) then Walk(terms[1..], stack + [t])
    else None
  }

  /** Names, each followed by a slash. */
  function Dirs(stack: seq<bytes>): bytes {
    if stack == [] then [] else Dirs(stack[..|stack| - 1]) + stack[|stack| - 1] + [SLASH]
  }

  /** Names joined by slashes. */
  function Join(names: seq<bytes>): bytes
    requires names != []
  {
    Dirs(names[..|names| - 1]) + names[|names| - 1]
  }

  predicate AllPlain(names: seq<bytes>) { forall n :: n in names ==> Plain(n) }

  /** The text that is resolved: the identifier itself, or behind the current module's directory. */
  function Input(req: bytes, mod: Option<bytes>): bytes {
    if mod.Some? && req != [] && req[0] == PERIOD then mod.value + [SLASH, PERIOD, PERIOD, SLASH] + req else req
  }

  function Resolve(req: bytes, mod: Option<bytes>): Option<bytes> {
    var s := Input(req, mod);
    if |s| + 1 >= ID_LIMIT then None else
    match Walk(Terms(s), [])
    case None => None
    case Some(names) => Some(Join(names))
  }

  // ----- properties -----

  lemma {:induction false} WalkPlain(terms: seq<bytes>, stack: seq<bytes>)
    requires terms != [] && AllPlain(stack)
    ensures Walk(terms, stack).Some? ==> AllPlain(Walk(terms, stack).value)
  {
    hide Plain;
    if |terms| > 1 {
      if terms[0] == DOT {
        WalkPlain(terms[1..], stack);
      } else if terms[0] == DOTDOT {
        if stack != [] { WalkPlain(terms[1..], stack[..|stack| - 1]); }
      } else if Plain(terms[0]) {
        WalkPlain(terms[1..], stack + [terms[0]]);
      }
    }
  }

  lemma FirstSlashIs(a: bytes, s: bytes)
    requires SLASH !in a
    ensures FirstSlash(a + ([SLASH] + s)) == |a| && FirstSlash(a) == |a|
  {
    var t := a + ([SLASH] + s);
    assert t[|a|] == SLASH;
    forall i | 0 <= i < |a| ensures a[i] != SLASH && t[i] == a[i] {
      assert a[i] in a;
    }
  }

  lemma SkipOne(s: bytes)
    requires s != [] && s[0] != SLASH
    ensures SkipSlashes([SLASH] + s) == s
  {
    assert ([SLASH] + s)[1..] == s;
  }

  lemma TermsFirst(a: bytes, s: bytes)
    requires SLASH !in a && s != [] && s[0] != SLASH
    ensures Terms(a + ([SLASH] + s)) == [a] + Terms(s)
  {
    FirstSlashIs(a, s);
    SkipOne(s);
    var t := a + ([SLASH] + s);
    assert t[..|a|] == a && t[|a|..] == [SLASH] + s;
  }

  lemma TermsLast(a: bytes)
    requires SLASH !in a
    ensures Terms(a) == [a]
  {
    FirstSlashIs(a, []);
  }

  /** Names in front of the terms of `s`. */
  lemma {:induction false} TermsOfDirs(names: seq<bytes>, s: bytes)
    requires AllPlain(names) && s != [] && s[0] != SLASH
    ensures Terms(Dirs(names) + s) == names + Terms(s)
  {
    hide Terms;
    if names == [] {
      assert Dirs(names) + s == s && names + Terms(s) == Terms(s);
    } else {
      var init, last := names[..|names| - 1], names[|names| - 1];
      var more := last + ([SLASH] + s);
      assert Dirs(names) + s == Dirs(init) + more;
      assert Plain(last);
      TermsOfDirs(init, more);
      TermsFirst(last, s);
      assert init + ([last] + Terms(s)) == names + Terms(s);
    }
  }

  /** Splitting a joined identifier gives its names back. */
  lemma TermsOfJoin(names: seq<bytes>)
    requires names != [] && AllPlain(names)
    ensures Terms(Join(names)) == names
  {
    var init, last := names[..|names| - 1], names[|names| - 1];
    assert Plain(last);
    TermsOfDirs(init, last);
    TermsLast(last);
    assert init + [last] == names;
  }

  lemma {:induction false} WalkNames(names: seq<bytes>, stack: seq<bytes>)
    requires names != [] && AllPlain(names)
    ensures Walk(names, stack) == Some(stack + names)
  {
    hide Plain;
    assert Plain(names[0]);
    NoDots(names[0]);
    if |names| > 1 {
      WalkNames(names[1..], stack + [names[0]]);
      assert stack + [names[0]] + names[1..] == stack + names;
    } else {
      assert [names[0]] == names;
    }
  }

  lemma NoDots(t: bytes)
    ensures Plain(t) ==> t != DOT && t != DOTDOT
  {
  }

  /** A resolved identifier consists of names only: no term is empty, starts with a period or contains a
      slash, and it fits the buffer. */
  lemma ResolvedWellFormed(req: bytes, mod: Option<bytes>)
    ensures Resolve(req, mod).Some? ==> AllPlain(Terms(Resolve(req, mod).value))
  {
    hide Plain;
    var s := Input(req, mod);
    WalkPlain(Terms(s), []);
    if Resolve(req, mod).Some? { TermsOfJoin(Walk(Terms(s), []).value); }
  }

  lemma SkipShortens(s: bytes)
    requires s != [] && s[0] == SLASH
    ensures |SkipSlashes(s)| < |s|
  {
  }

  /** Walking never makes the output longer than the stack written so far and the input left. */
  lemma {:induction false} WalkLength(s: bytes, stack: seq<bytes>)
    ensures Walk(Terms(s), stack).Some? ==> |Join(Walk(Terms(s), stack).value)| <= |Dirs(stack)| + |s|
    decreases |s|
  {
    hide Plain;
    var k := FirstSlash(s);
    if k == |s| {
      assert (stack + [s])[..|stack|] == stack;
    } else {
      var t, rest := s[..k], SkipSlashes(s[k..]);
      SkipShortens(s[k..]);
      assert Terms(s)[0] == t && Terms(s)[1..] == Terms(rest);
      if t == DOT {
        WalkLength(rest, stack);
      } else if t == DOTDOT {
        if stack != [] { WalkLength(rest, stack[..|stack| - 1]); }
      } else if Plain(t) {
        WalkLength(rest, stack + [t]);
        assert (stack + [t])[..|stack|] == stack;
      }
    }
  }

  /** Resolving a resolved identifier changes nothing, whatever the current module. */
  lemma ResolveIdempotent(req: bytes, mod: Option<bytes>, mod2: Option<bytes>)
    ensures Resolve(req, mod).Some? ==> Resolve(Resolve(req, mod).value, mod2) == Resolve(req, mod)
  {
    hide Walk, Terms, Dirs;
    var s := Input(req, mod);
    WalkPlain(Terms(s), []);
    WalkLength(s, []);
    NoDirs();
    if Resolve(req, mod).Some? {
      var names := Walk(Terms(s), []).value;
      TermsOfJoin(names);
      WalkNames(names, []);
      assert [] + names == names;
      StartsWithName(names);
    }
  }

  lemma NoDirs()
    ensures Dirs([]) == []
  {
  }

  lemma {:induction false} DirsFirst(names: seq<bytes>)
    requires names != [] && AllPlain(names)
    ensures Dirs(names) != [] && Dirs(names)[0] != PERIOD
  {
    var init, last := names[..|names| - 1], names[|names| - 1];
    assert Plain(last);
    if init != [] { DirsFirst(init); } else { NoDirs(); }
  }

  lemma StartsWithName(names: seq<bytes>)
    requires names != [] && AllPlain(names)
    ensures Join(names) != [] && Join(names)[0] != PERIOD
  {
    hide Dirs;
    var init, last := names[..|names| - 1], names[|names| - 1];
    assert Plain(last);
    if init != [] { DirsFirst(init); } else { NoDirs(); }
  }

  lemma {:induction false} WalkPrefix(names: seq<bytes>, rest: seq<bytes>, stack: seq<bytes>)
    requires AllPlain(names) && rest != []
    ensures Walk(names + rest, stack) == Walk(rest, stack + names)
  {
    hide Plain;
    if names == [] {
      assert names + rest == rest && stack + names == stack;
    } else {
      assert Plain(names[0]);
      NoDots(names[0]);
      assert (names + rest)[1..] == names[1..] + rest;
      WalkPrefix(names[1..], rest, stack + [names[0]]);
      assert stack + [names[0]] + names[1..] == stack + names;
    }
  }

  /** A relative identifier is resolved from the directory of the current module: its identifier without
      the last name. */
  lemma RelativeToDirectory(req: bytes, names: seq<bytes>)
    requires names != [] && AllPlain(names) && req != [] && req[0] == PERIOD
    ensures Walk(Terms(Input(req, Some(Join(names)))), []) == Walk(Terms(req), names[..|names| - 1])
  {
    hide Terms, Dirs, Plain, Walk, AllPlain;
    var up := DOTDOT + ([SLASH] + req);
    assert Input(req, Some(Join(names))) == Dirs(names) + up by { DirsJoin(names); }
    TermsOfDirs(names, up);
    TermsFirst(DOTDOT, req);
    WalkPrefix(names, [DOTDOT] + Terms(req), []);
    assert [] + names == names;
    WalkUp(Terms(req), names);
  }

  lemma WalkUp(terms: seq<bytes>, stack: seq<bytes>)
    requires terms != [] && stack != []
    ensures Walk([DOTDOT] + terms, stack) == Walk(terms, stack[..|stack| - 1])
  {
    assert ([DOTDOT] + terms)[1..] == terms;
  }

  lemma DirsJoin(names: seq<bytes>)
    requires names != []
    ensures Dirs(names) == Join(names) + [SLASH]
  {
  }

  // ----- one term of a walk -----

  lemma NameHasNoSlash(t: bytes)
    requires Plain(t)
    ensures t != [] && forall i :: 0 <= i < |t| ==> t[i] != SLASH
  {
    forall i | 0 <= i < |t| ensures t[i] != SLASH { assert t[i] in t; }
  }

  lemma DirsEnd(names: seq<bytes>)
    ensures names == [] ==> Dirs(names) == []
    ensures names != [] ==> Dirs(names) != [] && Dirs(names)[|Dirs(names)| - 1] == SLASH
  {
  }

  lemma PlainMore(names: seq<bytes>, t: bytes)
    ensures AllPlain([])
    ensures AllPlain(names) && Plain(t) ==> AllPlain(names + [t])
  {
    hide Plain;
  }

  lemma PlainLess(names: seq<bytes>)
    requires AllPlain(names) && names != []
    ensures AllPlain(names[..|names| - 1])
  {
    hide Plain;
  }

  lemma TermsAt(s: bytes, k: nat)
    requires k < |s| && s[k] == SLASH && forall i :: 0 <= i < k ==> s[i] != SLASH
    ensures Terms(s) == [s[..k]] + Terms(SkipSlashes(s[k + 1..]))
  {
    assert FirstSlash(s) == k by { FirstSlashFound(s, k); }
    assert s[k..][1..] == s[k + 1..];
  }

  lemma {:induction false} FirstSlashFound(s: bytes, k: nat)
    requires k < |s| && s[k] == SLASH && forall i :: 0 <= i < k ==> s[i] != SLASH
    ensures FirstSlash(s) == k
  {
    if k > 0 {
      assert forall i :: 0 <= i < k - 1 ==> s[1..][i] == s[i + 1];
      FirstSlashFound(s[1..], k - 1);
    }
  }

  lemma WalkEmpty(s: bytes, stack: seq<bytes>)
    requires s == [] || s[0] == SLASH
    ensures Walk(Terms(s), stack) == None
  {
    if s != [] { TermsAt(s, 0); }
  }

  lemma WalkDot(s: bytes, stack: seq<bytes>)
    requires |s| > 1 && s[0] == PERIOD && s[1] == SLASH
    ensures Walk(Terms(s), stack) == Walk(Terms(SkipSlashes(s[2..])), stack)
  {
    TermsAt(s, 1);
    assert s[..1] == DOT;
  }

  lemma WalkDotDot(s: bytes, stack: seq<bytes>)
    requires |s| > 2 && s[0] == PERIOD && s[1] == PERIOD && s[2] == SLASH
    ensures Walk(Terms(s), stack) ==
      if stack == [] then None else Walk(Terms(SkipSlashes(s[3..])), stack[..|stack| - 1])
  {
    TermsAt(s, 2);
    assert s[..2] == DOTDOT;
  }

  lemma WalkBadDot(s: bytes, stack: seq<bytes>)
    requires |s| > 0 && s[0] == PERIOD && !(|s| > 1 && s[1] == SLASH) && !(|s| > 2 && s[1] == PERIOD && s[2] == SLASH)
    ensures Walk(Terms(s), stack) == None
  {
    var k := FirstSlash(s);
    if k < |s| {
      assert s[..k][0] == PERIOD;
      if k == 2 { assert s[..k][1] == s[1]; }
    }
  }

  lemma WalkName(s: bytes, stack: seq<bytes>)
    requires s != [] && s[0] != PERIOD && s[0] != SLASH
    ensures var k := FirstSlash(s);
      k > 0 && Plain(s[..k]) && Dirs(stack + [s[..k]]) == Dirs(stack) + s[..k] + [SLASH]
    ensures var k := FirstSlash(s); k == |s| ==> Walk(Terms(s), stack) == Some(stack + [s]) && Join(stack + [s]) == Dirs(stack) + s
    ensures var k := FirstSlash(s); k < |s| ==> Walk(Terms(s), stack) == Walk(Terms(SkipSlashes(s[k + 1..])), stack + [s[..k]])
  {
    var k := FirstSlash(s);
    var t := s[..k];
    assert t[0] == s[0];
    assert SLASH !in t;
    assert (stack + [t])[..|stack|] == stack;
    if k == |s| {
      assert t == s;
    } else {
      TermsAt(s, k);
      NoDots(t);
    }
  }

  // ----- the same in literal characters, on text -----

  /** What is in front of the last name. */
  function Above(out: bytes): (r: bytes)
    ensures |r| <= |out|
  {
    if out == [] || out[|out| - 1] == '/' as int then out else Above(out[..|out| - 1])
  }

  function NameLength(s: bytes): (k: nat)
    ensures k <= |s|
  {
    if s == [] || s[0] == '/' as int then 0 else 1 + NameLength(s[1..])
  }

  function PastSlashes(s: bytes): (r: bytes)
    ensures |r| <= |s|
  {
    if s != [] && s[0] == '/' as int then PastSlashes(s[1..]) else s
  }

  /** `s` read from the left: a name is appended to `out` with one slash, `./` is dropped, `../` drops the last name
      of `out`, which has to have one.  The last thing is a name, and a name does not start with a period. */
  function Rewrite(s: bytes, out: bytes): Option<bytes>
    decreases |s|
  {
    if s == [] || s[0] == '/' as int then None
    else if |s| > 1 && s[..2] == ['.' as int, '/' as int] then Rewrite(PastSlashes(s[2..]), out)
    else if |s| > 2 && s[..3] == ['.' as int, '.' as int, '/' as int] then
      if out == [] then None else Rewrite(PastSlashes(s[3..]), Above(out[..|out| - 1]))
    else if s[0] == '.' as int then None
    else
      var k := NameLength(s);
      if k == |s| then Some(out + s) else Rewrite(PastSlashes(s[k + 1..]), out + s[..k] + ['/' as int])
  }

  /** Resolution in these terms.  An identifier with a period in front is resolved behind the current module and a
      step up; 254 bytes are the most that fit. */
  lemma ResolveLiteral(req: bytes, mod: Option<bytes>)
    ensures var s := if mod.Some? && req != [] && req[0] == '.' as int
          then mod.value + ['/' as int, '.' as int, '.' as int, '/' as int] + req else req;
      Resolve(req, mod) == if |s| <= 254 then Rewrite(s, []) else None
  {
    hide Rewrite, Terms, Walk, Dirs;
    NoDirs();
    RewriteWalks(Input(req, mod), []);
  }

  /** The names joined, if there are any. */
  function Joined(names: Option<seq<bytes>>): Option<bytes> {
    match names
    case None => None
    case Some(ns) => if ns == [] then None else Some(Join(ns))
  }

  lemma {:induction false} RewriteWalks(s: bytes, stack: seq<bytes>)
    requires AllPlain(stack)
    ensures Rewrite(s, Dirs(stack)) == Joined(Walk(Terms(s), stack))
    decreases |s|
  {
    hide Terms, Walk, Dirs, Join, Plain, FirstSlash, PastSlashes, SkipSlashes, NameLength, AllPlain, Rewrite;
    RewriteStep(s, Dirs(stack));
    DirsEnd(stack);
    SameNames(s);
    if s == [] || s[0] == SLASH {
      WalkEmpty(s, stack);
    } else if |s| > 1 && s[0] == PERIOD && s[1] == SLASH {
      WalkDot(s, stack);
      SameNames(s[2..]);
      RewriteWalks(PastSlashes(s[2..]), stack);
    } else if |s| > 2 && s[0] == PERIOD && s[1] == PERIOD && s[2] == SLASH {
      WalkDotDot(s, stack);
      SameNames(s[3..]);
      if stack != [] {
        PlainLess(stack);
        LastDropped(stack);
        RewriteWalks(PastSlashes(s[3..]), stack[..|stack| - 1]);
      }
    } else if s[0] == PERIOD {
      WalkBadDot(s, stack);
    } else {
      var k := FirstSlash(s);
      WalkName(s, stack);
      if k < |s| {
        SameNames(s[k + 1..]);
        PlainMore(stack, s[..k]);
        RewriteWalks(PastSlashes(s[k + 1..]), stack + [s[..k]]);
      }
    }
  }

  lemma RewriteStep(s: bytes, out: bytes)
    ensures s == [] || s[0] == SLASH ==> Rewrite(s, out) == None
    ensures |s| > 1 && s[0] == PERIOD && s[1] == SLASH ==> Rewrite(s, out) == Rewrite(PastSlashes(s[2..]), out)
    ensures |s| > 2 && s[0] == PERIOD && s[1] == PERIOD && s[2] == SLASH ==>
              (Rewrite(s, out) == if out == [] then None else Rewrite(PastSlashes(s[3..]), Above(out[..|out| - 1])))
    ensures s != [] && s[0] == PERIOD && !(|s| > 1 && s[1] == SLASH) && !(|s| > 2 && s[1] == PERIOD && s[2] == SLASH) ==>
              Rewrite(s, out) == None
    ensures s != [] && s[0] != PERIOD && s[0] != SLASH && NameLength(s) == |s| ==> Rewrite(s, out) == Some(out + s)
    ensures s != [] && s[0] != PERIOD && s[0] != SLASH && NameLength(s) < |s| ==>
              Rewrite(s, out) == Rewrite(PastSlashes(s[NameLength(s) + 1..]), out + s[..NameLength(s)] + ['/' as int])
  {
    hide PastSlashes, Above, NameLength;
  }

  lemma {:induction false} SameNames(s: bytes)
    ensures NameLength(s) == FirstSlash(s) && SkipSlashes(s) == PastSlashes(s)
  {
    if s != [] { SameNames(s[1..]); }
  }

  lemma LastDropped(stack: seq<bytes>)
    requires stack != [] && AllPlain(stack)
    ensures Dirs(stack) != [] && Above(Dirs(stack)[..|Dirs(stack)| - 1]) == Dirs(stack[..|stack| - 1])
  {
    hide Plain;
    var init, last := stack[..|stack| - 1], stack[|stack| - 1];
    assert Plain(last);
    NameHasNoSlash(last);
    DirsEnd(init);
    assert Dirs(stack)[..|Dirs(stack)| - 1] == Dirs(init) + last;
    AboveName(Dirs(init), last);
  }

  lemma {:induction false} AboveName(s: bytes, name: bytes)
    requires s == [] || s[|s| - 1] == '/' as int
    requires forall i :: 0 <= i < |name| ==> name[i] != '/' as int
    ensures Above(s + name) == s
    decreases |name|
  {
    if name == [] {
      assert s + name == s;
    } else {
      assert (s + name)[..|s + name| - 1] == s + name[..|name| - 1];
      AboveName(s, name[..|name| - 1]);
    }
  }

  // ----- the resolver -----

  /** Input and output of a resolution, with a cursor into each. */
  class Resolver {
    const bufIn: array<byte>
    const bufOut: array<byte>
    var p: nat
    var q: nat

    constructor ()
      ensures fresh(bufIn) && fresh(bufOut) && bufIn != bufOut && bufIn.Length == bufOut.Length == ID_LIMIT
    {
      bufIn := new byte[ID_LIMIT](_ => 0);
      bufOut := new byte[ID_LIMIT](_ => 0);
      p, q := 0, 0;
    }

    /** `s`, NUL terminated, is in the input buffer. */
    ghost predicate Holds(s: bytes)
      reads bufIn
    {
      |s| < bufIn.Length && bufIn[..|s|] == s && bufIn[|s|] == 0 && 0 !in s
    }

    /** The cursor has passed all of `s` but `rest`; the output holds `out` and has not outgrown the input read. */
    ghost predicate At(s: bytes, rest: bytes, out: bytes)
      reads this, bufIn, bufOut
    {
      && Holds(s) && bufOut.Length >= bufIn.Length && bufOut != bufIn
      && p <= |s| && rest == s[p..]
      && q <= p && out == bufOut[..q]
    }

    method SetInput(s: bytes)
      requires |s| + 1 < bufIn.Length && 0 !in s
      modifies bufIn
      ensures Holds(s)
    {
      var i := 0;
      while i < |s|
        invariant i <= |s| && bufIn[..i] == s[..i]
      {
        bufIn[i] := s[i];
        i := i + 1;
      }
      bufIn[i] := 0;
    }

    method EatDupSlashes(ghost s: bytes, ghost rest: bytes, ghost out: bytes)
      requires At(s, rest, out)
      modifies this`p
      ensures At(s, SkipSlashes(rest), out)
    {
      ghost var r := rest;
      while true
        invariant At(s, r, out) && SkipSlashes(r) == SkipSlashes(rest)
        decreases |r|
      {
        Peek(s, r, out);
        var c := bufIn[p];
        if c != SLASH {
          break;
        }
        p := p + 1;
        r := r[1..];
      }
    }

    /** The byte under the cursor. */
    lemma Peek(s: bytes, rest: bytes, out: bytes)
      requires At(s, rest, out)
      ensures p < bufIn.Length && bufIn[p] == if rest == [] then 0 else rest[0]
      ensures rest != [] ==> rest[0] != 0 && At(s, rest, out)
      ensures rest != [] && |rest| > 1 ==> rest[1] != 0 && bufIn[p + 1] == rest[1]
      ensures |rest| == 1 ==> bufIn[p + 1] == 0
    {
      assert forall i :: 0 <= i < |s| ==> s[i] in s && bufIn[..|s|][i] == s[i];
    }

    /** Write one byte. */
    method Put(c: byte, ghost s: bytes, ghost out: bytes)
      requires Holds(s) && bufOut != bufIn && q < bufOut.Length && bufOut[..q] == out
      modifies this`q, bufOut
      ensures Holds(s) && q == old(q) + 1 && bufOut[..q] == out + [c]
    {
      bufOut[q] := c;
      q := q + 1;
    }

    /** Copy a name, and the slash behind it unless it is the last term. */
    method CopyTerm(ghost s: bytes, ghost rest: bytes, ghost out: bytes) returns (last: bool)
      requires At(s, rest, out) && rest != [] && rest[0] != SLASH
      modifies this, bufOut
      ensures last <==> FirstSlash(rest) == |rest|
      ensures last ==> q <= bufOut.Length && bufOut[..q] == out + rest
      ensures !last ==> At(s, rest[FirstSlash(rest) + 1..], out + rest[..FirstSlash(rest)] + [SLASH])
    {
      hide FirstSlash, Holds;
      ghost var p0 := p;
      ghost var j, k := 0, FirstSlash(rest);
      NameStarts(rest);
      HoldsSize(s);
      InputAt(s, p);
      var c := bufIn[p];
      p := p + 1;
      assert out + rest[..0] == out;
      while true
        invariant 0 <= j < k <= |rest| && p == p0 + j + 1 && c == rest[j]
        invariant Holds(s) && q == |out| + j < p <= |s| && bufOut[..q] == out + rest[..j]
        decreases |rest| - j
      {
        Put(c, s, out + rest[..j]);
        AppendOne(out, rest, j);
        j := j + 1;
        InputAt(s, p);
        c := bufIn[p];
        p := p + 1;
        if c == 0 {
          assert rest[..j] == rest;
          return true;
        } else if c == SLASH {
          Put(SLASH, s, out + rest[..j]);
          return false;
        }
      }
    }

    lemma NameStarts(rest: bytes)
      requires rest != [] && rest[0] != SLASH
      ensures FirstSlash(rest) > 0
    {
    }

    lemma HoldsSize(s: bytes)
      requires Holds(s)
      ensures |s| < bufIn.Length
    {
    }

    lemma AppendOne(out: bytes, rest: bytes, j: nat)
      requires j < |rest|
      ensures out + rest[..j] + [rest[j]] == out + rest[..j + 1]
    {
    }

    /** The input byte by byte, its NUL included. */
    lemma InputAt(s: bytes, i: nat)
      requires Holds(s) && i <= |s|
      ensures bufIn[i] == (if i == |s| then 0 else s[i]) && (i < |s| ==> s[i] != 0)
    {
      if i < |s| { assert bufIn[..|s|][i] == s[i] && s[i] in s; }
    }

    /** Drop the last name of the output. */
    method Backtrack(ghost s: bytes, ghost rest: bytes, ghost stack: seq<bytes>)
      requires At(s, rest, Dirs(stack)) && stack != [] && AllPlain(stack)
      modifies this`q
      ensures At(s, rest, Dirs(stack[..|stack| - 1]))
    {
      hide Plain;
      ghost var out, init, last := Dirs(stack), stack[..|stack| - 1], stack[|stack| - 1];
      ghost var d := |Dirs(init)|;
      assert Plain(last);
      NameHasNoSlash(last);
      DirsEnd(init);
      q := q - 1;
      while true
        invariant d <= q <= d + |last| && q < |out| && bufOut[..|out|] == out
        decreases q
      {
        if q == 0 {
          break;
        }
        assert bufOut[q - 1] == out[q - 1];
        assert out[q - 1] == if q > d then last[q - 1 - d] else Dirs(init)[q - 1];
        if bufOut[q - 1] == SLASH {
          break;
        }
        q := q - 1;
      }
      assert bufOut[..q] == out[..d] == Dirs(init);
    }

    /** The term '..', its periods eaten: go back by one name, or fail if there is none. */
    method DotDotTerm(ghost s: bytes, ghost rest: bytes, ghost stack: seq<bytes>) returns (ok: bool)
      requires |rest| > 2 && rest[2] == SLASH && At(s, rest[2..], Dirs(stack)) && AllPlain(stack)
      modifies this`p, this`q
      ensures ok <==> stack != []
      ensures ok ==> At(s, SkipSlashes(rest[3..]), Dirs(stack[..|stack| - 1]))
    {
      hide AllPlain, Dirs;
      p := p + 1;
      DirsEnd(stack);
      if q == 0 {
        return false;
      }
      assert rest[2..][1..] == rest[3..];
      Backtrack(s, rest[3..], stack);
      EatDupSlashes(s, rest[3..], Dirs(stack[..|stack| - 1]));
      ok := true;
    }

    /** A name, with the slashes behind it. */
    method NameTerm(ghost s: bytes, ghost rest: bytes, ghost stack: seq<bytes>) returns (last: bool)
      requires At(s, rest, Dirs(stack)) && rest != [] && rest[0] != SLASH && rest[0] != PERIOD
      modifies this, bufOut
      ensures last <==> FirstSlash(rest) == |rest|
      ensures last ==> q <= bufOut.Length && bufOut[..q] == Dirs(stack) + rest
      ensures !last ==> At(s, SkipSlashes(rest[FirstSlash(rest) + 1..]), Dirs(stack + [rest[..FirstSlash(rest)]]))
    {
      hide Dirs, Walk, Terms, Join, Plain;
      WalkName(rest, stack);
      last := CopyTerm(s, rest, Dirs(stack));
      if !last {
        ghost var k := FirstSlash(rest);
        EatDupSlashes(s, rest[k + 1..], Dirs(stack) + rest[..k] + [SLASH]);
      }
    }

    /** A term that starts with a period. */
    method DotTerm(ghost s: bytes, ghost rest: bytes, ghost stack: seq<bytes>) returns (ok: bool, ghost rest2: bytes, ghost stack2: seq<bytes>)
      requires At(s, rest, Dirs(stack)) && AllPlain(stack) && rest != [] && rest[0] == PERIOD
      modifies this`p, this`q
      ensures !ok ==> Walk(Terms(rest), stack) == None
      ensures ok ==> At(s, rest2, Dirs(stack2)) && AllPlain(stack2) && |rest2| < |rest|
      ensures ok ==> Walk(Terms(rest2), stack2) == Walk(Terms(rest), stack)
    {
      hide Plain, Walk, Terms, Dirs, AllPlain, SkipSlashes;
      Peek(s, rest, Dirs(stack));
      rest2, stack2 := rest, stack;
      p := p + 1;
      var c := bufIn[p];
      p := p + 1;
      if c == SLASH {
        WalkDot(rest, stack);
        EatDupSlashes(s, rest[2..], Dirs(stack));
        rest2 := SkipSlashes(rest[2..]);
        return true, rest2, stack2;
      }
      if c == PERIOD && bufIn[p] == SLASH {
        InputAt(s, p);
        WalkDotDot(rest, stack);
        ok := DotDotTerm(s, rest, stack);
        if ok {
          PlainLess(stack);
          stack2 := stack[..|stack| - 1];
          rest2 := SkipSlashes(rest[3..]);
        }
        return;
      }
      if |rest| > 1 { InputAt(s, p); }
      WalkBadDot(rest, stack);
      return false, rest2, stack2;
    }

    /** The resolution loop over the terms of the input. */
    method Loop(ghost s: bytes) returns (ok: bool)
      requires At(s, s, []) && p == 0
      modifies this, bufOut
      ensures ok <==> Walk(Terms(s), []).Some?
      ensures ok ==> q <= bufOut.Length && bufOut[..q] == Join(Walk(Terms(s), []).value)
    {
      hide Plain, Walk, Terms, Dirs, AllPlain, FirstSlash, SkipSlashes, Join, At, Holds;
      ghost var rest, stack: seq<bytes> := s, [];
      NoDirs();
      PlainMore([], []);
      while true
        invariant At(s, rest, Dirs(stack)) && AllPlain(stack)
        invariant Walk(Terms(rest), stack) == Walk(Terms(s), [])
        decreases |rest|
      {
        Peek(s, rest, Dirs(stack));
        var c := bufIn[p];
        if c == 0 {
          WalkEmpty(rest, stack);
          return false;
        } else if c == PERIOD {
          var more;
          more, rest, stack := DotTerm(s, rest, stack);
          if !more {
            return false;
          }
        } else if c == SLASH {
          WalkEmpty(rest, stack);
          return false;
        } else {
          WalkName(rest, stack);
          var last := NameTerm(s, rest, stack);
          if last {
            return true;
          }
          ghost var k := FirstSlash(rest);
          PlainMore(stack, rest[..k]);
          stack := stack + [rest[..k]];
          rest := SkipSlashes(rest[k + 1..]);
        }
      }
    }

    /** duk__bi_global_resolve_module_id(), for C strings; a NUL ends either argument. */
    method ResolveModuleId(reqId: bytes, modId: Option<bytes>) returns (r: Option<bytes>)
      requires bufIn != bufOut && bufIn.Length == bufOut.Length == ID_LIMIT
      modifies this, bufIn, bufOut
      ensures r == Resolve(CString(reqId), match modId { case None => None case Some(m) => Some(CString(m)) })
    {
      hide Walk, Terms, CString;
      var req := CString(reqId);
      if modId.Some? && req != [] && req[0] == PERIOD {
        var mod := CString(modId.value);
        if |mod| + 4 + |req| + 1 >= bufIn.Length {
          return None;
        }
        SetInput(mod + [SLASH, PERIOD, PERIOD, SLASH] + req);
      } else {
        if |req| + 1 >= bufIn.Length {
          return None;
        }
        SetInput(req);
      }
      ghost var s := Input(req, match modId { case None => None case Some(m) => Some(CString(m)) });
      p, q := 0, 0;
      assert s[0..] == s && bufOut[..0] == [];
      var ok := Loop(s);
      r := if ok then Some(bufOut[..q]) else None;
    }
  }
}
