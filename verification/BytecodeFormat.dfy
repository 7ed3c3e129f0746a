/** Dumped bytecode in plain numbers: where each field is in the bytes of a dump, and what a load gives back
    of every function at every depth. */
module BytecodeFormat {
  import opened Bytes
  import opened Bytecode

  // ----- numbers in the data -----

  /** The big-endian 32-bit number at position `i`. */
  function At32(s: bytes, i: nat): int
    requires i + 4 <= |s|
  {
    s[i] as int * 16777216 + s[i + 1] as int * 65536 + s[i + 2] as int * 256 + s[i + 3] as int
  }

  function At16(s: bytes, i: nat): int
    requires i + 2 <= |s|
  {
    s[i] as int * 256 + s[i + 1] as int
  }

  /** `s` continues with the number `n` at position `i`. */
  predicate Holds32(s: bytes, i: nat, n: int) { i + 4 <= |s| && At32(s, i) == n }

  /** `s` continues with the bytes `t` at position `i`. */
  predicate HoldsBytes(s: bytes, i: nat, t: bytes) { i + |t| <= |s| && s[i..i + |t|] == t }

  /** A length and that many bytes at position `i`. */
  predicate HoldsBlob(s: bytes, i: nat, t: bytes) { Holds32(s, i, |t|) && HoldsBytes(s, i + 4, t) }

  lemma U32InPlace(a: bytes, n: u32, b: bytes)
    ensures Holds32(a + U32(n) + b, |a|, n)
  {
    U32Digits(n);
    var s := a + U32(n) + b;
    assert s[|a|] == U32(n)[0] && s[|a| + 1] == U32(n)[1] && s[|a| + 2] == U32(n)[2] && s[|a| + 3] == U32(n)[3];
  }

  lemma BlobInPlace(a: bytes, t: bytes, b: bytes)
    requires Fits(t)
    ensures HoldsBlob(a + Blob(t) + b, |a|, t)
  {
    var s := a + Blob(t) + b;
    assert s == a + U32(|t|) + (t + b);
    U32InPlace(a, |t|, t + b);
    assert s[|a| + 4..|a| + 4 + |t|] == t;
  }

  // ----- the format, field by field -----

  /** A tag byte, 0 for a string and 1 for a number, and the string or the eight bytes of the double. */
  predicate HoldsConst(s: bytes, i: nat, c: Const) {
    i < |s| &&
    match c
    case StrConst(t) => s[i] == 0 && HoldsBlob(s, i + 1, t)
    case NumConst(d) => s[i] == 1 && HoldsBytes(s, i + 1, d)
  }

  function ConstEnd(c: Const, i: nat): nat {
    match c
    case StrConst(t) => i + 5 + |t|
    case NumConst(d) => i + 1 + |d|
  }

  predicate HoldsConsts(s: bytes, i: nat, consts: seq<Const>)
    decreases |consts|
  {
    consts == [] || (HoldsConst(s, i, consts[0]) && HoldsConsts(s, ConstEnd(consts[0], i), consts[1..]))
  }

  function ConstsEnd(consts: seq<Const>, i: nat): nat {
    if consts == [] then i else ConstsEnd(consts[1..], ConstEnd(consts[0], i))
  }

  predicate HoldsInstrs(s: bytes, i: nat, instrs: seq<u32>) {
    forall k :: 0 <= k < |instrs| ==> Holds32(s, i + 4 * k, instrs[k])
  }

  /** Names with registers, and a zero behind them. */
  predicate HoldsVars(s: bytes, i: nat, vars: seq<Var>)
    decreases |vars|
  {
    if vars == [] then Holds32(s, i, 0)
    else
      HoldsBlob(s, i, vars[0].name) && Holds32(s, i + 4 + |vars[0].name|, vars[0].reg) &&
      HoldsVars(s, i + 8 + |vars[0].name|, vars[1..])
  }

  function VarsEnd(vars: seq<Var>, i: nat): nat {
    if vars == [] then i + 4 else VarsEnd(vars[1..], i + 8 + |vars[0].name|)
  }

  /** The names in the slots that are used, and a zero behind them. */
  predicate HoldsNames(s: bytes, i: nat, slots: seq<Option<bytes>>)
    decreases |slots|
  {
    if slots == [] then Holds32(s, i, 0)
    else if slots[0].None? then HoldsNames(s, i, slots[1..])
    else HoldsBlob(s, i, slots[0].value) && HoldsNames(s, i + 4 + |slots[0].value|, slots[1..])
  }

  function NamesEnd(slots: seq<Option<bytes>>, i: nat): nat
    decreases |slots|
  {
    if slots == [] then i + 4
    else if slots[0].None? then NamesEnd(slots[1..], i)
    else NamesEnd(slots[1..], i + 4 + |slots[0].value|)
  }

  function OrEmpty<T>(o: Option<seq<T>>): seq<T> { if o.Some? then o.value else [] }

  /** Length, or the number of arguments if there is none; name, file name, line table, variables and parameter
      names, empty where there are none. */
  predicate HoldsProps(s: bytes, i: nat, f: Func) {
    var name, file, lines := OrEmpty(f.name), OrEmpty(f.fileName), OrEmpty(f.pc2line);
    var j := i + 4 + 4 + |name|;
    var k := j + 4 + |file|;
    var l := k + 4 + |lines|;
    && Holds32(s, i, if f.length.Some? then f.length.value else f.nargs)
    && HoldsBlob(s, i + 4, name) && HoldsBlob(s, j, file) && HoldsBlob(s, k, lines)
    && HoldsVars(s, l, OrEmpty(f.varmap)) && HoldsNames(s, VarsEnd(OrEmpty(f.varmap), l), OrEmpty(f.formals))
  }

  function PropsEnd(f: Func, i: nat): nat {
    var l := i + 16 + |OrEmpty(f.name)| + |OrEmpty(f.fileName)| + |OrEmpty(f.pc2line)|;
    NamesEnd(OrEmpty(f.formals), VarsEnd(OrEmpty(f.varmap), l))
  }

  /** Counts, register and argument counts, eight zero bytes, flags; instructions, constants, inner functions
      and properties. */
  predicate HoldsFunc(s: bytes, i: nat, f: Func)
    decreases f, 1
  {
    && Holds32(s, i, |f.instrs|) && Holds32(s, i + 4, |f.consts|) && Holds32(s, i + 8, |f.funcs|)
    && i + 16 <= |s| && At16(s, i + 12) == f.nregs && At16(s, i + 14) == f.nargs
    && Holds32(s, i + 16, 0) && Holds32(s, i + 20, 0) && Holds32(s, i + 24, f.flags)
    && HoldsInstrs(s, i + 28, f.instrs)
    && HoldsConsts(s, i + 28 + 4 * |f.instrs|, f.consts)
    && HoldsFuncs(s, ConstsEnd(f.consts, i + 28 + 4 * |f.instrs|), f.funcs)
    && HoldsProps(s, FuncsEnd(f.funcs, ConstsEnd(f.consts, i + 28 + 4 * |f.instrs|)), f)
  }

  predicate HoldsFuncs(s: bytes, i: nat, funcs: seq<Func>)
    decreases funcs, 0
  {
    funcs == [] || (HoldsFunc(s, i, funcs[0]) && HoldsFuncs(s, FuncEnd(funcs[0], i), funcs[1..]))
  }

  function FuncEnd(f: Func, i: nat): nat
    decreases f, 1
  {
    PropsEnd(f, FuncsEnd(f.funcs, ConstsEnd(f.consts, i + 28 + 4 * |f.instrs|)))
  }

  function FuncsEnd(funcs: seq<Func>, i: nat): nat
    decreases funcs, 0
  {
    if funcs == [] then i else FuncsEnd(funcs[1..], FuncEnd(funcs[0], i))
  }

  // ----- a dump holds its function -----

  lemma {:induction false} InstrsInPlace(a: bytes, instrs: seq<u32>, b: bytes)
    ensures |DumpInstrs(instrs)| == 4 * |instrs| && HoldsInstrs(a + DumpInstrs(instrs) + b, |a|, instrs)
    decreases |instrs|
  {
    hide U32, Holds32;
    var s := a + DumpInstrs(instrs) + b;
    if instrs != [] {
      var more := DumpInstrs(instrs[1..]);
      assert DumpInstrs(instrs) == U32(instrs[0]) + more;
      assert s == a + U32(instrs[0]) + (more + b);
      assert s == (a + U32(instrs[0])) + more + b;
      U32InPlace(a, instrs[0], more + b);
      InstrsInPlace(a + U32(instrs[0]), instrs[1..], b);
      forall k | 0 <= k < |instrs| ensures Holds32(s, |a| + 4 * k, instrs[k]) {
        if k > 0 { assert Holds32(s, |a + U32(instrs[0])| + 4 * (k - 1), instrs[1..][k - 1]); }
      }
    }
  }

  lemma ConstInPlace(a: bytes, c: Const, b: bytes)
    requires ConstValid(c)
    ensures HoldsConst(a + DumpConst(c) + b, |a|, c) && ConstEnd(c, |a|) == |a| + |DumpConst(c)|
  {
    var s := a + DumpConst(c) + b;
    match c
    case StrConst(t) =>
      assert s == (a + [0]) + Blob(t) + b;
      BlobInPlace(a + [0], t, b);
    case NumConst(d) =>
      assert s == (a + [1]) + d + b;
      assert s[|a| + 1..|a| + 1 + |d|] == d;
  }

  lemma {:induction false} ConstsInPlace(a: bytes, consts: seq<Const>, b: bytes)
    requires forall c :: c in consts ==> ConstValid(c)
    ensures HoldsConsts(a + DumpConsts(consts) + b, |a|, consts) && ConstsEnd(consts, |a|) == |a| + |DumpConsts(consts)|
    decreases |consts|
  {
    hide DumpConst, HoldsConst, ConstEnd;
    if consts != [] {
      var c, more := DumpConst(consts[0]), DumpConsts(consts[1..]);
      assert a + DumpConsts(consts) + b == a + c + (more + b) == (a + c) + more + b;
      ConstInPlace(a, consts[0], more + b);
      ConstsInPlace(a + c, consts[1..], b);
    }
  }

  lemma {:induction false} VarsInPlace(a: bytes, vars: seq<Var>, b: bytes)
    requires forall v :: v in vars ==> VarValid(v)
    ensures HoldsVars(a + (DumpVars(vars) + U32(0)) + b, |a|, vars) && VarsEnd(vars, |a|) == |a| + |DumpVars(vars)| + 4
    decreases |vars|
  {
    hide U32, Blob, Holds32, HoldsBlob;
    if vars == [] {
      assert DumpVars(vars) + U32(0) == U32(0);
      U32InPlace(a, 0, b);
    } else {
      var v := vars[0];
      assert VarValid(v);
      var n, r, more := Blob(v.name), U32(v.reg), DumpVars(vars[1..]);
      BlobSize(v.name);
      var s := a + (DumpVars(vars) + U32(0)) + b;
      assert DumpVars(vars) == n + r + more;
      VarCells(a, n, r, more, U32(0), b);
      BlobInPlace(a, v.name, r + more + U32(0) + b);
      U32InPlace(a + n, v.reg, more + U32(0) + b);
      VarsInPlace(a + n + r, vars[1..], b);
    }
  }

  lemma VarCells(a: bytes, n: bytes, r: bytes, more: bytes, z: bytes, b: bytes)
    ensures var s := a + (n + r + more + z) + b;
      s == a + n + (r + more + z + b) && s == (a + n) + r + (more + z + b) && s == (a + n + r) + (more + z) + b
  {
  }

  lemma BlobSize(t: bytes)
    requires Fits(t)
    ensures |Blob(t)| == 4 + |t|
  {
  }

  lemma {:induction false} NamesInPlace(a: bytes, slots: seq<Option<bytes>>, b: bytes)
    requires forall n :: n in Strings(slots) ==> NameValid(n)
    ensures HoldsNames(a + (DumpNames(Strings(slots)) + U32(0)) + b, |a|, slots)
    ensures NamesEnd(slots, |a|) == |a| + |DumpNames(Strings(slots))| + 4
    decreases |slots|
  {
    hide U32, Blob, Holds32, HoldsBlob;
    if slots == [] {
      assert DumpNames(Strings(slots)) + U32(0) == U32(0);
      U32InPlace(a, 0, b);
    } else if slots[0].None? {
      assert Strings(slots) == Strings(slots[1..]);
      NamesInPlace(a, slots[1..], b);
    } else {
      var t, names := slots[0].value, Strings(slots);
      assert names == [t] + Strings(slots[1..]);
      assert NameValid(names[0]) && names[1..] == Strings(slots[1..]);
      var n, more := Blob(t), DumpNames(Strings(slots[1..]));
      BlobSize(t);
      var s := a + (DumpNames(names) + U32(0)) + b;
      assert DumpNames(names) == n + more;
      NameCells(a, n, more, U32(0), b);
      BlobInPlace(a, t, more + U32(0) + b);
      NamesInPlace(a + n, slots[1..], b);
    }
  }

  lemma NameCells(a: bytes, n: bytes, more: bytes, z: bytes, b: bytes)
    ensures var s := a + (n + more + z) + b; s == a + n + (more + z + b) && s == (a + n) + (more + z) + b
  {
  }

  lemma PropsInPlace(a: bytes, f: Func, b: bytes)
    requires Valid(f)
    ensures HoldsProps(a + Props(f) + b, |a|, f) && PropsEnd(f, |a|) == |a| + |Props(f)|
  {
    hide U32, Blob, Holds32, HoldsBlob, DumpVars, DumpNames, HoldsVars, HoldsNames;
    var l, n, i, c := U32(Length(f)), Blob(Name(f)), Blob(FileName(f)), Blob(Pc2line(f));
    var v, m := DumpVars(Vars(f)) + U32(0), DumpNames(Formals(f)) + U32(0);
    BlobSize(Name(f));
    BlobSize(FileName(f));
    BlobSize(Pc2line(f));
    var s := a + Props(f) + b;
    PropsCells(l, n, i, c, DumpVars(Vars(f)), U32(0), DumpNames(Formals(f)), U32(0));
    assert Props(f) == l + n + i + c + v + m;
    SixCells(a, l, n, i, c, v, m, b);
    U32InPlace(a, Length(f), n + i + c + v + m + b);
    BlobInPlace(a + l, Name(f), i + c + v + m + b);
    BlobInPlace(a + l + n, FileName(f), c + v + m + b);
    BlobInPlace(a + l + n + i, Pc2line(f), v + m + b);
    VarsInPlace(a + l + n + i + c, Vars(f), m + b);
    FormalSlots(f);
    NamesInPlace(a + l + n + i + c + v, OrEmpty(f.formals), b);
  }

  lemma FormalSlots(f: Func)
    ensures Formals(f) == Strings(OrEmpty(f.formals)) && Vars(f) == OrEmpty(f.varmap)
    ensures Name(f) == OrEmpty(f.name) && FileName(f) == OrEmpty(f.fileName) && Pc2line(f) == OrEmpty(f.pc2line)
    ensures Length(f) == if f.length.Some? then f.length.value else f.nargs
  {
  }

  lemma PropsCells(l: bytes, n: bytes, i: bytes, c: bytes, v: bytes, y: bytes, m: bytes, z: bytes)
    ensures l + n + i + c + v + y + m + z == l + n + i + c + (v + y) + (m + z)
  {
  }

  lemma SixCells(a: bytes, l: bytes, n: bytes, i: bytes, c: bytes, v: bytes, m: bytes, b: bytes)
    ensures var s := a + (l + n + i + c + v + m) + b;
      && s == a + l + (n + i + c + v + m + b) && s == (a + l) + n + (i + c + v + m + b)
      && s == (a + l + n) + i + (c + v + m + b) && s == (a + l + n + i) + c + (v + m + b)
      && s == (a + l + n + i + c) + v + (m + b) && s == (a + l + n + i + c + v) + m + b
  {
  }

  lemma HeaderInPlace(a: bytes, f: Func, b: bytes)
    requires Valid(f)
    ensures var s, i := a + Header(f) + b, |a|;
      && |Header(f)| == 28 && Holds32(s, i, |f.instrs|) && Holds32(s, i + 4, |f.consts|) && Holds32(s, i + 8, |f.funcs|)
      && i + 16 <= |s| && At16(s, i + 12) == f.nregs && At16(s, i + 14) == f.nargs
      && Holds32(s, i + 16, 0) && Holds32(s, i + 20, 0) && Holds32(s, i + 24, f.flags)
  {
    hide U32, Holds32;
    var x, y, z, r, n, o, g := U32(|f.instrs|), U32(|f.consts|), U32(|f.funcs|), U16(f.nregs), U16(f.nargs), U32(0), U32(f.flags);
    var s := a + Header(f) + b;
    EightCells(a, x, y, z, r, n, o, o, g, b);
    U32InPlace(a, |f.instrs|, y + z + r + n + o + o + g + b);
    U32InPlace(a + x, |f.consts|, z + r + n + o + o + g + b);
    U32InPlace(a + x + y, |f.funcs|, r + n + o + o + g + b);
    U32InPlace(a + x + y + z + r + n, 0, o + g + b);
    U32InPlace(a + x + y + z + r + n + o, 0, g + b);
    U32InPlace(a + x + y + z + r + n + o + o, f.flags, b);
    assert s[|a| + 12] == r[0] && s[|a| + 13] == r[1] && s[|a| + 14] == n[0] && s[|a| + 15] == n[1];
  }

  lemma EightCells(a: bytes, x: bytes, y: bytes, z: bytes, r: bytes, n: bytes, o: bytes, p: bytes, g: bytes, b: bytes)
    ensures var s := a + (x + y + z + r + n + o + p + g) + b;
      && s == a + x + (y + z + r + n + o + p + g + b) && s == (a + x) + y + (z + r + n + o + p + g + b)
      && s == (a + x + y) + z + (r + n + o + p + g + b) && s == (a + x + y + z + r + n) + o + (p + g + b)
      && s == (a + x + y + z + r + n + o) + p + (g + b) && s == (a + x + y + z + r + n + o + p) + g + b
  {
  }

  /** The dump of a function, anywhere in the data, is laid out as `HoldsFunc` says, and ends where it says. */
  lemma {:induction false} DumpLayout(a: bytes, f: Func, b: bytes)
    requires Valid(f)
    ensures HoldsFunc(a + Dump(f) + b, |a|, f) && FuncEnd(f, |a|) == |a| + |Dump(f)|
    decreases f, 1
  {
    hide Header, DumpInstrs, DumpConsts, DumpFuncs, Props, Holds32, At16, HoldsInstrs, HoldsConsts, HoldsFuncs, HoldsProps, ConstsEnd, FuncsEnd, PropsEnd;
    var h, i, c, g, p := Header(f), DumpInstrs(f.instrs), DumpConsts(f.consts), DumpFuncs(f.funcs), Props(f);
    assert Dump(f) == h + i + c + g + p;
    FiveCells(a, h, i, c, g, p, b);
    HeaderInPlace(a, f, i + c + g + p + b);
    InstrsInPlace(a + h, f.instrs, c + g + p + b);
    ConstsInPlace(a + h + i, f.consts, g + p + b);
    FuncsLayout(a + h + i + c, f.funcs, p + b);
    PropsInPlace(a + h + i + c + g, f, b);
  }

  lemma FiveCells(a: bytes, h: bytes, i: bytes, c: bytes, g: bytes, p: bytes, b: bytes)
    ensures var s := a + (h + i + c + g + p) + b;
      && s == a + h + (i + c + g + p + b) && s == (a + h) + i + (c + g + p + b) && s == (a + h + i) + c + (g + p + b)
      && s == (a + h + i + c) + g + (p + b) && s == (a + h + i + c + g) + p + b
  {
  }

  lemma {:induction false} FuncsLayout(a: bytes, funcs: seq<Func>, b: bytes)
    requires forall g :: g in funcs ==> Valid(g)
    ensures HoldsFuncs(a + DumpFuncs(funcs) + b, |a|, funcs) && FuncsEnd(funcs, |a|) == |a| + |DumpFuncs(funcs)|
    decreases funcs, 0
  {
    hide Dump, HoldsFunc, FuncEnd, Valid;
    if funcs != [] {
      var g, more := Dump(funcs[0]), DumpFuncs(funcs[1..]);
      assert DumpFuncs(funcs) == g + more;
      assert a + DumpFuncs(funcs) + b == a + g + (more + b) == (a + g) + more + b;
      DumpLayout(a, funcs[0], more + b);
      FuncsLayout(a + g, funcs[1..], b);
    }
  }

  // ----- what a load gives back -----

  /** `at` are the positions of what is kept of `s`, in order, and `r` is what is there. */
  ghost predicate Kept<T>(s: seq<T>, keep: T -> bool, at: seq<nat>, r: seq<T>) {
    Picked(s, keep, at, r) && Increasing(at) && AllPicked(s, keep, at)
  }

  ghost predicate Picked<T>(s: seq<T>, keep: T -> bool, at: seq<nat>, r: seq<T>) {
    |r| == |at| && forall j :: 0 <= j < |at| ==> at[j] < |s| && keep(s[at[j]]) && r[j] == s[at[j]]
  }

  ghost predicate Increasing(at: seq<nat>) { forall j, k :: 0 <= j < k < |at| ==> at[j] < at[k] }

  ghost predicate AllPicked<T>(s: seq<T>, keep: T -> bool, at: seq<nat>) {
    forall i :: 0 <= i < |s| && keep(s[i]) ==> Has(at, i)
  }

  ghost predicate Has(at: seq<nat>, i: int) { exists j :: 0 <= j < |at| && at[j] == i }

  /** Not the one name that is lost. */
  predicate OrdinaryName(v: Var) {
    v.name != ['_' as int, '_' as int, 'p' as int, 'r' as int, 'o' as int, 't' as int, 'o' as int, '_' as int, '_' as int]
  }

  predicate Used(slot: Option<bytes>) { slot.Some? }

  /** `g` is `f` with a length of as many as it has arguments where it had none, empty name, file name and line
      table where it had none, all its variables but `__proto__` and all its parameter names, at every depth. */
  ghost predicate Restored(f: Func, g: Func)
    decreases f, 1
  {
    && g.instrs == f.instrs && g.consts == f.consts && g.nregs == f.nregs && g.nargs == f.nargs && g.flags == f.flags
    && RestoredAll(f.funcs, g.funcs)
    && g.length == Some(if f.length.Some? then f.length.value else f.nargs)
    && g.name == Some(OrEmpty(f.name)) && g.fileName == Some(OrEmpty(f.fileName)) && g.pc2line == Some(OrEmpty(f.pc2line))
    && (g.varmap.Some? && exists at :: Kept(OrEmpty(f.varmap), OrdinaryName, at, g.varmap.value))
    && (g.formals.Some? && exists at :: Kept(OrEmpty(f.formals), Used, at, g.formals.value))
  }

  ghost predicate RestoredAll(fs: seq<Func>, gs: seq<Func>)
    decreases fs, 0
  {
    |gs| == |fs| && forall i :: 0 <= i < |fs| ==> Restored(fs[i], gs[i])
  }

  lemma {:induction false} VarsKept(vars: seq<Var>) returns (at: seq<nat>)
    ensures Kept(vars, OrdinaryName, at, Storable(vars))
  {
    at := [];
    if vars != [] {
      var more := VarsKept(vars[1..]);
      at := KeptMore(vars, OrdinaryName, more, Storable(vars[1..]));
    }
  }

  lemma {:induction false} SlotsKept(slots: seq<Option<bytes>>) returns (at: seq<nat>)
    ensures Kept(slots, Used, at, Slots(Strings(slots)))
  {
    at := [];
    if slots != [] {
      var more := SlotsKept(slots[1..]);
      at := KeptMore(slots, Used, more, Slots(Strings(slots[1..])));
      if slots[0].None? {
        assert Strings(slots) == Strings(slots[1..]);
      } else {
        assert Strings(slots) == [slots[0].value] + Strings(slots[1..]);
        assert Slots(Strings(slots)) == [slots[0]] + Slots(Strings(slots[1..]));
      }
    }
  }

  lemma KeptMore<T>(s: seq<T>, keep: T -> bool, more: seq<nat>, r: seq<T>) returns (at: seq<nat>)
    requires s != [] && Kept(s[1..], keep, more, r)
    ensures Kept(s, keep, at, (if keep(s[0]) then [s[0]] else []) + r)
  {
    hide Picked, Increasing, AllPicked;
    at := Moved(more, keep(s[0]));
    PickedMore(s, keep, more, r);
    IncreasingMore(more, keep(s[0]));
    AllPickedMore(s, keep, more);
  }

  /** Positions seen from one place earlier, with the first one in front or not. */
  function Moved(more: seq<nat>, first: bool): seq<nat> {
    (if first then [0] else []) + seq(|more|, i requires 0 <= i < |more| => more[i] + 1)
  }

  lemma MovedAt(more: seq<nat>, first: bool, j: nat)
    ensures |Moved(more, first)| == |more| + if first then 1 else 0
    ensures j < |more| ==> Moved(more, first)[j + if first then 1 else 0] == more[j] + 1
    ensures first ==> Moved(more, first)[0] == 0
  {
  }

  lemma PickedMore<T>(s: seq<T>, keep: T -> bool, more: seq<nat>, r: seq<T>)
    requires s != [] && Picked(s[1..], keep, more, r)
    ensures Picked(s, keep, Moved(more, keep(s[0])), (if keep(s[0]) then [s[0]] else []) + r)
  {
    hide Moved;
    var first := keep(s[0]);
    var at, t := Moved(more, first), (if first then [s[0]] else []) + r;
    MovedAt(more, first, 0);
    forall j | 0 <= j < |at| ensures at[j] < |s| && keep(s[at[j]]) && t[j] == s[at[j]] {
      var k := if first then j - 1 else j;
      if k >= 0 {
        MovedAt(more, first, k);
        assert s[1..][more[k]] == s[more[k] + 1];
      }
    }
  }

  lemma IncreasingMore(more: seq<nat>, first: bool)
    requires Increasing(more)
    ensures Increasing(Moved(more, first))
  {
    hide Moved;
    var at, n := Moved(more, first), if first then 1 else 0;
    MovedAt(more, first, 0);
    forall j, k | 0 <= j < k < |at| ensures at[j] < at[k] {
      MovedAt(more, first, k - n);
      if j >= n { MovedAt(more, first, j - n); }
    }
  }

  lemma AllPickedMore<T>(s: seq<T>, keep: T -> bool, more: seq<nat>)
    requires s != [] && AllPicked(s[1..], keep, more)
    ensures AllPicked(s, keep, Moved(more, keep(s[0])))
  {
    hide Moved, Has;
    var first := keep(s[0]);
    forall i | 0 <= i < |s| && keep(s[i]) ensures Has(Moved(more, first), i) {
      if i == 0 {
        MovedAt(more, first, 0);
        HasAt(Moved(more, first), 0);
      } else {
        assert s[1..][i - 1] == s[i] && Has(more, i - 1);
        var j := HasIndex(more, i - 1);
        MovedAt(more, first, j);
        HasAt(Moved(more, first), j + if first then 1 else 0);
      }
    }
  }

  lemma HasAt(at: seq<nat>, j: nat)
    requires j < |at|
    ensures Has(at, at[j])
  {
  }

  lemma HasIndex(at: seq<nat>, i: int) returns (j: nat)
    requires Has(at, i)
    ensures j < |at| && at[j] == i
  {
    j :| j < |at| && at[j] == i;
  }

  lemma {:induction false} ReloadedRestored(f: Func)
    ensures Restored(f, Reloaded(f))
    decreases f, 1
  {
    hide Kept;
    ReloadedRestoredAll(f.funcs);
    FormalSlots(f);
    var at := VarsKept(OrEmpty(f.varmap));
    var used := SlotsKept(OrEmpty(f.formals));
  }

  lemma {:induction false} ReloadedRestoredAll(funcs: seq<Func>)
    ensures RestoredAll(funcs, ReloadedAll(funcs))
    decreases funcs, 0
  {
    hide Restored, Reloaded;
    if funcs != [] {
      ReloadedRestored(funcs[0]);
      ReloadedRestoredAll(funcs[1..]);
      assert funcs == [funcs[0]] + funcs[1..];
    }
  }

  /** Loading a dump, whatever follows it, gives back the function with its defaults filled in, and stops where
      the dump ends. */
  lemma LoadRestores(f: Func, rest: bytes)
    requires Valid(f)
    ensures TakeFunc(Dump(f) + rest).Got? && TakeFunc(Dump(f) + rest).rest == rest
    ensures Restored(f, TakeFunc(Dump(f) + rest).value)
  {
    hide TakeFunc, Dump, Restored, Reloaded;
    LoadDump(f, rest);
    ReloadedRestored(f);
  }

  /** An inner function as the compiler leaves it, without properties: its length is its number of arguments. */
  lemma TemplateLength(f: Func, rest: bytes)
    requires Valid(f) && f.length.None?
    ensures TakeFunc(Dump(f) + rest).Got? && TakeFunc(Dump(f) + rest).value.length == Some(f.nargs)
  {
    hide TakeFunc, Dump, RestoredAll, Kept;
    LoadRestores(f, rest);
  }

  // ----- repeated names in the data -----

  /** Loading a variable under a name that is there sets its register and nothing else; a new name comes last;
      `__proto__` is ignored. */
  lemma {:induction false} PutVarEffect(vars: seq<Var>, name: bytes, reg: u32, j: nat)
    ensures !OrdinaryName(Var(name, reg)) ==> PutVar(vars, name, reg) == vars
    ensures OrdinaryName(Var(name, reg)) && j < |vars| && vars[j].name == name && (forall i :: 0 <= i < j ==> vars[i].name != name) ==>
      PutVar(vars, name, reg) == vars[j := Var(name, reg)]
    ensures OrdinaryName(Var(name, reg)) && (forall i :: 0 <= i < |vars| ==> vars[i].name != name) ==>
      PutVar(vars, name, reg) == vars + [Var(name, reg)]
  {
    if j < |vars| && vars[j].name == name && forall i :: 0 <= i < j ==> vars[i].name != name { StoreThere(vars, name, reg, j); }
    if forall i :: 0 <= i < |vars| ==> vars[i].name != name { StoreNew(vars, Var(name, reg)); }
  }

  lemma {:induction false} StoreThere(vars: seq<Var>, name: bytes, reg: u32, j: nat)
    requires j < |vars| && vars[j].name == name && forall i :: 0 <= i < j ==> vars[i].name != name
    ensures Store(vars, name, reg) == vars[j := Var(name, reg)]
  {
    if j == 0 {
      assert vars[0 := Var(name, reg)] == [Var(name, reg)] + vars[1..];
    } else {
      StoreThere(vars[1..], name, reg, j - 1);
      assert vars[j := Var(name, reg)] == [vars[0]] + vars[1..][j - 1 := Var(name, reg)];
    }
  }
}
