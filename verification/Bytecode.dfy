/** Bytecode dump and load of a function template and everything nested in it. */
module Bytecode {
  import opened Bytes

  type u16 = n: int | 0 <= n < 0x10000
  type u32 = n: int | 0 <= n < 0x1_0000_0000

  const SER_MARKER: byte := 0xff
  const SER_VERSION: byte := 0x00
  const SER_STRING: byte := 0x00
  const SER_NUMBER: byte := 0x01

  /** Constants are strings or numbers; a double is its eight bytes in network order. */
  datatype Const = StrConst(s: bytes) | NumConst(d: bytes)

  datatype Var = Var(name: bytes, reg: u32)

  /** A compiled function.  The optional fields are properties that may be missing or of an unexpected
      type; `formals` lists the array part of its property, unused slots included. */
  datatype Func = Func(
    instrs: seq<u32>, consts: seq<Const>, funcs: seq<Func>,
    nregs: u16, nargs: u16, flags: u32,
    length: Option<u32>, name: Option<bytes>, fileName: Option<bytes>, pc2line: Option<bytes>,
    varmap: Option<seq<Var>>, formals: Option<seq<Option<bytes>>>)

  /** "__proto__": the one key for which property assignment on a plain object runs a setter. */
  const PROTO: bytes := [0x5f, 0x5f, 0x70, 0x72, 0x6f, 0x74, 0x6f, 0x5f, 0x5f]

  ghost predicate DistinctNames(vars: seq<Var>) {
    forall i, j :: 0 <= i < j < |vars| ==> vars[i].name != vars[j].name
  }

  ghost predicate Fits(s: bytes) { |s| < 0x1_0000_0000 }

  ghost predicate ConstValid(c: Const) {
    match c
    case StrConst(s) => Fits(s)
    case NumConst(d) => |d| == 8
  }

  ghost predicate NameValid(n: bytes) { n != [] && Fits(n) }

  ghost predicate VarValid(v: Var) { v.name != [] && Fits(v.name) }

  /** What the compiler guarantees: sizes within 32 bits, variable and parameter names non-empty. */
  ghost predicate Valid(f: Func) {
    && |f.instrs| < 0x1_0000_0000 && |f.consts| < 0x1_0000_0000 && |f.funcs| < 0x1_0000_0000
    && (forall c :: c in f.consts ==> ConstValid(c))
    && (forall g :: g in f.funcs ==> Valid(g))
    && Fits(Name(f)) && Fits(FileName(f)) && Fits(Pc2line(f))
    && (forall v :: v in Vars(f) ==> VarValid(v)) && DistinctNames(Vars(f))
    && (forall n :: n in Formals(f) ==> NameValid(n))
  }

  // ----- the properties, with the defaults dumping uses -----

  function Length(f: Func): u32 { if f.length.Some? then f.length.value else f.nargs }
  function Name(f: Func): bytes { if f.name.Some? then f.name.value else [] }
  function FileName(f: Func): bytes { if f.fileName.Some? then f.fileName.value else [] }
  function Pc2line(f: Func): bytes { if f.pc2line.Some? then f.pc2line.value else [] }
  function Vars(f: Func): seq<Var> { if f.varmap.Some? then f.varmap.value else [] }
  function Formals(f: Func): seq<bytes> { if f.formals.Some? then Strings(f.formals.value) else [] }

  /** The used slots of an array part. */
  function Strings(slots: seq<Option<bytes>>): seq<bytes> {
    if slots == [] then []
    else (if slots[0].Some? then [slots[0].value] else []) + Strings(slots[1..])
  }

  function Slots(names: seq<bytes>): seq<Option<bytes>> {
    if names == [] then [] else [Some(names[0])] + Slots(names[1..])
  }

  // ----- the format -----

  function U32(n: u32): (r: bytes)
    ensures |r| == 4
  {
    [n / 0x1000000, n / 0x10000 % 0x100, n / 0x100 % 0x100, n % 0x100]
  }

  function U16(n: u16): (r: bytes)
    ensures |r| == 2
  {
    [n / 0x100, n % 0x100]
  }

  /** A length and that many bytes. */
  function Blob(s: bytes): bytes
    requires Fits(s)
  {
    U32(|s|) + s
  }

  function DumpInstrs(instrs: seq<u32>): bytes {
    if instrs == [] then [] else U32(instrs[0]) + DumpInstrs(instrs[1..])
  }

  function DumpConst(c: Const): bytes
    requires ConstValid(c)
  {
    match c
    case StrConst(s) => [SER_STRING] + Blob(s)
    case NumConst(d) => [SER_NUMBER] + d
  }

  function DumpConsts(consts: seq<Const>): bytes
    requires forall c :: c in consts ==> ConstValid(c)
  {
    if consts == [] then [] else DumpConst(consts[0]) + DumpConsts(consts[1..])
  }

  function DumpVars(vars: seq<Var>): bytes
    requires forall v :: v in vars ==> VarValid(v)
  {
    if vars == [] then [] else
    assert VarValid(vars[0]);
    Blob(vars[0].name) + U32(vars[0].reg) + DumpVars(vars[1..])
  }

  function DumpNames(names: seq<bytes>): bytes
    requires forall n :: n in names ==> NameValid(n)
  {
    if names == [] then [] else
    assert NameValid(names[0]);
    Blob(names[0]) + DumpNames(names[1..])
  }

  /** Counts and header; line information is written as zeroes without debugger support. */
  function Header(f: Func): bytes
    requires Valid(f)
  {
    U32(|f.instrs|) + U32(|f.consts|) + U32(|f.funcs|) + U16(f.nregs) + U16(f.nargs) + U32(0) + U32(0) + U32(f.flags)
  }

  function Props(f: Func): bytes
    requires Valid(f)
  {
    U32(Length(f)) + Blob(Name(f)) + Blob(FileName(f)) + Blob(Pc2line(f)) +
    DumpVars(Vars(f)) + U32(0) + DumpNames(Formals(f)) + U32(0)
  }

  function Dump(f: Func): bytes
    requires Valid(f)
    decreases f, 1
  {
    Header(f) + DumpInstrs(f.instrs) + DumpConsts(f.consts) + DumpFuncs(f.funcs) + Props(f)
  }

  function DumpFuncs(funcs: seq<Func>): bytes
    requires forall g :: g in funcs ==> Valid(g)
    decreases funcs, 0
  {
    if funcs == [] then [] else Dump(funcs[0]) + DumpFuncs(funcs[1..])
  }

  // ----- what loading reads -----

  /** `Overrun`: the data ends early, which the loader leaves to its caller to rule out. */
  datatype Load<+T> = Got(value: T, rest: bytes) | FormatError | Overrun

  function TakeU32(s: bytes): (r: Load<u32>)
    ensures !r.FormatError?
    ensures r.Got? ==> |r.rest| + 4 == |s|
  {
    if |s| < 4 then Overrun
    else
      var a: int, b: int, c: int, d: int := s[0], s[1], s[2], s[3];
      Got(a * 0x1000000 + b * 0x10000 + c * 0x100 + d, s[4..])
  }

  function TakeU16(s: bytes): (r: Load<u16>)
    ensures !r.FormatError?
    ensures r.Got? ==> |r.rest| + 2 == |s|
  {
    if |s| < 2 then Overrun
    else
      var hi: int, lo: int := s[0], s[1];
      Got(hi * 0x100 + lo, s[2..])
  }

  function TakeBlob(s: bytes): (r: Load<bytes>)
    ensures !r.FormatError?
    ensures r.Got? ==> |r.rest| + 4 + |r.value| == |s|
  {
    match TakeU32(s)
    case Got(n, t) => if |t| < n then Overrun else Got(t[..n], t[n..])
    case FormatError => FormatError
    case Overrun => Overrun
  }

  function TakeInstrs(s: bytes, n: nat, acc: seq<u32>): (r: Load<seq<u32>>)
    ensures !r.FormatError?
    ensures r.Got? ==> |r.rest| <= |s|
    decreases n
  {
    if n == 0 then Got(acc, s) else
    match TakeU32(s)
    case Got(x, t) => TakeInstrs(t, n - 1, acc + [x])
    case FormatError => FormatError
    case Overrun => Overrun
  }

  function TakeConst(s: bytes): (r: Load<Const>)
    ensures r.Got? ==> |r.rest| <= |s|
  {
    if s == [] then Overrun
    else if s[0] == SER_STRING then
      match TakeBlob(s[1..])
      case Got(str, t) => Got(StrConst(str), t)
      case FormatError => FormatError
      case Overrun => Overrun
    else if s[0] == SER_NUMBER then
      if |s| < 9 then Overrun else Got(NumConst(s[1..9]), s[9..])
    else FormatError
  }

  function TakeConsts(s: bytes, n: nat, acc: seq<Const>): (r: Load<seq<Const>>)
    ensures r.Got? ==> |r.rest| <= |s|
    decreases n
  {
    if n == 0 then Got(acc, s) else
    match TakeConst(s)
    case Got(c, t) => TakeConsts(t, n - 1, acc + [c])
    case FormatError => FormatError
    case Overrun => Overrun
  }

  /** Assignment of a number to a property of a fresh plain object: `__proto__` is swallowed by its
      inherited setter, an existing key keeps its place. */
  function PutVar(vars: seq<Var>, name: bytes, reg: u32): seq<Var> {
    if name == PROTO then vars else Store(vars, name, reg)
  }

  function Store(vars: seq<Var>, name: bytes, reg: u32): seq<Var> {
    if vars == [] then [Var(name, reg)]
    else if vars[0].name == name then [Var(name, reg)] + vars[1..]
    else [vars[0]] + Store(vars[1..], name, reg)
  }

  /** Names and registers up to the empty name. */
  function TakeVars(s: bytes, acc: seq<Var>): (r: Load<seq<Var>>)
    ensures !r.FormatError?
    ensures r.Got? ==> |r.rest| <= |s|
    decreases |s|
  {
    match TakeBlob(s)
    case FormatError => FormatError
    case Overrun => Overrun
    case Got(name, t) =>
      if name == [] then Got(acc, t) else
      match TakeU32(t)
      case Got(reg, u) => TakeVars(u, PutVar(acc, name, reg))
      case FormatError => FormatError
      case Overrun => Overrun
  }

  function TakeNames(s: bytes, acc: seq<bytes>): (r: Load<seq<bytes>>)
    ensures !r.FormatError?
    ensures r.Got? ==> |r.rest| <= |s|
    decreases |s|
  {
    match TakeBlob(s)
    case FormatError => FormatError
    case Overrun => Overrun
    case Got(name, t) => if name == [] then Got(acc, t) else TakeNames(t, acc + [name])
  }

  datatype Head = Head(instrs: u32, consts: u32, funcs: u32, nregs: u16, nargs: u16, flags: u32)

  /** The fixed header; line information is skipped. */
  function TakeHead(s: bytes): (r: Load<Head>)
    ensures !r.FormatError?
    ensures r.Got? ==> |r.rest| < |s|
  {
    var a := TakeU32(s);
    if !a.Got? then Overrun else
    var b := TakeU32(a.rest);
    if !b.Got? then Overrun else
    var c := TakeU32(b.rest);
    if !c.Got? then Overrun else
    var d := TakeU16(c.rest);
    if !d.Got? then Overrun else
    var e := TakeU16(d.rest);
    if !e.Got? || |e.rest| < 8 then Overrun else
    var f := TakeU32(e.rest[8..]);
    if !f.Got? then Overrun else
    Got(Head(a.value, b.value, c.value, d.value, e.value, f.value), f.rest)
  }

  datatype Tail = Tail(length: u32, name: bytes, fileName: bytes, pc2line: bytes, vars: seq<Var>, formals: seq<bytes>)

  function TakeTail(s: bytes): (r: Load<Tail>)
    ensures !r.FormatError?
    ensures r.Got? ==> |r.rest| <= |s|
  {
    var a := TakeU32(s);
    if !a.Got? then Overrun else
    var b := TakeBlob(a.rest);
    if !b.Got? then Overrun else
    var c := TakeBlob(b.rest);
    if !c.Got? then Overrun else
    var d := TakeBlob(c.rest);
    if !d.Got? then Overrun else
    var e := TakeVars(d.rest, []);
    if !e.Got? then Overrun else
    var f := TakeNames(e.rest, []);
    if !f.Got? then Overrun else
    Got(Tail(a.value, b.value, c.value, d.value, e.value, f.value), f.rest)
  }

  function MakeFunc(h: Head, instrs: seq<u32>, consts: seq<Const>, funcs: seq<Func>, t: Tail): Func {
    Func(instrs, consts, funcs, h.nregs, h.nargs, h.flags,
         Some(t.length), Some(t.name), Some(t.fileName), Some(t.pc2line), Some(t.vars), Some(Slots(t.formals)))
  }

  function TakeFunc(s: bytes): (r: Load<Func>)
    ensures r.Got? ==> |r.rest| < |s|
    decreases |s|, 0
  {
    match TakeHead(s)
    case FormatError => FormatError
    case Overrun => Overrun
    case Got(h, s1) =>
      match TakeInstrs(s1, h.instrs, [])
      case FormatError => FormatError
      case Overrun => Overrun
      case Got(instrs, s2) =>
        match TakeConsts(s2, h.consts, [])
        case FormatError => FormatError
        case Overrun => Overrun
        case Got(consts, s3) =>
          match TakeFuncs(s3, h.funcs, [])
          case FormatError => FormatError
          case Overrun => Overrun
          case Got(funcs, s4) =>
            match TakeTail(s4)
            case FormatError => FormatError
            case Overrun => Overrun
            case Got(t, s5) => Got(MakeFunc(h, instrs, consts, funcs, t), s5)
  }

  function TakeFuncs(s: bytes, n: nat, acc: seq<Func>): (r: Load<seq<Func>>)
    ensures r.Got? ==> |r.rest| <= |s|
    decreases |s|, 1, n
  {
    if n == 0 then Got(acc, s) else
    match TakeFunc(s)
    case Got(f, t) => TakeFuncs(t, n - 1, acc + [f])
    case FormatError => FormatError
    case Overrun => Overrun
  }

  // ----- what survives -----

  /** Variables a load can store. */
  function Storable(vars: seq<Var>): seq<Var> {
    if vars == [] then []
    else (if vars[0].name == PROTO then [] else [vars[0]]) + Storable(vars[1..])
  }

  /** `f` after a dump and a load: every property present, a variable called `__proto__` gone. */
  function Reloaded(f: Func): Func {
    Func(f.instrs, f.consts, ReloadedAll(f.funcs), f.nregs, f.nargs, f.flags,
         Some(Length(f)), Some(Name(f)), Some(FileName(f)), Some(Pc2line(f)),
         Some(Storable(Vars(f))), Some(Slots(Formals(f))))
  }

  function ReloadedAll(funcs: seq<Func>): seq<Func> {
    if funcs == [] then [] else [Reloaded(funcs[0])] + ReloadedAll(funcs[1..])
  }

  // ----- the fields read back -----

  lemma U32Digits(n: u32)
    ensures n == n / 0x1000000 * 0x1000000 + n / 0x10000 % 0x100 * 0x10000 + n / 0x100 % 0x100 * 0x100 + n % 0x100
  {
    assert n / 0x10000 == n / 0x100 / 0x100 && n / 0x1000000 == n / 0x10000 / 0x100;
  }

  lemma U32Reads(n: u32, rest: bytes)
    ensures TakeU32(U32(n) + rest) == Got(n, rest)
  {
    U32Digits(n);
    assert (U32(n) + rest)[4..] == rest;
  }

  lemma U16Reads(n: u16, rest: bytes)
    ensures TakeU16(U16(n) + rest) == Got(n, rest)
  {
    assert (U16(n) + rest)[2..] == rest;
  }

  lemma BlobReads(s: bytes, rest: bytes)
    requires Fits(s)
    ensures TakeBlob(Blob(s) + rest) == Got(s, rest)
  {
    hide U32, TakeU32;
    assert Blob(s) + rest == U32(|s|) + (s + rest);
    U32Reads(|s|, s + rest);
  }

  lemma {:induction false} InstrsRead(instrs: seq<u32>, acc: seq<u32>, rest: bytes)
    ensures TakeInstrs(DumpInstrs(instrs) + rest, |instrs|, acc) == Got(acc + instrs, rest)
  {
    hide U32, TakeU32;
    if instrs == [] {
      assert DumpInstrs(instrs) + rest == rest && acc + instrs == acc;
    } else {
      var more := DumpInstrs(instrs[1..]) + rest;
      assert DumpInstrs(instrs) + rest == U32(instrs[0]) + more;
      U32Reads(instrs[0], more);
      InstrsRead(instrs[1..], acc + [instrs[0]], rest);
      assert acc + [instrs[0]] + instrs[1..] == acc + instrs;
    }
  }

  lemma ConstReads(c: Const, rest: bytes)
    requires ConstValid(c)
    ensures TakeConst(DumpConst(c) + rest) == Got(c, rest)
  {
    hide Blob, TakeBlob;
    var s := DumpConst(c) + rest;
    match c {
      case StrConst(str) =>
        assert s[1..] == Blob(str) + rest;
        BlobReads(str, rest);
      case NumConst(d) =>
        assert s[1..9] == d && s[9..] == rest;
    }
  }

  lemma {:induction false} ConstsRead(consts: seq<Const>, acc: seq<Const>, rest: bytes)
    requires forall c :: c in consts ==> ConstValid(c)
    ensures TakeConsts(DumpConsts(consts) + rest, |consts|, acc) == Got(acc + consts, rest)
  {
    hide DumpConst, TakeConst;
    if consts == [] {
      assert DumpConsts(consts) + rest == rest && acc + consts == acc;
    } else {
      var more := DumpConsts(consts[1..]) + rest;
      assert DumpConsts(consts) + rest == DumpConst(consts[0]) + more;
      ConstReads(consts[0], more);
      ConstsRead(consts[1..], acc + [consts[0]], rest);
      assert acc + [consts[0]] + consts[1..] == acc + consts;
    }
  }

  lemma {:induction false} StoreNew(vars: seq<Var>, v: Var)
    requires forall i :: 0 <= i < |vars| ==> vars[i].name != v.name
    ensures Store(vars, v.name, v.reg) == vars + [v]
  {
    if vars != [] { StoreNew(vars[1..], v); }
  }

  lemma {:induction false} VarsRead(vars: seq<Var>, acc: seq<Var>, rest: bytes)
    requires (forall v :: v in vars ==> VarValid(v)) && DistinctNames(acc + vars)
    ensures TakeVars(DumpVars(vars) + (U32(0) + rest), acc) == Got(acc + Storable(vars), rest)
  {
    hide U32, Blob, Store, DistinctNames, TakeVars;
    var end := U32(0) + rest;
    if vars == [] {
      assert DumpVars(vars) + end == end;
      VarsEnd(acc, rest);
      assert acc + Storable(vars) == acc;
    } else {
      var v := vars[0];
      assert VarValid(v);
      assert forall u :: u in vars[1..] ==> u in vars;
      var more := DumpVars(vars[1..]) + end;
      assert DumpVars(vars) + end == Blob(v.name) + (U32(v.reg) + more);
      NextVar(v, acc, more);
      NewName(acc, vars);
      if v.name == PROTO {
        assert [] + Storable(vars[1..]) == Storable(vars[1..]);
        DistinctSkip(acc, vars);
        VarsRead(vars[1..], acc, rest);
      } else {
        VarsRead(vars[1..], acc + [v], rest);
        assert acc + [v] + Storable(vars[1..]) == acc + ([v] + Storable(vars[1..]));
      }
    }
  }

  lemma VarsEnd(acc: seq<Var>, rest: bytes)
    ensures TakeVars(U32(0) + rest, acc) == Got(acc, rest)
  {
    hide U32, TakeU32, Blob, TakeBlob;
    EmptyBlob();
    BlobReads([], rest);
  }

  lemma NextVar(v: Var, acc: seq<Var>, more: bytes)
    requires VarValid(v)
    ensures TakeVars(Blob(v.name) + (U32(v.reg) + more), acc) == TakeVars(more, PutVar(acc, v.name, v.reg))
  {
    hide U32, TakeU32, Blob, TakeBlob, PutVar;
    BlobReads(v.name, U32(v.reg) + more);
    U32Reads(v.reg, more);
  }

  lemma NewName(acc: seq<Var>, vars: seq<Var>)
    requires vars != [] && DistinctNames(acc + vars)
    ensures Store(acc, vars[0].name, vars[0].reg) == acc + [vars[0]] && acc + [vars[0]] + vars[1..] == acc + vars
  {
    forall i | 0 <= i < |acc| ensures acc[i].name != vars[0].name {
      assert (acc + vars)[i] == acc[i] && (acc + vars)[|acc|] == vars[0];
    }
    StoreNew(acc, vars[0]);
  }

  lemma EmptyBlob()
    ensures Blob([]) == U32(0)
  {
    assert U32(0) + [] == U32(0);
  }

  lemma DistinctSkip(acc: seq<Var>, vars: seq<Var>)
    requires vars != [] && DistinctNames(acc + vars)
    ensures DistinctNames(acc + vars[1..])
  {
    var a, b := acc + vars, acc + vars[1..];
    forall i, j | 0 <= i < j < |b| ensures b[i].name != b[j].name {
      var i', j' := if i < |acc| then i else i + 1, if j < |acc| then j else j + 1;
      assert b[i] == a[i'] && b[j] == a[j'];
    }
  }

  lemma {:induction false} NamesRead(names: seq<bytes>, acc: seq<bytes>, rest: bytes)
    requires forall n :: n in names ==> NameValid(n)
    ensures TakeNames(DumpNames(names) + (U32(0) + rest), acc) == Got(acc + names, rest)
  {
    hide U32, TakeU32, Blob, TakeBlob;
    var end := U32(0) + rest;
    if names == [] {
      assert DumpNames(names) + end == Blob([]) + rest by { EmptyBlob(); }
      BlobReads([], rest);
      assert acc + names == acc;
    } else {
      assert NameValid(names[0]);
      assert forall n :: n in names[1..] ==> n in names;
      var more := DumpNames(names[1..]) + end;
      assert DumpNames(names) + end == Blob(names[0]) + more;
      BlobReads(names[0], more);
      NamesRead(names[1..], acc + [names[0]], rest);
      assert acc + [names[0]] + names[1..] == acc + names;
    }
  }

  lemma HeaderReads(f: Func, rest: bytes)
    requires Valid(f)
    ensures TakeHead(Header(f) + rest) ==
      Got(Head(|f.instrs|, |f.consts|, |f.funcs|, f.nregs, f.nargs, f.flags), rest)
  {
    hide U32, U16, TakeU32, TakeU16, DistinctNames, VarValid, ConstValid;
    var i, c, g: u32 := |f.instrs|, |f.consts|, |f.funcs|;
    var flags := U32(f.flags) + rest;
    var lines := U32(0) + U32(0) + flags;
    var args := U16(f.nargs) + lines;
    var regs := U16(f.nregs) + args;
    assert Header(f) + rest == U32(i) + (U32(c) + (U32(g) + regs));
    U32Reads(i, U32(c) + (U32(g) + regs));
    U32Reads(c, U32(g) + regs);
    U32Reads(g, regs);
    U16Reads(f.nregs, args);
    U16Reads(f.nargs, lines);
    assert lines[8..] == flags;
    U32Reads(f.flags, rest);
  }

  lemma PropsRead(f: Func, rest: bytes)
    requires Valid(f)
    ensures TakeTail(Props(f) + rest) ==
      Got(Tail(Length(f), Name(f), FileName(f), Pc2line(f), Storable(Vars(f)), Formals(f)), rest)
  {
    hide U32, TakeU32, Blob, TakeBlob, TakeVars, TakeNames, DumpVars, DumpNames, Length, Name, FileName, Pc2line, Storable, Vars, Formals;
    var names := DumpNames(Formals(f)) + (U32(0) + rest);
    var vars := DumpVars(Vars(f)) + (U32(0) + names);
    assert Props(f) + rest ==
      U32(Length(f)) + (Blob(Name(f)) + (Blob(FileName(f)) + (Blob(Pc2line(f)) + vars)));
    U32Reads(Length(f), Blob(Name(f)) + (Blob(FileName(f)) + (Blob(Pc2line(f)) + vars)));
    BlobReads(Name(f), Blob(FileName(f)) + (Blob(Pc2line(f)) + vars));
    BlobReads(FileName(f), Blob(Pc2line(f)) + vars);
    BlobReads(Pc2line(f), vars);
    assert [] + Vars(f) == Vars(f);
    VarsRead(Vars(f), [], names);
    assert [] + Storable(Vars(f)) == Storable(Vars(f));
    NamesRead(Formals(f), [], rest);
    assert [] + Formals(f) == Formals(f);
  }

  /** Loading undoes dumping, for every nested function tree and whatever follows the dump: the load
      stops exactly where the dump ended. */
  lemma {:induction false} LoadDump(f: Func, rest: bytes)
    requires Valid(f)
    ensures TakeFunc(Dump(f) + rest) == Got(Reloaded(f), rest)
    decreases f, 1
  {
    hide Header, TakeHead, DumpInstrs, TakeInstrs, DumpConsts, TakeConsts, Props, TakeTail, DumpFuncs, TakeFuncs, Slots, Storable;
    var s4 := Props(f) + rest;
    var s3 := DumpFuncs(f.funcs) + s4;
    var s2 := DumpConsts(f.consts) + s3;
    var s1 := DumpInstrs(f.instrs) + s2;
    assert Dump(f) + rest == Header(f) + s1;
    HeaderReads(f, s1);
    InstrsRead(f.instrs, [], s2);
    assert [] + f.instrs == f.instrs;
    ConstsRead(f.consts, [], s3);
    assert [] + f.consts == f.consts;
    FuncsLoad(f.funcs, [], s4);
    assert [] + ReloadedAll(f.funcs) == ReloadedAll(f.funcs);
    PropsRead(f, rest);
  }

  lemma {:induction false} FuncsLoad(funcs: seq<Func>, acc: seq<Func>, rest: bytes)
    requires forall g :: g in funcs ==> Valid(g)
    ensures TakeFuncs(DumpFuncs(funcs) + rest, |funcs|, acc) == Got(acc + ReloadedAll(funcs), rest)
    decreases funcs, 0
  {
    hide Dump, TakeFunc, Valid, Reloaded;
    if funcs == [] {
      assert DumpFuncs(funcs) + rest == rest && acc + ReloadedAll(funcs) == acc;
    } else {
      var more := DumpFuncs(funcs[1..]) + rest;
      assert DumpFuncs(funcs) + rest == Dump(funcs[0]) + more;
      LoadDump(funcs[0], more);
      FuncsLoad(funcs[1..], acc + [Reloaded(funcs[0])], rest);
      assert acc + [Reloaded(funcs[0])] + ReloadedAll(funcs[1..]) == acc + ReloadedAll(funcs);
    }
  }

  // ----- what a round trip keeps -----

  /** `f` with every missing property filled in with its default, at every depth. */
  function Completed(f: Func): Func {
    Func(f.instrs, f.consts, CompletedAll(f.funcs), f.nregs, f.nargs, f.flags,
         Some(Length(f)), Some(Name(f)), Some(FileName(f)), Some(Pc2line(f)), Some(Vars(f)), Some(Slots(Formals(f))))
  }

  function CompletedAll(funcs: seq<Func>): seq<Func> {
    if funcs == [] then [] else [Completed(funcs[0])] + CompletedAll(funcs[1..])
  }

  /** No variable of `f` or of a function inside it is called `__proto__`. */
  predicate NoProtoVar(f: Func)
    decreases f, 1
  {
    (forall v :: v in Vars(f) ==> v.name != PROTO) && NoProtoVarAll(f.funcs)
  }

  predicate NoProtoVarAll(funcs: seq<Func>)
    decreases funcs, 0
  {
    funcs == [] || (NoProtoVar(funcs[0]) && NoProtoVarAll(funcs[1..]))
  }

  lemma {:induction false} StorableAll(vars: seq<Var>)
    ensures |Storable(vars)| <= |vars|
    ensures Storable(vars) == vars <==> forall v :: v in vars ==> v.name != PROTO
    ensures (exists v :: v in vars && v.name == PROTO) ==> |Storable(vars)| < |vars|
  {
    if vars != [] {
      StorableAll(vars[1..]);
      assert vars == [vars[0]] + vars[1..];
      if vars[0].name != PROTO {
        assert Storable(vars) == [vars[0]] + Storable(vars[1..]);
        assert Storable(vars) == vars ==> Storable(vars)[1..] == Storable(vars[1..]) && vars[1..] == Storable(vars)[1..];
      }
    }
  }

  /** A load after a dump gives the whole function back, defaults filled in, exactly when no variable
      is called `__proto__`. */
  lemma {:induction false} ReloadedComplete(f: Func)
    ensures Reloaded(f) == Completed(f) <==> NoProtoVar(f)
    decreases f, 1
  {
    StorableAll(Vars(f));
    ReloadedCompleteAll(f.funcs);
  }

  lemma {:induction false} ReloadedCompleteAll(funcs: seq<Func>)
    ensures |ReloadedAll(funcs)| == |CompletedAll(funcs)| == |funcs|
    ensures ReloadedAll(funcs) == CompletedAll(funcs) <==> NoProtoVarAll(funcs)
    decreases funcs, 0
  {
    if funcs != [] {
      ReloadedComplete(funcs[0]);
      ReloadedCompleteAll(funcs[1..]);
      var a, b := ReloadedAll(funcs), CompletedAll(funcs);
      assert a[0] == Reloaded(funcs[0]) && b[0] == Completed(funcs[0]);
      assert a[1..] == ReloadedAll(funcs[1..]) && b[1..] == CompletedAll(funcs[1..]);
      assert a == [a[0]] + a[1..] && b == [b[0]] + b[1..];
    }
  }

  lemma {:induction false} StringsSlots(names: seq<bytes>)
    ensures Strings(Slots(names)) == names
  {
    if names != [] {
      var t := Slots(names);
      assert t[1..] == Slots(names[1..]);
      StringsSlots(names[1..]);
    }
  }

  lemma {:induction false} StorableSubset(vars: seq<Var>)
    requires DistinctNames(vars)
    ensures DistinctNames(Storable(vars)) && forall v :: v in Storable(vars) ==> v in vars
    ensures Storable(Storable(vars)) == Storable(vars)
  {
    if vars != [] {
      StorableSubset(vars[1..]);
      var rest := Storable(vars[1..]);
      if vars[0].name == PROTO {
        assert Storable(vars) == rest;
      } else {
        var all := Storable(vars);
        assert all == [vars[0]] + rest && all[1..] == rest;
        forall j | 1 <= j < |all| ensures all[j].name != all[0].name {
          assert all[j] == rest[j - 1] && rest[j - 1] in vars[1..];
          var k :| 0 <= k < |vars[1..]| && vars[1..][k] == all[j];
          assert vars[k + 1] == all[j];
        }
      }
    }
  }

  /** A reloaded function is again a dumpable one, and reloading it once more changes nothing. */
  lemma {:induction false} ReloadedValid(f: Func)
    requires Valid(f)
    ensures Valid(Reloaded(f)) && Reloaded(Reloaded(f)) == Reloaded(f)
    ensures Vars(Reloaded(f)) == Storable(Vars(f)) && Formals(Reloaded(f)) == Formals(f)
    decreases f, 1
  {
    StorableSubset(Vars(f));
    StringsSlots(Formals(f));
    ReloadedAllValid(f.funcs);
  }

  lemma {:induction false} ReloadedAllValid(funcs: seq<Func>)
    requires forall g :: g in funcs ==> Valid(g)
    ensures |ReloadedAll(funcs)| == |funcs| && forall g :: g in ReloadedAll(funcs) ==> Valid(g)
    ensures ReloadedAll(ReloadedAll(funcs)) == ReloadedAll(funcs)
    decreases funcs, 0
  {
    if funcs != [] {
      ReloadedValid(funcs[0]);
      ReloadedAllValid(funcs[1..]);
      var a := ReloadedAll(funcs);
      assert a[1..] == ReloadedAll(funcs[1..]);
    }
  }

  lemma {:induction false} DumpVarsShrinks(vars: seq<Var>)
    requires forall v :: v in vars ==> VarValid(v)
    requires forall v :: v in Storable(vars) ==> VarValid(v)
    ensures |DumpVars(Storable(vars))| <= |DumpVars(vars)|
    ensures |DumpVars(Storable(vars))| == |DumpVars(vars)| <==> forall v :: v in vars ==> v.name != PROTO
  {
    if vars != [] {
      var rest := Storable(vars[1..]);
      assert forall v :: v in vars[1..] ==> v in vars;
      assert forall v :: v in vars ==> v == vars[0] || v in vars[1..];
      if vars[0].name == PROTO {
        assert Storable(vars) == rest;
        DumpVarsShrinks(vars[1..]);
      } else {
        assert Storable(vars) == [vars[0]] + rest && Storable(vars)[1..] == rest;
        assert forall v :: v in rest ==> v in Storable(vars);
        DumpVarsShrinks(vars[1..]);
      }
    }
  }

  lemma DumpSize(f: Func)
    requires Valid(f)
    ensures |Dump(f)| == 28 + |DumpInstrs(f.instrs)| + |DumpConsts(f.consts)| + |DumpFuncs(f.funcs)| +
      4 + |Blob(Name(f))| + |Blob(FileName(f))| + |Blob(Pc2line(f))| + |DumpVars(Vars(f))| + 4 + |DumpNames(Formals(f))| + 4
  {
    hide Valid, U32, U16, Blob, DumpInstrs, DumpConsts, DumpVars, DumpNames, DumpFuncs, Length, Name, FileName, Pc2line, Vars, Formals;
  }

  /** Dumping what was loaded gives the same bytes exactly when no variable is called `__proto__`,
      even if properties were missing; otherwise the second dump is shorter. */
  lemma {:induction false} RedumpSame(f: Func)
    requires Valid(f)
    ensures Valid(Reloaded(f)) && |Dump(Reloaded(f))| <= |Dump(f)|
    ensures Dump(Reloaded(f)) == Dump(f) <==> NoProtoVar(f)
    ensures |Dump(Reloaded(f))| == |Dump(f)| <==> NoProtoVar(f)
    decreases f, 1
  {
    hide Valid, Blob, DumpConsts, DumpInstrs, DumpVars, DumpNames, Storable, Formals, U32, U16;
    ReloadedValid(f);
    assert (forall v :: v in Vars(f) ==> VarValid(v)) && (forall v :: v in Storable(Vars(f)) ==> VarValid(v))
      && (forall g :: g in f.funcs ==> Valid(g)) && (forall g :: g in ReloadedAll(f.funcs) ==> Valid(g))
      && |ReloadedAll(f.funcs)| == |f.funcs| by { ValidParts(f); ReloadedAllValid(f.funcs); }
    DumpVarsShrinks(Vars(f));
    StorableAll(Vars(f));
    RedumpAllSame(f.funcs);
    DumpSize(f);
    DumpSize(Reloaded(f));
  }

  lemma ValidParts(f: Func)
    requires Valid(f)
    ensures (forall v :: v in Vars(f) ==> VarValid(v)) && DistinctNames(Vars(f))
    ensures forall g :: g in f.funcs ==> Valid(g)
    ensures forall v :: v in Storable(Vars(f)) ==> VarValid(v)
  {
    StorableSubset(Vars(f));
  }

  lemma {:induction false} RedumpAllSame(funcs: seq<Func>)
    requires (forall g :: g in funcs ==> Valid(g)) && forall g :: g in ReloadedAll(funcs) ==> Valid(g)
    ensures |DumpFuncs(ReloadedAll(funcs))| <= |DumpFuncs(funcs)|
    ensures DumpFuncs(ReloadedAll(funcs)) == DumpFuncs(funcs) <==> NoProtoVarAll(funcs)
    ensures |DumpFuncs(ReloadedAll(funcs))| == |DumpFuncs(funcs)| <==> NoProtoVarAll(funcs)
    decreases funcs, 0
  {
    hide Valid, Dump, Reloaded, NoProtoVar;
    if funcs != [] {
      RedumpSame(funcs[0]);
      var a := ReloadedAll(funcs);
      assert a[1..] == ReloadedAll(funcs[1..]);
      assert forall g :: g in a[1..] ==> g in a;
      RedumpAllSame(funcs[1..]);
    }
  }

  /** A function with one variable, called `__proto__`: it loses that variable. */
  lemma ProtoVariableIsLost()
    ensures var f := Func([], [], [], 0, 0, 0, None, None, None, None, Some([Var(PROTO, 1)]), None);
      Valid(f) && TakeFunc(Dump(f)).Got? && Vars(TakeFunc(Dump(f)).value) == []
  {
    hide Dump, TakeFunc, Slots, Length;
    var f := Func([], [], [], 0, 0, 0, None, None, None, None, Some([Var(PROTO, 1)]), None);
    assert Vars(f) == [Var(PROTO, 1)] && Formals(f) == [];
    assert Valid(f);
    LoadDump(f, []);
    assert Dump(f) + [] == Dump(f);
    assert Storable(Vars(f)) == [] by { assert Vars(f)[1..] == []; }
  }

  // ----- dumping -----

  /** The buffer writer of a dump. */
  class Dumper {
    var bw: bytes

    constructor ()
      ensures bw == []
    {
      bw := [];
    }

    method RawU32(n: u32)
      modifies this
      ensures bw == old(bw) + U32(n)
    {
      bw := bw + [n / 0x1000000, n / 0x10000 % 0x100, n / 0x100 % 0x100, n % 0x100];
    }

    method RawU16(n: u16)
      modifies this
      ensures bw == old(bw) + U16(n)
    {
      bw := bw + [n / 0x100, n % 0x100];
    }

    method RawBlob(s: bytes)
      requires Fits(s)
      modifies this
      ensures bw == old(bw) + Blob(s)
    {
      RawU32(|s|);
      bw := bw + s;
    }

    method DumpHeader(f: Func)
      requires Valid(f)
      modifies this
      ensures bw == old(bw) + Header(f)
    {
      hide U32, U16, Valid;
      assert |f.instrs| < 0x1_0000_0000 && |f.consts| < 0x1_0000_0000 && |f.funcs| < 0x1_0000_0000 by { ValidSizes(f); }
      RawU32(|f.instrs|);
      RawU32(|f.consts|);
      RawU32(|f.funcs|);
      RawU16(f.nregs);
      RawU16(f.nargs);
      RawU32(0);
      RawU32(0);
      RawU32(f.flags);
    }

    method DumpCode(instrs: seq<u32>)
      modifies this
      ensures bw == old(bw) + DumpInstrs(instrs)
    {
      hide U32;
      var ins := 0;
      assert instrs[0..] == instrs;
      while ins != |instrs|
        invariant ins <= |instrs|
        invariant bw + DumpInstrs(instrs[ins..]) == old(bw) + DumpInstrs(instrs)
      {
        assert instrs[ins..][1..] == instrs[ins + 1..];
        Cat(bw, U32(instrs[ins]), DumpInstrs(instrs[ins + 1..]));
        RawU32(instrs[ins]);
        ins := ins + 1;
      }
      assert bw + DumpInstrs(instrs[ins..]) == bw;
    }

    method DumpConstants(consts: seq<Const>)
      requires forall c :: c in consts ==> ConstValid(c)
      modifies this
      ensures bw == old(bw) + DumpConsts(consts)
    {
      hide Blob;
      var tv := 0;
      assert consts[0..] == consts;
      while tv != |consts|
        invariant tv <= |consts|
        invariant bw + DumpConsts(consts[tv..]) == old(bw) + DumpConsts(consts)
      {
        assert consts[tv..][1..] == consts[tv + 1..];
        assert ConstValid(consts[tv]);
        Cat(bw, DumpConst(consts[tv]), DumpConsts(consts[tv + 1..]));
        ghost var before := bw;
        match consts[tv] {
          case StrConst(str) =>
            bw := bw + [SER_STRING];
            RawBlob(str);
            Cat(before, [SER_STRING], Blob(str));
          case NumConst(d) =>
            bw := bw + [SER_NUMBER];
            bw := bw + d;
            Cat(before, [SER_NUMBER], d);
        }
        tv := tv + 1;
      }
      assert bw + DumpConsts(consts[tv..]) == bw;
    }

    method DumpVarmap(vars: seq<Var>)
      requires forall v :: v in vars ==> VarValid(v)
      modifies this
      ensures bw == old(bw) + DumpVars(vars) + U32(0)
    {
      hide U32, Blob;
      var i := 0;
      assert vars[0..] == vars;
      while i < |vars|
        invariant i <= |vars|
        invariant bw + DumpVars(vars[i..]) == old(bw) + DumpVars(vars)
      {
        assert vars[i..][1..] == vars[i + 1..];
        assert VarValid(vars[i]);
        ghost var before := bw;
        RawBlob(vars[i].name);
        RawU32(vars[i].reg);
        Cat(before, Blob(vars[i].name) + U32(vars[i].reg), DumpVars(vars[i + 1..]));
        Cat(before, Blob(vars[i].name), U32(vars[i].reg));
        i := i + 1;
      }
      assert bw + DumpVars(vars[i..]) == bw;
      RawU32(0);
    }

    /** Parameter names from the used slots of the array part. */
    method DumpFormals(slots: seq<Option<bytes>>)
      requires forall n :: n in Strings(slots) ==> NameValid(n)
      modifies this
      ensures bw == old(bw) + DumpNames(Strings(slots)) + U32(0)
    {
      hide U32, Blob;
      var i := 0;
      assert slots[0..] == slots;
      while i < |slots|
        invariant i <= |slots| && forall n :: n in Strings(slots[i..]) ==> NameValid(n)
        invariant bw + DumpNames(Strings(slots[i..])) == old(bw) + DumpNames(Strings(slots))
      {
        ghost var more := Strings(slots[i + 1..]);
        assert slots[i..][1..] == slots[i + 1..];
        if slots[i].Some? {
          assert Strings(slots[i..]) == [slots[i].value] + more;
          assert Strings(slots[i..])[1..] == more;
          assert NameValid(slots[i].value);
          Cat(bw, Blob(slots[i].value), DumpNames(more));
          RawBlob(slots[i].value);
        } else {
          assert Strings(slots[i..]) == [] + more == more;
        }
        i := i + 1;
      }
      assert bw + DumpNames(Strings(slots[i..])) == bw;
      RawU32(0);
    }

    method DumpProps(f: Func)
      requires Valid(f)
      modifies this
      ensures bw == old(bw) + Props(f)
    {
      hide U32, Blob, DumpVars, DumpNames, Strings;
      ghost var b := bw;
      RawU32(if f.length.Some? then f.length.value else f.nargs);
      RawBlob(if f.name.Some? then f.name.value else []);
      RawBlob(if f.fileName.Some? then f.fileName.value else []);
      RawBlob(if f.pc2line.Some? then f.pc2line.value else []);
      DumpVarmap(Vars(f));
      assert Formals(f) == Strings(if f.formals.Some? then f.formals.value else []) by { NoStrings(); }
      DumpFormals(if f.formals.Some? then f.formals.value else []);
      assert bw == b + Props(f) by {
        Cat8(b, U32(Length(f)), Blob(Name(f)), Blob(FileName(f)), Blob(Pc2line(f)), DumpVars(Vars(f)), U32(0), DumpNames(Formals(f)), U32(0));
      }
    }

    method DumpFunc(f: Func)
      requires Valid(f)
      modifies this
      ensures bw == old(bw) + Dump(f)
      decreases f
    {
      hide Header, Props, DumpInstrs, DumpConsts, DumpVars;
      ghost var b := bw;
      DumpHeader(f);
      DumpCode(f.instrs);
      DumpConstants(f.consts);
      ghost var c := bw;
      var fn := 0;
      assert f.funcs[0..] == f.funcs;
      while fn != |f.funcs|
        invariant fn <= |f.funcs|
        invariant bw + DumpFuncs(f.funcs[fn..]) == c + DumpFuncs(f.funcs)
      {
        assert f.funcs[fn..][1..] == f.funcs[fn + 1..];
        Cat(bw, Dump(f.funcs[fn]), DumpFuncs(f.funcs[fn + 1..]));
        DumpFunc(f.funcs[fn]);
        fn := fn + 1;
      }
      assert bw + DumpFuncs(f.funcs[fn..]) == bw;
      DumpProps(f);
      Cat5(b, Header(f), DumpInstrs(f.instrs), DumpConsts(f.consts), DumpFuncs(f.funcs), Props(f));
    }

    /** duk_dump_function(): signature, then the function. */
    method DumpFunction(f: Func)
      requires Valid(f) && bw == []
      modifies this
      ensures bw == [0xff, 0x00] + Dump(f)
    {
      hide Dump;
      bw := bw + [SER_MARKER, SER_VERSION];
      assert bw == [SER_MARKER, SER_VERSION];
      DumpFunc(f);
    }
  }

  lemma ValidSizes(f: Func)
    requires Valid(f)
    ensures |f.instrs| < 0x1_0000_0000 && |f.consts| < 0x1_0000_0000 && |f.funcs| < 0x1_0000_0000
  {
  }

  lemma NoStrings()
    ensures Strings([]) == []
  {
  }

  lemma Cat(a: bytes, b: bytes, c: bytes)
    ensures a + (b + c) == a + b + c
  {
  }

  lemma Cat5(a: bytes, b: bytes, c: bytes, d: bytes, e: bytes, f: bytes)
    ensures a + (b + c + d + e + f) == a + b + c + d + e + f
  {
  }

  lemma Cat8(a: bytes, b: bytes, c: bytes, d: bytes, e: bytes, f: bytes, g: bytes, h: bytes, i: bytes)
    ensures a + (b + c + d + e + f + g + h + i) == a + b + c + d + e + f + g + h + i
  {
  }

  // ----- loading -----

  /** What the loader keeps on the value stack. */
  datatype Item = FuncSlot | DataSlot | ConstItem(c: Const) | FuncItem(f: Func)

  function ConstItems(consts: seq<Const>): seq<Item> {
    if consts == [] then [] else ConstItems(consts[..|consts| - 1]) + [ConstItem(consts[|consts| - 1])]
  }

  function FuncItems(funcs: seq<Func>): seq<Item> {
    if funcs == [] then [] else FuncItems(funcs[..|funcs| - 1]) + [FuncItem(funcs[|funcs| - 1])]
  }

  lemma NoFuncItems()
    ensures FuncItems([]) == []
  {
  }

  lemma FuncItemsMore(funcs: seq<Func>, f: Func)
    ensures FuncItems(funcs + [f]) == FuncItems(funcs) + [FuncItem(f)]
  {
    assert (funcs + [f])[..|funcs|] == funcs;
  }

  /** The first of `n` functions. */
  lemma FuncsStep(s: bytes, n: nat, acc: seq<Func>)
    ensures n == 0 ==> TakeFuncs(s, n, acc) == Got(acc, s)
    ensures n > 0 && TakeFunc(s).Overrun? ==> TakeFuncs(s, n, acc).Overrun?
    ensures n > 0 && TakeFunc(s).FormatError? ==> TakeFuncs(s, n, acc).FormatError?
    ensures n > 0 && TakeFunc(s).Got? ==> TakeFuncs(s, n, acc) == TakeFuncs(TakeFunc(s).rest, n - 1, acc + [TakeFunc(s).value])
  {
    hide TakeFunc;
  }

  lemma {:induction false} ConstItemsAt(consts: seq<Const>)
    ensures |ConstItems(consts)| == |consts|
    ensures forall i :: 0 <= i < |consts| ==> ConstItems(consts)[i] == ConstItem(consts[i])
  {
    if consts != [] { ConstItemsAt(consts[..|consts| - 1]); }
  }

  lemma {:induction false} FuncItemsAt(funcs: seq<Func>)
    ensures |FuncItems(funcs)| == |funcs|
    ensures forall i :: 0 <= i < |funcs| ==> FuncItems(funcs)[i] == FuncItem(funcs[i])
  {
    if funcs != [] { FuncItemsAt(funcs[..|funcs| - 1]); }
  }

  lemma {:induction false} TakeInstrsCount(s: bytes, n: nat, acc: seq<u32>)
    ensures TakeInstrs(s, n, acc).Got? ==> |TakeInstrs(s, n, acc).value| == |acc| + n
    decreases n
  {
    if n > 0 && TakeU32(s).Got? { TakeInstrsCount(TakeU32(s).rest, n - 1, acc + [TakeU32(s).value]); }
  }

  /** A cursor over trusted data, and the value stack that keeps loaded parts reachable. */
  class Loader {
    const buf: bytes
    var p: nat
    var stack: seq<Item>

    constructor (data: bytes)
      ensures buf == data && p == 0 && stack == []
    {
      buf := data;
      p, stack := 0, [];
    }

    function Left(): bytes
      requires p <= |buf|
      reads this
    {
      buf[p..]
    }

    /** The cursor moved past what `r` says was read. */
    ghost predicate Read<T>(r: Load<T>, v: T)
      reads this
    {
      p <= |buf| && r == Got(v, Left())
    }

    method RawU32() returns (n: u32)
      requires p <= |buf| && TakeU32(Left()).Got?
      modifies this`p
      ensures Read(TakeU32(old(Left())), n)
    {
      var a: int, b: int, c: int, d: int := buf[p], buf[p + 1], buf[p + 2], buf[p + 3];
      n := a * 0x1000000 + b * 0x10000 + c * 0x100 + d;
      p := p + 4;
    }

    method RawU16() returns (n: u16)
      requires p <= |buf| && TakeU16(Left()).Got?
      modifies this`p
      ensures Read(TakeU16(old(Left())), n)
    {
      var a: int, b: int := buf[p], buf[p + 1];
      n := a * 0x100 + b;
      p := p + 2;
    }

    method RawBlob() returns (s: bytes)
      requires p <= |buf| && TakeBlob(Left()).Got?
      modifies this`p
      ensures Read(TakeBlob(old(Left())), s)
    {
      hide TakeU32;
      ghost var before := Left();
      var len := RawU32();
      assert TakeU32(before) == Got(len, Left());
      s := buf[p..p + len];
      assert Left()[..len] == s;
      p := p + len;
    }

    method LoadHead() returns (h: Head)
      requires p <= |buf| && TakeHead(Left()).Got?
      modifies this`p
      ensures Read(TakeHead(old(Left())), h)
    {
      hide TakeU32, TakeU16;
      var a := RawU32();
      var b := RawU32();
      var c := RawU32();
      var d := RawU16();
      var e := RawU16();
      assert Left()[8..] == buf[p + 8..];
      p := p + 8;
      var f := RawU32();
      h := Head(a, b, c, d, e, f);
    }

    method LoadInstrs(count: nat) returns (instrs: seq<u32>)
      requires p <= |buf| && TakeInstrs(Left(), count, []).Got?
      modifies this`p
      ensures Read(TakeInstrs(old(Left()), count, []), instrs)
    {
      hide TakeU32;
      instrs := [];
      var n: nat := count;
      while n > 0
        invariant n <= count && p <= |buf|
        invariant TakeInstrs(Left(), n, instrs) == TakeInstrs(old(Left()), count, [])
      {
        var x := RawU32();
        instrs := instrs + [x];
        n := n - 1;
      }
    }

    method LoadConst() returns (c: Option<Const>)
      requires p <= |buf| && !TakeConst(Left()).Overrun?
      modifies this`p
      ensures match c
        case None => TakeConst(old(Left())).FormatError?
        case Some(v) => Read(TakeConst(old(Left())), v)
    {
      hide TakeBlob;
      var t := buf[p];
      assert Left()[1..] == buf[p + 1..];
      if t == SER_STRING {
        p := p + 1;
        var str := RawBlob();
        return Some(StrConst(str));
      } else if t == SER_NUMBER {
        assert Left()[1..9] == buf[p + 1..p + 9] && Left()[9..] == buf[p + 9..];
        c := Some(NumConst(buf[p + 1..p + 9]));
        p := p + 9;
      } else {
        return None;
      }
    }

    /** Constants go onto the value stack. */
    method LoadConsts(count: nat) returns (ghost consts: seq<Const>, ok: bool)
      requires p <= |buf| && !TakeConsts(Left(), count, []).Overrun?
      modifies this
      ensures !ok ==> TakeConsts(old(Left()), count, []).FormatError?
      ensures ok ==> Read(TakeConsts(old(Left()), count, []), consts)
      ensures ok ==> |consts| == count && stack == old(stack) + ConstItems(consts)
    {
      hide TakeConst;
      consts := [];
      var n: nat := count;
      assert stack == old(stack) + [];
      while n > 0
        invariant n <= count && p <= |buf| && |consts| == count - n
        invariant TakeConsts(Left(), n, consts) == TakeConsts(old(Left()), count, [])
        invariant stack == old(stack) + ConstItems(consts)
      {
        var c := LoadConst();
        if c.None? { return consts, false; }
        assert (consts + [c.value])[..|consts|] == consts;
        stack := stack + [ConstItem(c.value)];
        consts := consts + [c.value];
        n := n - 1;
      }
      ok := true;
    }

    method LoadVarmap() returns (vars: seq<Var>)
      requires p <= |buf| && TakeVars(Left(), []).Got?
      modifies this`p
      ensures Read(TakeVars(old(Left()), []), vars)
    {
      hide TakeU32, TakeBlob, PutVar;
      vars := [];
      while true
        invariant p <= |buf| && TakeVars(Left(), vars) == TakeVars(old(Left()), [])
        decreases |buf| - p
      {
        ghost var here := p;
        var name := RawBlob();
        if name == [] { return; }
        var reg := RawU32();
        assert |Left()| < |buf| - here;
        vars := PutVar(vars, name, reg);
      }
    }

    method LoadFormals() returns (names: seq<bytes>)
      requires p <= |buf| && TakeNames(Left(), []).Got?
      modifies this`p
      ensures Read(TakeNames(old(Left()), []), names)
    {
      hide TakeBlob;
      names := [];
      while true
        invariant p <= |buf| && TakeNames(Left(), names) == TakeNames(old(Left()), [])
        decreases |buf| - p
      {
        ghost var here := p;
        var name := RawBlob();
        assert |Left()| < |buf| - here;
        if name == [] { return; }
        names := names + [name];
      }
    }

    method LoadTail() returns (t: Tail)
      requires p <= |buf| && TakeTail(Left()).Got?
      modifies this`p
      ensures Read(TakeTail(old(Left())), t)
    {
      hide TakeU32, TakeBlob, TakeVars, TakeNames;
      var length := RawU32();
      var name := RawBlob();
      var fileName := RawBlob();
      var pc2line := RawBlob();
      var vars := LoadVarmap();
      var formals := LoadFormals();
      t := Tail(length, name, fileName, pc2line, vars, formals);
    }

    /** Inner functions go onto the value stack behind the constants. */
    method LoadFuncs(count: nat) returns (ghost funcs: seq<Func>, ok: bool)
      requires p <= |buf| && !TakeFuncs(Left(), count, []).Overrun?
      modifies this
      ensures !ok ==> TakeFuncs(old(Left()), count, []).FormatError?
      ensures ok ==> Read(TakeFuncs(old(Left()), count, []), funcs)
      ensures ok ==> |funcs| == count && stack == old(stack) + FuncItems(funcs)
      decreases |buf| - p, 1
    {
      hide TakeFunc, TakeFuncs, FuncItems;
      funcs := [];
      var n: nat := count;
      NoFuncItems();
      assert stack == old(stack) + [];
      while n > 0
        invariant n <= count && old(p) <= p <= |buf| && |funcs| == count - n
        invariant TakeFuncs(Left(), n, funcs) == TakeFuncs(old(Left()), count, [])
        invariant stack == old(stack) + FuncItems(funcs)
      {
        FuncsStep(Left(), n, funcs);
        var f, done := LoadFunc();
        if !done { return funcs, false; }
        FuncItemsMore(funcs, f);
        funcs := funcs + [f];
        n := n - 1;
      }
      FuncsStep(Left(), 0, funcs);
      ok := true;
    }

    /** The constants and inner functions of a function under construction, copied off the stack. */
    method CopyParts(base: nat, nConst: nat, nFuncs: nat, ghost consts: seq<Const>, ghost funcs: seq<Func>)
      returns (cs: seq<Const>, fs: seq<Func>)
      requires |consts| == nConst && |funcs| == nFuncs && base <= |stack|
      requires stack[base..] == [FuncSlot, DataSlot] + ConstItems(consts) + FuncItems(funcs)
      ensures cs == consts && fs == funcs
    {
      ConstItemsAt(consts);
      FuncItemsAt(funcs);
      ghost var top := stack[base..];
      cs, fs := [], [];
      var tv := base + 2;
      while |cs| < nConst
        invariant |cs| <= nConst && tv == base + 2 + |cs| && cs == consts[..|cs|]
      {
        assert stack[tv] == top[2 + |cs|] == ConstItem(consts[|cs|]);
        cs := cs + [stack[tv].c];
        tv := tv + 1;
      }
      while |fs| < nFuncs
        invariant |fs| <= nFuncs && tv == base + 2 + nConst + |fs| && fs == funcs[..|fs|]
      {
        assert stack[tv] == top[2 + nConst + |fs|] == FuncItem(funcs[|fs|]);
        fs := fs + [stack[tv].f];
        tv := tv + 1;
      }
    }

    /** One function: header and code, parts onto the stack, parts off the stack into the function,
        properties.  Leaves exactly the function on top of the stack. */
    method LoadFunc() returns (f: Func, ok: bool)
      requires p <= |buf| && !TakeFunc(Left()).Overrun?
      modifies this
      ensures !ok ==> TakeFunc(old(Left())).FormatError?
      ensures ok ==> Read(TakeFunc(old(Left())), f) && p > old(p)
      ensures ok ==> stack == old(stack) + [FuncItem(f)]
      decreases |buf| - p, 0
    {
      hide TakeHead, TakeInstrs, TakeConsts, TakeFuncs, TakeTail, ConstItems, FuncItems;
      f := Func([], [], [], 0, 0, 0, None, None, None, None, None, None);
      ok := false;
      ghost var start := p;
      var base := |stack|;
      var h := LoadHead();
      assert p > start;
      stack := stack + [FuncSlot, DataSlot];
      var instrs := LoadInstrs(h.instrs);
      ghost var consts, funcs;
      consts, ok := LoadConsts(h.consts);
      if !ok { return; }
      funcs, ok := LoadFuncs(h.funcs);
      if !ok { return; }
      assert stack[base..] == [FuncSlot, DataSlot] + ConstItems(consts) + FuncItems(funcs);
      var cs, fs := CopyParts(base, h.consts, h.funcs, consts, funcs);
      stack := stack[..base + 1];
      var t := LoadTail();
      f := MakeFunc(h, instrs, cs, fs, t);
      stack := stack[base := FuncItem(f)];
    }

    /** duk_load_function(): the signature is the only check on the data. */
    method LoadFunction() returns (f: Func, ok: bool)
      requires p == 0 && stack == []
      requires |buf| >= 2 && buf[0] == 0xff && buf[1] == 0x00 ==> !TakeFunc(buf[2..]).Overrun?
      modifies this
      ensures ok <==> |buf| >= 2 && buf[0] == 0xff && buf[1] == 0x00 && TakeFunc(buf[2..]).Got?
      ensures ok ==> f == TakeFunc(buf[2..]).value && stack == [FuncItem(f)]
    {
      if |buf| < 2 || buf[0] != SER_MARKER || buf[1] != SER_VERSION {
        f := Func([], [], [], 0, 0, 0, None, None, None, None, None, None);
        return f, false;
      }
      p := p + 2;
      f, ok := LoadFunc();
    }
  }
}
