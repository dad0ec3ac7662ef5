/** Value-level facts the generator (module Gen) relies on: a size measure
    on syntax trees, the walks emit_assign_to and emit_addr make down a
    chain of struct references and conversions, the layout of global
    slots, string-literal words, the register counter threaded through a
    run of stores or loads, and how the store and load shapes grow one
    word at a time. */
module Lower {

  import opened Wrappers
  import opened Machine
  import opened Ast
  import opened Patterns
  import Flow

  // ---------------------------------------------------------------------
  // A size measure for syntax trees (used for termination only)
  // ---------------------------------------------------------------------

  function OptSize(o: Option<Node>): nat {
    if o.Some? then Size(o.value) else 0
  }

  function Size(n: Node): (r: nat)
    ensures r >= 1
    decreases n
  {
    match n
    case Literal(_, _, _) => 1
    case LVar(_, _, _, inits) => 1 + NodesSize(inits)
    case GVar(_, _) => 1
    case Binary(_, _, l, r) => 1 + Size(l) + Size(r)
    case Assign(_, l, r) => 1 + Size(l) + Size(r)
    case Deref(_, e) => 1 + Size(e)
    case AddrOf(_, e) => 1 + Size(e)
    case StructRef(_, e, _) => 1 + Size(e)
    case Conv(_, e) => 1 + Size(e)
    case Cast(_, e) => 1 + Size(e)
    case If(_, c, t, e) => 1 + Size(c) + OptSize(t) + OptSize(e)
    case Ternary(_, c, t, e) => 1 + Size(c) + OptSize(t) + OptSize(e)
    case Decl(_, _, _, _, inits) => 1 + NodesSize(inits)
    case Init(_, _, v) => 1 + Size(v)
    case Return(_, v) => 1 + OptSize(v)
    case Compound(_, ss) => 1 + NodesSize(ss)
    case Not(_, e) => 1 + Size(e)
    case BitNot(_, e) => 1 + Size(e)
    case FunCall(_, _, args, _, _) => 1 + NodesSize(args)
    case FuncPtrCall(_, f, args, _, _) => 1 + Size(f) + NodesSize(args)
    case Goto(_, _) => 1
    case LabelStmt(_, _) => 1
    case ComputedGoto(_, e) => 1 + Size(e)
    case LabelAddr(_, _) => 1
    case FuncDesg(_, _) => 1
    case FuncDef(_, _, _, body) => 1 + Size(body)
  }

  function NodesSize(s: seq<Node>): nat {
    if |s| == 0 then 0 else Size(s[0]) + NodesSize(s[1..])
  }

  lemma {:induction false} NodesSizeElem(s: seq<Node>, i: int)
    requires 0 <= i < |s|
    ensures Size(s[i]) <= NodesSize(s)
  {
    if i > 0 {
      NodesSizeElem(s[1..], i - 1);
      assert s[1..][i - 1] == s[i];
    }
  }

  // ---------------------------------------------------------------------
  // Lookups in the name maps
  // ---------------------------------------------------------------------

  /** map_get: the stored offset, or 0 (a null pointer) for a missing name. */
  function Lookup(m: map<string, int>, k: string): int {
    if k in m then m[k] else 0
  }

  // ---------------------------------------------------------------------
  // Assignment and address targets
  // ---------------------------------------------------------------------

  /** The offset emit_assign_to accumulates over the struct references at
      the top of an assignment target. */
  function FieldOffset(to: Node): int {
    if to.StructRef? then FieldOffset(to.struc) + to.fieldOffset else 0
  }

  /** What is left after those struct references and then the conversions
      below them are stripped. */
  function AssignBase(to: Node): Node {
    if to.StructRef? then AssignBase(to.struc) else Unconv(to)
  }

  function Unconv(to: Node): Node {
    if to.Conv? then Unconv(to.operand) else to
  }

  /** emit_addr strips struct references, conversions and casts in any
      order, summing the field offsets. */
  function AddrOffset(op: Node): int {
    if op.StructRef? then AddrOffset(op.struc) + op.fieldOffset
    else if op.Conv? || op.Cast? then AddrOffset(op.operand)
    else 0
  }

  function AddrBase(op: Node): Node {
    if op.StructRef? then AddrBase(op.struc)
    else if op.Conv? || op.Cast? then AddrBase(op.operand)
    else op
  }

  // ---------------------------------------------------------------------
  // String literals
  // ---------------------------------------------------------------------

  /** The characters before the first NUL (what strlen counts). */
  function CStr(s: seq<int>): (r: seq<int>)
    ensures |r| <= |s| && r == s[..|r|]
    ensures forall i :: 0 <= i < |r| ==> r[i] != 0
    ensures |r| < |s| ==> s[|r|] == 0
  {
    if |s| == 0 || s[0] == 0 then [] else [s[0]] + CStr(s[1..])
  }

  /** Character `i` of the literal as emit_literal reads it: the stored
      character, or the terminator past the end. */
  function CharAt(s: seq<int>, i: int): int {
    if 0 <= i < |s| then s[i] else 0
  }

  /** One (address, character) pair per word, at consecutive addresses. */
  function StringPokes(addr: int, cs: seq<int>): (r: seq<Poke>)
    ensures |r| == |cs|
    ensures forall i :: 0 <= i < |cs| ==> r[i] == Poke(addr + i, cs[i])
  {
    seq(|cs|, i requires 0 <= i < |cs| => Poke(addr + i, cs[i]))
  }

  /** The queued words of a literal: n characters and the terminator, at
      n + 1 consecutive addresses from `addr`, the last holding 0. */
  lemma LiteralPokes(addr: int, s: seq<int>)
    ensures var ps := StringPokes(addr, CStr(s) + [0]);
      |ps| == |CStr(s)| + 1 && ps[|ps| - 1] == Poke(addr + |CStr(s)|, 0) &&
      (forall i :: 0 <= i < |ps| ==> ps[i].addr == addr + i) &&
      (forall i :: 0 <= i < |ps| - 1 ==> ps[i].val == s[i] != 0)
  {
  }

  // ---------------------------------------------------------------------
  // The register counter across a run of emit_add_ri calls
  // ---------------------------------------------------------------------

  /** The counter after `AddrStores`/`AddrLoads` of `count` words from
      offset `off`: one more register per non-zero offset. */
  function ChunksNext(off: int, count: nat, spare: int): int
    decreases count
  {
    if count == 0 then spare else ChunksNext(off + 1, count - 1, AddRINext(off, spare))
  }

  lemma {:induction false} ChunksNextGrows(off: int, count: nat, spare: int)
    ensures spare <= ChunksNext(off, count, spare) <= spare + count
    decreases count
  {
    if count > 0 { ChunksNextGrows(off + 1, count - 1, AddRINext(off, spare)); }
  }

  // ---------------------------------------------------------------------
  // The store and load shapes, one more word at a time
  // ---------------------------------------------------------------------

  lemma {:induction false} AddrStoresSnoc(base: int, off: int, src: int, n: nat, spare: int)
    ensures AddrStores(base, off, src, n + 1, spare) ==
      AddrStores(base, off, src, n, spare) + StoreChunk(base, off + n, src + n, ChunksNext(off, n, spare))
    ensures ChunksNext(off, n + 1, spare) == AddRINext(off + n, ChunksNext(off, n, spare))
    decreases n
  {
    var sp := AddRINext(off, spare);
    var head := StoreChunk(base, off, src, spare);
    assert AddrStores(base, off, src, n + 1, spare) == head + AddrStores(base, off + 1, src + 1, n, sp);
    if n > 0 {
      AddrStoresSnoc(base, off + 1, src + 1, n - 1, sp);
      assert off + 1 + (n - 1) == off + n && src + 1 + (n - 1) == src + n;
      assert ChunksNext(off, n, spare) == ChunksNext(off + 1, n - 1, sp);
      assert AddrStores(base, off, src, n, spare) == head + AddrStores(base, off + 1, src + 1, n - 1, sp);
    }
  }

  lemma {:induction false} AddrLoadsSnoc(base: int, off: int, dst: int, n: nat, spare: int)
    ensures AddrLoads(base, off, dst, n + 1, spare) ==
      AddrLoads(base, off, dst, n, spare) + LoadChunk(base, off + n, dst + n, ChunksNext(off, n, spare))
    ensures ChunksNext(off, n + 1, spare) == AddRINext(off + n, ChunksNext(off, n, spare))
    decreases n
  {
    var sp := AddRINext(off, spare);
    var head := LoadChunk(base, off, dst, spare);
    assert AddrLoads(base, off, dst, n + 1, spare) == head + AddrLoads(base, off + 1, dst + 1, n, sp);
    if n > 0 {
      AddrLoadsSnoc(base, off + 1, dst + 1, n - 1, sp);
      assert off + 1 + (n - 1) == off + n && dst + 1 + (n - 1) == dst + n;
      assert ChunksNext(off, n, spare) == ChunksNext(off + 1, n - 1, sp);
      assert AddrLoads(base, off, dst, n, spare) == head + AddrLoads(base, off + 1, dst + 1, n - 1, sp);
    }
  }

  lemma {:induction false} BaseStoresSnoc(base: int, off: int, src: int, n: nat)
    ensures BaseStores(base, off, src, n + 1) ==
      BaseStores(base, off, src, n) + [IntI(0, off + n), Alu(Add, 0, 0, base), Set(0, src + n)]
    decreases n
  {
    if n > 0 {
      BaseStoresSnoc(base, off + 1, src + 1, n - 1);
      assert off + 1 + (n - 1) == off + n && src + 1 + (n - 1) == src + n;
    }
  }

  lemma {:induction false} BaseLoadsSnoc(base: int, off: int, dst: int, n: nat)
    ensures BaseLoads(base, off, dst, n + 1) ==
      BaseLoads(base, off, dst, n) + [IntI(0, off + n), Alu(Add, 0, 0, base), Get(dst + n, 0)]
    decreases n
  {
    if n > 0 {
      BaseLoadsSnoc(base, off + 1, dst + 1, n - 1);
      assert off + 1 + (n - 1) == off + n && dst + 1 + (n - 1) == dst + n;
    }
  }

  lemma {:induction false} ConstStoresSnoc(addr: int, src: int, n: nat)
    ensures ConstStores(addr, src, n + 1) == ConstStores(addr, src, n) + [IntI(0, addr + n), Set(0, src + n)]
    decreases n
  {
    if n > 0 {
      ConstStoresSnoc(addr + 1, src + 1, n - 1);
      assert addr + 1 + (n - 1) == addr + n && src + 1 + (n - 1) == src + n;
    }
  }

  lemma {:induction false} ConstLoadsSnoc(addr: int, dst: int, n: nat)
    ensures ConstLoads(addr, dst, n + 1) == ConstLoads(addr, dst, n) + [IntI(0, addr + n), Get(dst + n, 0)]
    decreases n
  {
    if n > 0 {
      ConstLoadsSnoc(addr + 1, dst + 1, n - 1);
      assert addr + 1 + (n - 1) == addr + n && dst + 1 + (n - 1) == dst + n;
    }
  }

  lemma {:induction false} PokesCodeCat(a: seq<Poke>, b: seq<Poke>)
    ensures PokesCode(a + b) == PokesCode(a) + PokesCode(b)
    decreases |a|
  {
    if |a| > 0 {
      PokesCodeCat(a[1..], b);
      assert (a + b)[1..] == a[1..] + b;
    } else {
      assert a + b == b;
    }
  }
  lemma PokesCodeSnoc(ps: seq<Poke>, i: nat)
    requires i < |ps|
    ensures PokesCode(ps[..i + 1]) == PokesCode(ps[..i]) + [IntI(0, ps[i].addr), IntI(2, ps[i].val), Set(0, 2)]
  {
    PokesCodeCat(ps[..i], [ps[i]]);
    assert ps[..i + 1] == ps[..i] + [ps[i]];
  }


  // ---------------------------------------------------------------------
  // Labels defined by generated code
  // ---------------------------------------------------------------------

  lemma DefinesCat(A: seq<Instr>, B: seq<Instr>, lo: nat, hi: nat)
    requires DefinesWithin(A, lo, hi) && DefinesWithin(B, lo, hi)
    ensures DefinesWithin(A + B, lo, hi)
  {
    forall i | 0 <= i < |A + B| && (A + B)[i].Lab? && (A + B)[i].lab.Local?
      ensures lo <= (A + B)[i].lab.id < hi
    {
      if i < |A| { assert (A + B)[i] == A[i]; } else { assert (A + B)[i] == B[i - |A|]; }
    }
  }

  lemma DefinesWiden(A: seq<Instr>, lo: nat, hi: nat, lo': nat, hi': nat)
    requires DefinesWithin(A, lo, hi) && lo' <= lo && hi <= hi'
    ensures DefinesWithin(A, lo', hi')
  {
  }

  /** Code `E` followed by code `X` defines only labels in [lo, hi) when
      each of them does within a part of it. */
  lemma Glue(o: seq<Instr>, E: seq<Instr>, X: seq<Instr>, lo: nat, m1: nat, m2: nat, hi: nat)
    requires DefinesWithin(E, lo, m1) && DefinesWithin(X, m2, hi) && lo <= m2 && m1 <= hi
    ensures o + E + X == o + (E + X) && DefinesWithin(E + X, lo, hi)
  {
    DefinesWiden(E, lo, m1, lo, hi);
    DefinesWiden(X, m2, hi, lo, hi);
    DefinesCat(E, X, lo, hi);
  }

  /** Code that defines only labels in [lo, hi) defines none of the labels
      handed out before `lo` or from `hi` on. */
  lemma DefinesExcludes(A: seq<Instr>, lo: nat, hi: nat, f: string, id: nat)
    requires DefinesWithin(A, lo, hi) && (id < lo || hi <= id)
    ensures Flow.Undefined(A, Local(f, id))
  {
  }

  /** Code that defines no label at all. */
  ghost predicate LabFree(S: seq<Instr>) {
    forall i :: 0 <= i < |S| ==> !S[i].Lab?
  }

  lemma LabFreeDefines(S: seq<Instr>, lo: nat, hi: nat)
    requires LabFree(S)
    ensures DefinesWithin(S, lo, hi)
  {
  }

  lemma {:induction false} AddrStoresLabFree(base: int, off: int, src: int, n: nat, spare: int)
    ensures LabFree(AddrStores(base, off, src, n, spare))
    decreases n
  {
    if n > 0 { AddrStoresLabFree(base, off + 1, src + 1, n - 1, AddRINext(off, spare)); }
  }

  lemma {:induction false} AddrLoadsLabFree(base: int, off: int, dst: int, n: nat, spare: int)
    ensures LabFree(AddrLoads(base, off, dst, n, spare))
    decreases n
  {
    if n > 0 { AddrLoadsLabFree(base, off + 1, dst + 1, n - 1, AddRINext(off, spare)); }
  }

  lemma {:induction false} BaseStoresLabFree(base: int, off: int, src: int, n: nat)
    ensures LabFree(BaseStores(base, off, src, n))
    decreases n
  {
    if n > 0 { BaseStoresLabFree(base, off + 1, src + 1, n - 1); }
  }

  lemma {:induction false} BaseLoadsLabFree(base: int, off: int, dst: int, n: nat)
    ensures LabFree(BaseLoads(base, off, dst, n))
    decreases n
  {
    if n > 0 { BaseLoadsLabFree(base, off + 1, dst + 1, n - 1); }
  }

  lemma {:induction false} ConstStoresLabFree(addr: int, src: int, n: nat)
    ensures LabFree(ConstStores(addr, src, n))
    decreases n
  {
    if n > 0 { ConstStoresLabFree(addr + 1, src + 1, n - 1); }
  }

  lemma {:induction false} ConstLoadsLabFree(addr: int, dst: int, n: nat)
    ensures LabFree(ConstLoads(addr, dst, n))
    decreases n
  {
    if n > 0 { ConstLoadsLabFree(addr + 1, dst + 1, n - 1); }
  }

  lemma {:induction false} PokesLabFree(ps: seq<Poke>)
    ensures LabFree(PokesCode(ps))
    decreases |ps|
  {
    if |ps| > 0 { PokesLabFree(ps[1..]); }
  }

  /** The frame offsets `ParamLocals` gives: with distinct names, parameter
      i sits at `off` plus the sizes of the parameters before it, and every
      other name keeps its entry in `m`. */
  lemma {:induction false} ParamLocalsAt(ps: seq<Param>, m: map<string, int>, off: int)
    requires forall i, j :: 0 <= i < j < |ps| ==> ps[i].name != ps[j].name
    ensures forall i :: 0 <= i < |ps| ==>
      ps[i].name in ParamLocals(ps, m, off) && ParamLocals(ps, m, off)[ps[i].name] == off + ParamWords(ps[..i])
    ensures forall k :: k in m && (forall i :: 0 <= i < |ps| ==> ps[i].name != k) ==>
      k in ParamLocals(ps, m, off) && ParamLocals(ps, m, off)[k] == m[k]
    ensures forall k :: k in ParamLocals(ps, m, off) ==> k in m || exists i :: 0 <= i < |ps| && ps[i].name == k
    decreases |ps|
  {
    if |ps| > 0 {
      var rest := ps[1..];
      var m' := m[ps[0].name := off];
      ParamLocalsAt(rest, m', off + ps[0].size);
      forall i | 0 <= i < |ps|
        ensures ps[i].name in ParamLocals(ps, m, off) && ParamLocals(ps, m, off)[ps[i].name] == off + ParamWords(ps[..i])
      {
        if i == 0 {
          assert ps[0].name in m' && forall j :: 0 <= j < |rest| ==> rest[j].name != ps[0].name by {
            forall j | 0 <= j < |rest| ensures rest[j].name != ps[0].name { assert rest[j] == ps[j + 1]; }
          }
          assert ps[..0] == [];
        } else {
          assert rest[i - 1] == ps[i];
          assert ps[..i][1..] == rest[..i - 1];
        }
      }
      forall k | k in ParamLocals(ps, m, off)
        ensures k in m || exists i :: 0 <= i < |ps| && ps[i].name == k
      {
        if k !in m && k != ps[0].name {
          var j :| 0 <= j < |rest| && rest[j].name == k;
          assert ps[j + 1].name == k;
        }
      }
      forall k | k in m && (forall i :: 0 <= i < |ps| ==> ps[i].name != k)
        ensures k in ParamLocals(ps, m, off) && ParamLocals(ps, m, off)[k] == m[k]
      {
        assert ps[0].name != k;
        forall j | 0 <= j < |rest| ensures rest[j].name != k { assert rest[j] == ps[j + 1]; }
      }
    }
  }

  // ---------------------------------------------------------------------
  // Arguments (emit_args)
  // ---------------------------------------------------------------------

  /** The size in words of each argument. */
  function ArgSizes(args: seq<Node>): (r: seq<nat>)
    ensures |r| == |args| && forall i :: 0 <= i < |args| ==> r[i] == args[i].ty.size
  {
    seq(|args|, i requires 0 <= i < |args| => args[i].ty.size)
  }

  /** The total of a list of sizes. */
  function Words(sizes: seq<nat>): nat {
    if |sizes| == 0 then 0 else Words(sizes[..|sizes| - 1]) + sizes[|sizes| - 1]
  }

  /** The register counter after the stores of `ArgStores`. */
  function ArgsNext(sizes: seq<nat>, off: int, spare: int): int {
    if |sizes| == 0 then spare
    else
      var n := |sizes| - 1;
      ChunksNext(off + Words(sizes[..n]), sizes[n], ArgsNext(sizes[..n], off, spare))
  }

  /** The second loop of emit_args: argument i, held in registers from
      `regs[i]`, is stored word by word through `emit_add_ri(r2, ..)`
      from frame offset `off` plus the sizes of the arguments before it. */
  function ArgStores(regs: seq<int>, sizes: seq<nat>, off: int, spare: int): seq<Instr>
    requires |regs| == |sizes|
  {
    if |sizes| == 0 then []
    else
      var n := |sizes| - 1;
      ArgStores(regs[..n], sizes[..n], off, spare) +
      AddrStores(2, off + Words(sizes[..n]), regs[n], sizes[n], ArgsNext(sizes[..n], off, spare))
  }

  lemma ArgStoresSnoc(regs: seq<int>, sizes: seq<nat>, i: nat, off: int, spare: int)
    requires |regs| == |sizes| && i < |sizes|
    ensures ArgStores(regs[..i + 1], sizes[..i + 1], off, spare) ==
      ArgStores(regs[..i], sizes[..i], off, spare) +
      AddrStores(2, off + Words(sizes[..i]), regs[i], sizes[i], ArgsNext(sizes[..i], off, spare))
    ensures ArgsNext(sizes[..i + 1], off, spare) == ChunksNext(off + Words(sizes[..i]), sizes[i], ArgsNext(sizes[..i], off, spare))
    ensures Words(sizes[..i + 1]) == Words(sizes[..i]) + sizes[i]
  {
    assert regs[..i + 1][..i] == regs[..i] && sizes[..i + 1][..i] == sizes[..i];
  }

  /** One more argument's stores appended after those of the earlier ones. */
  lemma ArgStoresStep(o: seq<Instr>, regs: seq<int>, sizes: seq<nat>, i: nat, off: int, spare: int)
    requires |regs| == |sizes| && i < |sizes|
    ensures o + ArgStores(regs[..i], sizes[..i], off, spare) +
      AddrStores(2, off + Words(sizes[..i]), regs[i], sizes[i], ArgsNext(sizes[..i], off, spare)) ==
      o + ArgStores(regs[..i + 1], sizes[..i + 1], off, spare)
    ensures ArgsNext(sizes[..i + 1], off, spare) == ChunksNext(off + Words(sizes[..i]), sizes[i], ArgsNext(sizes[..i], off, spare))
    ensures Words(sizes[..i + 1]) == Words(sizes[..i]) + sizes[i]
  {
    ArgStoresSnoc(regs, sizes, i, off, spare);
  }

  lemma {:induction false} ArgStoresLabFree(regs: seq<int>, sizes: seq<nat>, off: int, spare: int)
    requires |regs| == |sizes|
    ensures LabFree(ArgStores(regs, sizes, off, spare))
    decreases |sizes|
  {
    if |sizes| > 0 {
      var n := |sizes| - 1;
      ArgStoresLabFree(regs[..n], sizes[..n], off, spare);
      AddrStoresLabFree(2, off + Words(sizes[..n]), regs[n], sizes[n], ArgsNext(sizes[..n], off, spare));
    }
  }

  /** The call sequence both kinds of call end with: the callee's frame
      pointer in a new register `reg` (`PreCallCode`), the call, word 1
      restored, and unless the callee returns void the result loaded from
      the returned frame `ref` into `reg + 1` and on. */
  function CallCode(stackn: int, reg: int, call: Instr, ref: int, retVoid: bool, retSize: nat): seq<Instr> {
    PreCallCode(stackn, reg) + [call, Set(0, 2)] +
    (if retVoid then [] else AddrLoads(ref, 0, reg + 1, retSize, reg + 2))
  }

  lemma CallCodeLabFree(stackn: int, reg: int, call: Instr, ref: int, retVoid: bool, retSize: nat)
    requires !call.Lab?
    ensures LabFree(CallCode(stackn, reg, call, ref, retVoid, retSize))
  {
    if !retVoid { AddrLoadsLabFree(ref, 0, reg + 1, retSize, reg + 2); }
  }

  /** Frame offsets of the parameters: each gets the running total of the
      sizes before it; a later parameter of the same name wins. */
  function ParamLocals(ps: seq<Param>, m: map<string, int>, off: int): map<string, int>
    decreases |ps|
  {
    if |ps| == 0 then m else ParamLocals(ps[1..], m[ps[0].name := off], off + ps[0].size)
  }

  // ---------------------------------------------------------------------
  // Assignment to a field of a local struct (emit_assign_to, AST_LVAR)
  // ---------------------------------------------------------------------

  /** The stores emit_assign_to emits for a local target as written: word
      i goes to frame word `local + i`, and the field offset gathered from
      the struct references is dropped. */
  function AssignLocalAsWritten(local: int, offset: int, src: int, size: nat, spare: int): seq<Instr> {
    AddrStores(2, local, src, size, spare)
  }

  /** As written, a store into field `offset` of a local struct lands on
      the struct's first words: the struct's words receive the value, so
      the first word does whenever a word is stored, and the field itself
      keeps its old contents whenever it lies outside the stored words. */
  lemma AssignLocalAsWrittenRun(P: seq<Instr>, s: State, local: int, offset: int, src: int, size: nat, spare: int)
    returns (t: State)
    requires At(P, s.pc, AssignLocalAsWritten(local, offset, src, size, spare))
    requires 2 < spare && src + size <= spare
    ensures Run(P, s, |AssignLocalAsWritten(local, offset, src, size, spare)|) == Some(t)
    ensures Stored(s, t, Reg(s, 2) + local, src, size)
    ensures 0 < size ==> Word(t, Reg(s, 2) + local) == Reg(s, src)
    ensures !(0 <= offset < size) ==> Word(t, Reg(s, 2) + local + offset) == Word(s, Reg(s, 2) + local + offset)
  {
    t := AddrStoresRun(P, s, 2, local, src, size, spare);
  }

  /** The stores with the field offset added: word i goes to frame word
      `local + offset + i`. */
  function AssignLocalFixed(local: int, offset: int, src: int, size: nat, spare: int): seq<Instr> {
    AddrStores(2, local + offset, src, size, spare)
  }

  /** Corrected, a store into field `offset` of a local struct fills the
      field's words, whatever the offset, and leaves the struct's first
      word alone whenever it lies outside the field's words. */
  lemma AssignLocalFixedRun(P: seq<Instr>, s: State, local: int, offset: int, src: int, size: nat, spare: int)
    returns (t: State)
    requires At(P, s.pc, AssignLocalFixed(local, offset, src, size, spare))
    requires 2 < spare && src + size <= spare
    ensures Run(P, s, |AssignLocalFixed(local, offset, src, size, spare)|) == Some(t)
    ensures Stored(s, t, Reg(s, 2) + local + offset, src, size)
    ensures !(offset <= 0 < offset + size) ==> Word(t, Reg(s, 2) + local) == Word(s, Reg(s, 2) + local)
  {
    t := AddrStoresRun(P, s, 2, local + offset, src, size, spare);
  }

  /** `struct { int a; int b; } x; x.b = 7;` with `x` at frame word 0, the
      frame at address 100 and 7 in r3: as written, the stores run to the
      end, `x.a` becomes 7 and `x.b` stays 0. */
  lemma AssignLocalCounterexample()
    ensures var P := AssignLocalAsWritten(0, 1, 3, 1, 4);
      var r := Run(P, State(0, map[2 := 100, 3 := 7], map[]), |P|);
      r.Some? && r.value.pc == |P| && Word(r.value, 100) == 7 && Word(r.value, 101) == 0
  {
    var P := AssignLocalAsWritten(0, 1, 3, 1, 4);
    var s := State(0, map[2 := 100, 3 := 7], map[]);
    var t := AssignLocalAsWrittenRun(P, s, 0, 1, 3, 1, 4);
  }

  /** The same assignment with the field offset added: `x.b` becomes 7
      and `x.a` stays 0. */
  lemma AssignLocalFixedExample()
    ensures var P := AssignLocalFixed(0, 1, 3, 1, 4);
      var r := Run(P, State(0, map[2 := 100, 3 := 7], map[]), |P|);
      r.Some? && r.value.pc == |P| && Word(r.value, 100) == 0 && Word(r.value, 101) == 7
  {
    var P := AssignLocalFixed(0, 1, 3, 1, 4);
    var s := State(0, map[2 := 100, 3 := 7], map[]);
    var t := AssignLocalFixedRun(P, s, 0, 1, 3, 1, 4);
  }
}
