/** The MiniVM code generator of src/gen.c: a `Generator` object holds the
    generator's global state (the register and label counters, the frame
    size, the next free global word, the name maps, the queues the `_start`
    trampoline drains, and the output buffer) and each `emit_*` function is
    a method that appends to the output and updates that state.

    Each emitter states the exact code it appends in terms of the shape
    functions of modules Patterns and Flow (whose behaviour on the VM is
    proved there) and of the code its recursive calls appended, and that it
    keeps the generator valid: every local label the output defines was
    handed out already, and global words are handed out from `FirstGlobal`
    upwards. */
module Gen {

  import opened Wrappers
  import opened Machine
  import opened Ast
  import opened Patterns
  import opened Flow
  import opened Lower

  /** BUFFER_EXTRA: words kept free between a frame and its callee's. */
  const BufferExtra := 0
  /** The first word handed out to globals and string literals. */
  const FirstGlobal := 16
  /** The size of the VM memory array the trampoline allocates. */
  const MemoryWords := 12500000
  /** emit_args collects the argument registers in a buffer of this size. */
  const ArgBuffer := 16

  /** A queued global initializer: the word it starts at and its value. */
  datatype InitVal = InitVal(addr: int, val: Node)

  /** The words past the last global word at which the first frame starts. */
  const StackGap := 16

  // ---------------------------------------------------------------------
  // The `_start` trampoline and the function head
  // ---------------------------------------------------------------------

  /** `@__entry; jump __entry_memory; @__entry_init`. */
  function EntryHead(): seq<Instr> {
    [Lab(Global("__entry")), Jump(Global("__entry_memory")), Lab(Global("__entry_init"))]
  }

  /** After the queued stores: `jump __entry_main`, then `@__entry_memory`,
      which allocates the memory array, sets word 1 (the frame pointer) to
      `StackGap` words past the last global and jumps back to
      `__entry_init`, and `@__entry_main`, which calls `fname` and exits. */
  function EntryTail(initmem: int, fname: string): seq<Instr> {
    [Jump(Global("__entry_main")), Lab(Global("__entry_memory")),
     IntI(1, MemoryWords), Arr(1, 1), IntI(2, initmem + StackGap), IntI(0, 1), Set(0, 2),
     Jump(Global("__entry_init")), Lab(Global("__entry_main")), Call(0, fname), Exit]
  }

  /** The queued words to clear, as pokes of 0. */
  function ZeroPokes(zs: seq<int>): (ps: seq<Poke>)
    ensures |ps| == |zs| && forall i :: 0 <= i < |zs| ==> ps[i] == Poke(zs[i], 0)
  {
    seq(|zs|, i requires 0 <= i < |zs| => Poke(zs[i], 0))
  }

  /** The trampoline emit_func_prologue lays out before `_start`: the
      cleared words, the global initializers' code `V`, the string-literal
      words, then `EntryTail`. */
  function Trampoline(zs: seq<int>, V: seq<Instr>, pokes: seq<Poke>, initmem: int, fname: string): seq<Instr> {
    EntryHead() + PokesCode(ZeroPokes(zs)) + V + PokesCode(pokes) + EntryTail(initmem, fname)
  }

  /** `func func.NAME; r0 <- int 1; r2 <- get r1 r0`: the frame pointer is
      read from word 1 into r2. */
  function FuncHead(fname: string): seq<Instr> {
    [Func(fname), IntI(0, 1), Get(2, 0)]
  }

  /** `return` with a value: r0 holds the callee's frame offset `top`,
      `base` its address, the value's code `V` leaves it in registers from
      `v`, which are stored from `base` on before returning `base`. */
  function ReturnCode(top: int, base: int, V: seq<Instr>, v: int, size: nat): seq<Instr> {
    [IntI(0, top), Alu(Add, base, 2, 0)] + V + BaseStores(base, 0, v, size) + [Ret(base)]
  }

  /** `r0 <- nil; ret r0; end`. */
  function FuncTail(): seq<Instr> {
    [Nil(0), Ret(0), End]
  }

  /** The code of the queued global initializers: for each, the code `Vs[i]`
      of its value into registers from `regs[i]`, then those registers
      stored word by word from the initializer's address. */
  function InitValsCode(ivs: seq<InitVal>, Vs: seq<seq<Instr>>, regs: seq<int>): seq<Instr>
    requires |ivs| == |Vs| == |regs|
  {
    if |ivs| == 0 then []
    else
      var n := |ivs| - 1;
      InitValsCode(ivs[..n], Vs[..n], regs[..n]) + Vs[n] + ConstStores(ivs[n].addr, regs[n], ivs[n].val.ty.size)
  }

  lemma InitValsSnoc(ivs: seq<InitVal>, Vs: seq<seq<Instr>>, regs: seq<int>, i: nat, A: seq<Instr>, v: int)
    requires i < |ivs| && |Vs| == |regs| == i
    ensures InitValsCode(ivs[..i + 1], Vs + [A], regs + [v]) ==
      InitValsCode(ivs[..i], Vs, regs) + A + ConstStores(ivs[i].addr, v, ivs[i].val.ty.size)
  {
    assert ivs[..i + 1][..i] == ivs[..i] && (Vs + [A])[..i] == Vs && (regs + [v])[..i] == regs;
  }

  /** The code of an initializer list stored in the frame from offset
      `base`: for each element in order, the code `Vs[i]` of its value into
      registers from `regs[i]`, then those registers stored word by word at
      `base` plus the element's offset. */
  function InitsCode(base: int, inits: seq<Node>, Vs: seq<seq<Instr>>, regs: seq<int>): seq<Instr>
    requires |inits| == |Vs| == |regs| && forall i :: 0 <= i < |inits| ==> inits[i].Init?
  {
    if |inits| == 0 then []
    else
      var n := |inits| - 1;
      InitsCode(base, inits[..n], Vs[..n], regs[..n]) + Vs[n] +
        BaseStores(2, base + inits[n].initoff, regs[n], inits[n].initval.ty.size)
  }

  /** `code` is the code `InitsCode` lays out for the initializer
      list `inits` from frame offset `base`. */
  predicate IsInitsCode(code: seq<Instr>, base: int, inits: seq<Node>, Vs: seq<seq<Instr>>, regs: seq<int>) {
    |inits| == |Vs| == |regs| && (forall i :: 0 <= i < |inits| ==> inits[i].Init?) &&
    code == InitsCode(base, inits, Vs, regs)
  }

  lemma InitsSnoc(base: int, inits: seq<Node>, Vs: seq<seq<Instr>>, regs: seq<int>, i: nat, V: seq<Instr>, v: int,
                  E: seq<Instr>, S: seq<Instr>)
    requires i < |inits| && |Vs| == |regs| == i && forall j :: 0 <= j <= i ==> inits[j].Init?
    requires E == InitsCode(base, inits[..i], Vs, regs)
    requires S == V + BaseStores(2, base + inits[i].initoff, v, inits[i].initval.ty.size)
    ensures E + S == InitsCode(base, inits[..i + 1], Vs + [V], regs + [v])
  {
    assert inits[..i + 1][..i] == inits[..i] && (Vs + [V])[..i] == Vs && (regs + [v])[..i] == regs;
  }

  /** The words `base`, ..., `base + n - 1`. */
  function Span(base: int, n: nat): (ws: seq<int>)
    ensures |ws| == n && forall i :: 0 <= i < n ==> ws[i] == base + i
  {
    seq(n, i requires 0 <= i < n => base + i)
  }

  /** The initializers of a global at `base`, each at its offset from `base`. */
  function QueuedInits(inits: seq<Node>, base: int): (ivs: seq<InitVal>)
    requires forall i :: 0 <= i < |inits| ==> inits[i].Init?
    ensures |ivs| == |inits|
    ensures forall i :: 0 <= i < |inits| ==> ivs[i] == InitVal(base + inits[i].initoff, inits[i].initval)
  {
    seq(|inits|, i requires 0 <= i < |inits| => InitVal(base + inits[i].initoff, inits[i].initval))
  }

  /** Running the clearing pokes leaves every queued word 0, whatever else
      the memory held. */
  lemma {:induction false} ZeroPokesClear(m: map<int, int>, zs: seq<int>, a: int)
    requires exists i :: 0 <= i < |zs| && zs[i] == a
    ensures a in Poked(m, ZeroPokes(zs)) && Poked(m, ZeroPokes(zs))[a] == 0
    decreases |zs|
  {
    var ps := ZeroPokes(zs);
    var m1 := m[zs[0] := 0];
    assert ps[1..] == ZeroPokes(zs[1..]);
    if exists i :: 0 <= i < |zs[1..]| && zs[1..][i] == a {
      ZeroPokesClear(m1, zs[1..], a);
    } else {
      PokedAt(m1, ps[1..], a);
      assert Poked(m, ps) == Poked(m1, ps[1..]);
    }
  }

  /** The trampoline defines only global labels besides those of `V`. */
  lemma TrampolineDefines(zs: seq<int>, V: seq<Instr>, pokes: seq<Poke>, initmem: int, fname: string, lo: nat, hi: nat)
    requires DefinesWithin(V, lo, hi)
    ensures DefinesWithin(Trampoline(zs, V, pokes, initmem, fname), lo, hi)
  {
    PokesLabFree(ZeroPokes(zs));
    PokesLabFree(pokes);
    LabFreeDefines(PokesCode(ZeroPokes(zs)), lo, hi);
    LabFreeDefines(PokesCode(pokes), lo, hi);
    DefinesCat(EntryHead(), PokesCode(ZeroPokes(zs)), lo, hi);
    DefinesCat(EntryHead() + PokesCode(ZeroPokes(zs)), V, lo, hi);
    DefinesCat(EntryHead() + PokesCode(ZeroPokes(zs)) + V, PokesCode(pokes), lo, hi);
    DefinesCat(EntryHead() + PokesCode(ZeroPokes(zs)) + V + PokesCode(pokes), EntryTail(initmem, fname), lo, hi);
  }

  lemma AppendAssoc(a: seq<Instr>, b: seq<Instr>, c: seq<Instr>)
    ensures a + b + c == a + (b + c)
  {
  }

  /** `&&` and `||` are the left operand's code followed by the tail
      `EmitLogTail` lays out. */
  lemma ShortCircuitShape(L: seq<Instr>, R: seq<Instr>, ret: int, end: Label, zero: Label, resume: Label, nonzero: Label)
    ensures AndCode(L, R, ret, end, zero, resume, nonzero) ==
      L + ([Lab(zero), IntI(ret, 0), Jump(end), Lab(resume)] + R + [Lab(nonzero), IntI(ret, 1), Lab(end)])
  {
    AppendAssoc(L, [Lab(zero), IntI(ret, 0), Jump(end), Lab(resume)], R);
    AppendAssoc(L, [Lab(zero), IntI(ret, 0), Jump(end), Lab(resume)] + R, [Lab(nonzero), IntI(ret, 1), Lab(end)]);
  }

  /** The code of pointer `+` (`plus`), of a pointer difference (`diff`)
      or of pointer `-` of an integer, into `ret`. */
  function PtrArithCode(plus: bool, diff: bool, a: int, b: int, size: int, ret: int): seq<Instr> {
    if plus then PtrOffsetCode(Add, a, b, size, ret)
    else if diff then PtrDiffCode(a, b, size, ret)
    else PtrOffsetCode(Sub, a, b, size, ret)
  }

  /** The operators emit_binop's final switch handles. */
  predicate IsOperator(op: BinOp) {
    !(op.LogAnd? || op.LogOr? || op.IpAdd?)
  }

  /** The code that switch appends for operand registers `lhs` and `rhs`,
      a result register `ret` and, for a relation, three new labels. */
  function OperatorCode(op: BinOp, ty: Ty, lhs: int, rhs: int, ret: int, ift: Label, iff: Label, end: Label): seq<Instr>
    requires IsOperator(op)
  {
    match op
    case Comma => []
    case Divide => DivCode(ret, lhs, rhs, IsIntKind(ty.kind))
    case Eq | Ne | Lt | Gt | Le | Ge => CompareTail(op, lhs, rhs, ret, ift, iff, end)
    case Plus | Minus | Times | Modulo | BitOr | BitAnd | BitXor | Sal | Sar | Shl | Shr =>
      [Alu(AluFor(op), ret, lhs, rhs)]
  }

  /** emit_binop's first route: `+` or `-` with a pointer or an array on
      the left. */
  predicate IsPtrArith(node: Node)
    requires node.Binary?
  {
    node.left.ty.kind in {KPtr, KArray} && (node.op == Plus || node.op == Minus)
  }

  /** The node kinds emit_expr hands to the statement emitter. */
  predicate IsStmt(node: Node) {
    node.ComputedGoto? || node.LabelAddr? || node.Goto? || node.LabelStmt? ||
    node.If? || node.Decl? || node.Return? || node.Compound?
  }

  /** The code emit_binop appends for a binary node, route by route, given
      the operands' code `A` and `B` (for `&&` and `||`, their branch code),
      the operand registers `a` and `b`, the result register `ret` and the
      first label number `n` it makes. */
  function BinopCode(node: Node, A: seq<Instr>, B: seq<Instr>, a: int, b: int, ret: int, f: string, n: nat): seq<Instr>
    requires node.Binary?
  {
    if IsPtrArith(node) then
      A + B + PtrArithCode(node.op == Plus, node.right.ty.kind == KPtr, a, b, node.left.ty.ptrSize, ret)
    else if node.op == IpAdd then
      A + B + IpAddCode(a, b, ret, node.left.ty.kind == KPtr, node.left.ty.ptrSize)
    else if node.op == LogAnd then
      AndCode(A, B, ret, Local(f, n), Local(f, n + 1), Local(f, n + 2), Local(f, n + 3))
    else if node.op == LogOr then
      OrCode(A, B, ret, Local(f, n), Local(f, n + 1), Local(f, n + 2), Local(f, n + 3))
    else
      A + B + OperatorCode(node.op, node.ty, a, b, ret, Local(f, n), Local(f, n + 1), Local(f, n + 2))
  }

  lemma OperatorCodeCases(op: BinOp, ty: Ty, lhs: int, rhs: int, ret: int, ift: Label, iff: Label, end: Label)
    requires IsOperator(op)
    ensures IsRelational(op) ==> OperatorCode(op, ty, lhs, rhs, ret, ift, iff, end) == CompareTail(op, lhs, rhs, ret, ift, iff, end)
    ensures !IsRelational(op) ==> LabFree(OperatorCode(op, ty, lhs, rhs, ret, ift, iff, end))
  {
  }

  /** The three labels of a relation or of `!` are the only ones defined. */
  lemma CompareTailDefines(op: BinOp, lhs: int, rhs: int, ret: int, f: string, n: nat, lo: nat, hi: nat)
    requires IsRelational(op) && lo <= n && n + 3 <= hi
    ensures DefinesWithin(CompareTail(op, lhs, rhs, ret, Local(f, n), Local(f, n + 1), Local(f, n + 2)), lo, hi)
  {
  }

  lemma NotTailDefines(reg: int, ret: int, f: string, n: nat, lo: nat, hi: nat)
    requires lo <= n && n + 3 <= hi
    ensures DefinesWithin(NotTail(reg, ret, Local(f, n), Local(f, n + 1), Local(f, n + 2)), lo, hi)
  {
  }

  /** The code of a conditional's arm as laid out: with a result
      register `into`, the arm's code and its copy into `into` (`ArmCode`);
      without, the arm's code alone. A missing arm lays out nothing. */
  function ArmOut(arm: Option<Arm>, into: Option<int>): seq<Instr> {
    if into.Some? then ArmCode(arm, into.value)
    else if arm.Some? then arm.value.code else []
  }

  /** What follows the then arm of a conditional: with an else arm,
      `jump end; @zero`, the arm as laid out, `@end`; without, `@zero`. */
  function ElseOut(zero: Label, arm: Option<Arm>, into: Option<int>, end: Label): seq<Instr> {
    if arm.Some? then [Jump(end), Lab(zero)] + ArmOut(arm, into) + [Lab(end)] else [Lab(zero)]
  }

  lemma Assoc5(c: seq<Instr>, t: seq<Instr>, l: seq<Instr>, a: seq<Instr>, e: seq<Instr>)
    ensures c + (t + l + a + e) == c + t + l + a + e
  {
  }

  lemma AppendAssoc6(o: seq<Instr>, a: seq<Instr>, b: seq<Instr>, c: seq<Instr>, d: seq<Instr>, e: seq<Instr>)
    ensures o + a + b + c + d + e == o + (a + b + c + d + e)
  {
  }

  lemma Assoc4(a: seq<Instr>, b: seq<Instr>, c: seq<Instr>, d: seq<Instr>)
    ensures a + (b + c + d) == a + b + c + d
  {
  }

  /** Each global's slot of `sizes[k]` words starts at or after
      `FirstGlobal` and ends at or before `limit`, and the slots of two
      globals are disjoint. */
  ghost predicate SlotsWithin(globals: map<string, int>, sizes: map<string, nat>, limit: int) {
    globals.Keys == sizes.Keys &&
    (forall k :: k in globals ==> FirstGlobal <= globals[k] && globals[k] + sizes[k] <= limit) &&
    (forall k, k' :: k in globals && k' in globals && k != k' ==>
      globals[k] + sizes[k] <= globals[k'] || globals[k'] + sizes[k'] <= globals[k])
  }

  /** A new slot handed out at `limit` keeps the slots disjoint; a global
      declared again gets the new slot and its old one is dropped. */
  lemma SlotsGrow(globals: map<string, int>, sizes: map<string, nat>, limit: int, name: string, size: nat)
    requires SlotsWithin(globals, sizes, limit) && FirstGlobal <= limit
    ensures SlotsWithin(globals[name := limit], sizes[name := size], limit + size)
  {
    var g, z := globals[name := limit], sizes[name := size];
    forall k, k' | k in g && k' in g && k != k'
      ensures g[k] + z[k] <= g[k'] || g[k'] + z[k'] <= g[k]
    {
      if k == name {
        assert g[k'] + z[k'] <= limit;
      } else if k' == name {
        assert g[k] + z[k] <= limit;
      }
    }
  }

  class Generator {
    var nregs: int
    var stackn: int
    var initmem: int
    var curfunc: string
    var globals: map<string, int>
    var locals: map<string, int>
    /** Global words the trampoline clears. */
    var globalzero: seq<int>
    /** String-literal words the trampoline writes. */
    var globalinit: seq<Poke>
    /** Global initializers the trampoline evaluates and stores. */
    var globalinitval: seq<InitVal>
    /** The output buffer. */
    var out: seq<Instr>
    /** make_label's counter. */
    var nlabels: nat
    /** The size in words of each global's slot. */
    ghost var globalsize: map<string, nat>
    /** How many local declarations have been emitted: a proof device
        that tells when the frame and its bindings are left alone. */
    ghost var ndecls: nat

    ghost predicate Valid()
      reads this`out, this`nlabels, this`initmem
    {
      DefinesWithin(out, 0, nlabels) && FirstGlobal <= initmem
    }

    /** Since the pre-state the output grew by `E`, which defines only
        labels handed out in between; the counters only grow (so a global
        word handed out before `initmem` is never handed out again), and
        string literals only add queued words; names stay bound, and the
        frame and its bindings change only when a declaration is emitted. */
    twostate predicate Grew(E: seq<Instr>)
      reads this
    {
      GrewFrom(E, old(nlabels))
    }

    /** `Grew`, for code that may also define labels handed out before the
        pre-state, from `lo` on. */
    twostate predicate GrewFrom(E: seq<Instr>, lo: nat)
      reads this
    {
      out == old(out) + E &&
      old(nlabels) <= nlabels && DefinesWithin(E, lo, nlabels) &&
      old(nregs) <= nregs && old(stackn) <= stackn && old(initmem) <= initmem &&
      old(globalinit) <= globalinit &&
      old(ndecls) <= ndecls && (forall k :: k in old(locals) ==> k in locals) &&
      (ndecls == old(ndecls) ==> locals == old(locals) && stackn == old(stackn))
    }

    /** What emit_expr appends for a node of each kind and the register
        it answers, in terms of the shape functions whose runs modules
        Patterns, Flow and Lower prove; the code and registers of the
        operands, which the node's own children determine, are left
        existential. A structure reference and a conversion that is not
        an array's address are their operand's code; a function
        designator, a function definition and a bare initializer element
        are refused. The pieces of a compound statement are stated by
        `EmitCompound`. */
    twostate predicate Emitted(node: Node, new r: Result<int>, E: seq<Instr>)
      reads this
      decreases node, 0
    {
      if IsStmt(node) then StmtEmitted(node, r, E)
      else if node.AddrOf? || node.Deref? || node.Literal? || node.GVar? || node.LVar? then AccessEmitted(node, r, E)
      else if node.FunCall? || node.FuncPtrCall? then CallEmitted(node, r, E)
      else if node.Not? || node.BitNot? || node.Binary? || node.Assign? || node.Ternary? then OpEmitted(node, r, E)
      else if node.Conv? || node.Cast? then ConvEmitted(node.ty, node.operand, r, E)
      else if node.StructRef? then r.Success? ==> Emitted(node.struc, Success(r.value - node.fieldOffset), E)
      else r.Failure? && E == []
    }

    /** The statement kinds, which emit_expr hands to `EmitStmt`: `goto`
        and labels use the front end's label names, `if` is `IfCode` on
        two new labels, a declaration binds its name to the frame size and
        stores its initializers (`InitsCode`) in the grown frame (the
        binding is exact when the initializers declare nothing), and `return` stores its
        value at the callee's frame and returns. */
    twostate predicate StmtEmitted(node: Node, new r: Result<int>, E: seq<Instr>)
      requires IsStmt(node)
      reads this
    {
      var f, R, L := curfunc, old(nregs), old(nlabels);
      match node
      case Goto(_, lbl) => r == Success(0) && E == [Jump(User(f, lbl))]
      case LabelAddr(_, lbl) => r == Success(R) && E == [AddrLabel(R, User(f, lbl))]
      case LabelStmt(_, lbl) =>
        r == Success(0) && E == (if lbl.Some? then [Lab(User(f, lbl.value))] else [])
      case ComputedGoto(_, _) => r.Success? ==> r.value == 0 && exists A, v :: E == A + [DJump(v)]
      case If(_, _, thenArm, elseArm) =>
        r.Success? ==>
          r.value == 0 &&
          exists B, T, El, nz, end :: nz == L + 1 &&
            E == IfCode(B, Local(f, L), Local(f, nz), T, El, Local(f, end)) &&
            L + 2 <= end && (El.Some? <==> elseArm.Some?) && (thenArm.None? ==> T == [])
      case Decl(_, name, ty, hasInit, inits) =>
        (r.Success? ==> r.value == 0) &&
        (!hasInit ==> r.Success? && E == [] && locals == old(locals)[name := old(stackn)] && stackn == old(stackn) + ty.size) &&
        (hasInit ==>
          old(stackn) + ty.size <= stackn && name in locals &&
          (ndecls == old(ndecls) + 1 ==> locals == old(locals)[name := old(stackn)] && stackn == old(stackn) + ty.size)) &&
        (hasInit && r.Success? ==>
          (forall i :: 0 <= i < |inits| ==> inits[i].Init?) &&
          exists Vs, regs :: IsInitsCode(E, old(stackn), inits, Vs, regs))
      case Return(_, retval) =>
        (retval.None? ==> r == Success(0) && E == [Nil(0), Ret(0)]) &&
        (retval.Some? && r.Success? ==>
          r.value == 0 &&
          exists V, v, top :: top == old(stackn) + BufferExtra && E == ReturnCode(top, R, V, v, retval.value.ty.size))
      case Compound(_, stmts) => |stmts| == 0 ==> r == Success(0) && E == []
    }

    /** Addresses, dereferences, literals and variables: a new run of
        registers from the register counter, holding the address (per
        `AddrBase`), the words loaded through the pointer, the literal (a
        string literal's first word), or the variable's words. */
    twostate predicate AccessEmitted(node: Node, new r: Result<int>, E: seq<Instr>)
      requires node.AddrOf? || node.Deref? || node.Literal? || node.GVar? || node.LVar?
      reads this
    {
      var R := old(nregs);
      match node
      case AddrOf(_, op) =>
        var b, off := AddrBase(op), AddrOffset(op);
        (r.Success? ==> r.value == R && (b.Deref? || b.LVar? || b.GVar? || b.FuncDesg?)) &&
        (r.Success? && b.Deref? ==> exists A, first :: E == A + [IntI(R, off), Alu(Add, R, R, first)]) &&
        (b.LVar? ==> r.Success? && E == [IntI(R, Lookup(old(locals), b.varname) + off), Alu(Add, R, R, 2)]) &&
        (b.GVar? ==> r.Success? && E == [IntI(R, Lookup(globals, b.varname) + off)]) &&
        (b.FuncDesg? ==> r.Success? && E == [AddrFunc(R, b.fname)])
      case Deref(ty, _) => r.Success? ==> r.value == R && exists A, from :: E == A + BaseLoads(from, 0, R, ty.size)
      case Literal(ty, ival, _) =>
        r == Success(R) && E == [IntI(R, if ty.kind == KArray then old(initmem) else ival)]
      case GVar(ty, name) => r == Success(R) && E == ConstLoads(Lookup(globals, name), R, ty.size)
      case LVar(ty, name, hasInit, inits) =>
        var at := Lookup(old(locals), name);
        (!hasInit ==> r == Success(R) && E == AddrLoads(2, at, R, ty.size, R + ty.size)) &&
        (hasInit && r.Success? ==>
          (forall i :: 0 <= i < |inits| ==> inits[i].Init?) &&
          exists I, Vs, regs :: IsInitsCode(I, at, inits, Vs, regs) && E == I + AddrLoads(2, at, r.value, ty.size, r.value + ty.size))
    }

    /** Calls: getchar reads into a new register, putchar writes its
        argument's register and answers register 0, and any other call
        (direct or through a pointer) is `CallCode` after its arguments. */
    twostate predicate CallEmitted(node: Node, new r: Result<int>, E: seq<Instr>)
      requires node.FunCall? || node.FuncPtrCall?
      reads this
    {
      var R := old(nregs);
      match node
      case FuncPtrCall(_, _, _, retVoid, retSize) =>
        r.Success? ==>
          exists A, G, fp, q, p, top ::
            top == stackn + BufferExtra && r.value == p + 1 &&
            E == A + G + CallCode(top, p, DCall(q, fp), q, retVoid, retSize)
      case FunCall(_, name, args, retVoid, retSize) =>
        (name == "getchar" ==> r == Success(R) && E == [Getchar(R)]) &&
        (name == "putchar" && |args| == 0 ==> r.Failure? && E == []) &&
        (name == "putchar" && r.Success? ==> r.value == 0 && exists A, a :: E == A + [Putchar(a)]) &&
        (name != "getchar" && name != "putchar" && r.Success? ==>
          exists A, p, top ::
            top == stackn + BufferExtra && r.value == p + 1 &&
            E == A + CallCode(top, p, Call(R, name), R, retVoid, retSize))
    }

    /** Operators: `!` and `~` end in their tails, a binary node is
        `BinopCode` (a shift the switch does not list is refused), an
        assignment ends in the store for its target, and a conditional
        expression is `TernaryCode` on two new labels. */
    twostate predicate OpEmitted(node: Node, new r: Result<int>, E: seq<Instr>)
      requires node.Not? || node.BitNot? || node.Binary? || node.Assign? || node.Ternary?
      reads this
    {
      var f, L := curfunc, old(nlabels);
      match node
      case Not(_, _) =>
        r.Success? ==>
          exists A, v, n, n1, n2 ::
            n1 == n + 1 && n2 == n + 2 && E == A + NotTail(v, r.value, Local(f, n), Local(f, n1), Local(f, n2))
      case BitNot(_, _) => r.Success? ==> exists A, v :: E == A + BitNotTail(v, r.value)
      case Binary(_, op, _, _) =>
        (op.Shl? || op.Shr? ==> r.Failure? && E == []) &&
        (r.Success? ==> exists A, B, a, b, ret, n ::
          E == BinopCode(node, A, B, a, b, ret, f, n) && r.value == (if op == Comma then b else ret))
      case Assign(_, left, right) =>
        var t, off, size := AssignBase(left), FieldOffset(left), right.ty.size;
        (r.Success? ==> t.Deref? || t.LVar? || t.GVar?) &&
        (r.Success? && t.Deref? ==> exists A, B, b, sp :: E == A + (B + AddrStores(b, off, r.value, size, sp))) &&
        (r.Success? && t.LVar? ==> exists A, sp ::
          E == A + AssignLocalAsWritten(Lookup(locals, t.varname), off, r.value, size, sp)) &&
        (r.Success? && t.GVar? ==>
          exists A, at :: at == Lookup(globals, t.varname) + off && E == A + ConstStores(at, r.value, size))
      case Ternary(_, _, thenArm, elseArm) =>
        r.Success? ==>
          exists C, nth, Then, Else, nz, end ::
            nz == L + 1 && E == TernaryCode(C, nth, r.value, Local(f, L), Local(f, nz), Then, Else, Local(f, end)) &&
            L + 2 <= end && (Then.Some? <==> thenArm.Some?) && (Else.Some? <==> elseArm.Some?)
    }

    /** A conversion or cast to type `ty`: an array variable converted to a
        pointer is its address, anything else its operand's code. */
    twostate predicate ConvEmitted(ty: Ty, o: Node, new r: Result<int>, E: seq<Instr>)
      reads this
      decreases o, 1
    {
      if o.ty.kind == KArray && ty.kind == KPtr && (o.LVar? || o.GVar?) then
        r == Success(old(nregs)) &&
        E == [IntI(old(nregs), if o.LVar? then Lookup(old(locals), o.varname) else Lookup(globals, o.varname))] +
          (if o.LVar? then [Alu(Add, old(nregs), old(nregs), 2)] else [])
      else Emitted(o, r, E)
    }

    /** Global words are handed out from `FirstGlobal` up to `initmem`:
        every global's slot of `globalsize` words lies between them, the
        slots of two globals are disjoint, and every word queued for
        clearing lies below `initmem`. */
    ghost predicate Allocated()
      reads this`globals, this`globalsize, this`globalzero, this`initmem
    {
      SlotsWithin(globals, globalsize, initmem) &&
      (forall i :: 0 <= i < |globalzero| ==> FirstGlobal <= globalzero[i] < initmem)
    }

    /** The output grew by `E`, defining only labels handed out in between;
        the global words and the string-literal queue only grow. Unlike
        `Grew`, the register counter and the frame size may be reset. */
    twostate predicate Appended(E: seq<Instr>)
      reads this
    {
      out == old(out) + E &&
      old(nlabels) <= nlabels && DefinesWithin(E, old(nlabels), nlabels) &&
      old(initmem) <= initmem && old(globalinit) <= globalinit
    }

    /** The state before the first top-level declaration. */
    constructor ()
      ensures Valid()
      ensures out == [] && nregs == 0 && nlabels == 0 && stackn == 0 && initmem == FirstGlobal
      ensures curfunc == "" && globals == map[] && globalsize == map[] && locals == map[]
      ensures globalzero == [] && globalinit == [] && globalinitval == []
    {
      nregs := 0;
      stackn := 0;
      initmem := FirstGlobal;
      curfunc := "";
      globals := map[];
      locals := map[];
      globalzero := [];
      globalinit := [];
      globalinitval := [];
      out := [];
      nlabels := 0;
      ndecls := 0;
      globalsize := map[];
    }

    // -------------------------------------------------------------------
    // Primitives: labels, single instructions, constant arithmetic, calls
    // -------------------------------------------------------------------

    /** make_label: a label never handed out before. */
    method MakeLabel() returns (id: nat)
      modifies this`nlabels
      requires Valid()
      ensures Valid()
      ensures id == old(nlabels) && nlabels == id + 1
    {
      id := nlabels;
      nlabels := nlabels + 1;
      DefinesWiden(out, 0, id, 0, nlabels);
    }

    /** `k` successive make_label calls: the labels first .. first + k - 1. */
    method MakeLabels(k: nat) returns (first: nat)
      modifies this`nlabels
      requires Valid()
      ensures Valid()
      ensures first == old(nlabels) && nlabels == first + k
    {
      first := nlabels;
      nlabels := nlabels + k;
      DefinesWiden(out, 0, first, 0, nlabels);
    }

    /** emit: one more line of output, defining no label of its own. */
    method Emit(x: Instr)
      modifies this`out
      requires Valid() && !(x.Lab? && x.lab.Local?)
      ensures Valid()
      ensures out == old(out) + [x]
    {
      DefinesCat(out, [x], 0, nlabels);
      out := out + [x];
    }

    /** Several lines at once, defining only labels handed out since `lo`. */
    method EmitCode(xs: seq<Instr>, ghost lo: nat)
      modifies this`out
      requires Valid() && DefinesWithin(xs, lo, nlabels)
      ensures Valid()
      ensures out == old(out) + xs
    {
      DefinesWiden(xs, lo, nlabels, 0, nlabels);
      DefinesCat(out, xs, 0, nlabels);
      out := out + xs;
    }

    /** emit_label: define a label of the current function. */
    method EmitLabel(id: nat)
      modifies this`out
      requires Valid() && id < nlabels
      ensures Valid()
      ensures out == old(out) + [Lab(Local(curfunc, id))]
    {
      DefinesCat(out, [Lab(Local(curfunc, id))], 0, nlabels);
      out := out + [Lab(Local(curfunc, id))];
    }

    /** emit_add_ri: `reg + num` in a new register, or `reg` for 0. */
    method EmitAddRI(reg: int, num: int) returns (r: int)
      modifies this`out, this`nregs
      requires Valid()
      ensures Valid()
      ensures r == AddRIReg(reg, num, old(nregs)) && nregs == AddRINext(num, old(nregs))
      ensures out == old(out) + AddRICode(reg, num, old(nregs))
    {
      if num == 0 {
        r := reg;
      } else {
        r := nregs;
        nregs := nregs + 1;
        Emit(IntI(r, num));
        Emit(Alu(Add, r, r, reg));
      }
    }

    /** emit_mul_ri: `reg * num` in a new register, or `reg` for 1. */
    method EmitMulRI(reg: int, num: int) returns (r: int)
      modifies this`out, this`nregs
      requires Valid()
      ensures Valid()
      ensures r == MulRIReg(reg, num, old(nregs)) && nregs == MulRINext(num, old(nregs))
      ensures out == old(out) + MulRICode(reg, num, old(nregs))
    {
      if num == 1 {
        r := reg;
      } else if num == 2 {
        r := nregs;
        nregs := nregs + 1;
        Emit(Alu(Add, r, reg, reg));
      } else {
        r := nregs;
        nregs := nregs + 1;
        Emit(IntI(r, num));
        Emit(Alu(Mul, r, r, reg));
      }
    }

    /** emit_pre_call: publish the callee's frame pointer in word 1. */
    method EmitPreCall()
      modifies this`out, this`nregs
      requires Valid()
      ensures Valid()
      ensures nregs == old(nregs) + 1
      ensures out == old(out) + PreCallCode(stackn + BufferExtra, old(nregs))
    {
      var reg := nregs;
      nregs := nregs + 1;
      Emit(IntI(0, stackn + BufferExtra));
      Emit(Alu(Add, reg, 2, 0));
      Emit(IntI(0, 1));
      Emit(Set(0, reg));
    }

    /** emit_post_call: restore word 1 to this frame's pointer. */
    method EmitPostCall()
      modifies this`out
      requires Valid()
      ensures Valid()
      ensures out == old(out) + [Set(0, 2)]
    {
      Emit(Set(0, 2));
    }

    // -------------------------------------------------------------------
    // The word-by-word loops
    // -------------------------------------------------------------------

    /** Word i of registers `src ..` goes to `emit_add_ri(base, off + i)`
        (emit_assign_to through a pointer or into a local, emit_args). */
    method EmitAddrStores(base: int, off: int, src: int, count: nat)
      modifies this`out, this`nregs
      requires Valid()
      ensures Valid()
      ensures out == old(out) + AddrStores(base, off, src, count, old(nregs))
      ensures nregs == ChunksNext(off, count, old(nregs)) && old(nregs) <= nregs
    {
      var i := 0;
      while i < count
        invariant 0 <= i <= count && Valid()
        invariant out == old(out) + AddrStores(base, off, src, i, old(nregs))
        invariant nregs == ChunksNext(off, i, old(nregs))
      {
        ghost var before := out;
        ghost var sp := nregs;
        var where := EmitAddRI(base, off + i);
        Emit(Set(where, src + i));
        AddrStoresSnoc(base, off, src, i, old(nregs));
        AppendAssoc(before, AddRICode(base, off + i, sp), [Set(where, src + i)]);
        AppendAssoc(old(out), AddrStores(base, off, src, i, old(nregs)), StoreChunk(base, off + i, src + i, sp));
        i := i + 1;
      }
      ChunksNextGrows(off, count, old(nregs));
    }

    /** Register `dst + i` receives the word at `emit_add_ri(base, off + i)`
        (emit_lvar, the result of a call). */
    method EmitAddrLoads(base: int, off: int, dst: int, count: nat)
      modifies this`out, this`nregs
      requires Valid()
      ensures Valid()
      ensures out == old(out) + AddrLoads(base, off, dst, count, old(nregs))
      ensures nregs == ChunksNext(off, count, old(nregs)) && old(nregs) <= nregs
    {
      var i := 0;
      while i < count
        invariant 0 <= i <= count && Valid()
        invariant out == old(out) + AddrLoads(base, off, dst, i, old(nregs))
        invariant nregs == ChunksNext(off, i, old(nregs))
      {
        ghost var before := out;
        ghost var sp := nregs;
        var where := EmitAddRI(base, off + i);
        Emit(Get(dst + i, where));
        AddrLoadsSnoc(base, off, dst, i, old(nregs));
        AppendAssoc(before, AddRICode(base, off + i, sp), [Get(dst + i, where)]);
        AppendAssoc(old(out), AddrLoads(base, off, dst, i, old(nregs)), LoadChunk(base, off + i, dst + i, sp));
        i := i + 1;
      }
      ChunksNextGrows(off, count, old(nregs));
    }

    /** Word `base + off + i` receives register `src + i`, addressed
        through r0 (emit_local_store, emit_return). */
    method EmitBaseStores(base: int, off: int, src: int, count: nat)
      modifies this`out
      requires Valid()
      ensures Valid()
      ensures out == old(out) + BaseStores(base, off, src, count)
    {
      var i := 0;
      while i < count
        invariant 0 <= i <= count && Valid()
        invariant out == old(out) + BaseStores(base, off, src, i)
      {
        Emit(IntI(0, off + i));
        Emit(Alu(Add, 0, 0, base));
        Emit(Set(0, src + i));
        BaseStoresSnoc(base, off, src, i);
        AppendAssoc(old(out), BaseStores(base, off, src, i), [IntI(0, off + i), Alu(Add, 0, 0, base), Set(0, src + i)]);
        i := i + 1;
      }
    }

    /** Register `dst + i` receives word `base + off + i` (emit_deref). */
    method EmitBaseLoads(base: int, off: int, dst: int, count: nat)
      modifies this`out
      requires Valid()
      ensures Valid()
      ensures out == old(out) + BaseLoads(base, off, dst, count)
    {
      var i := 0;
      while i < count
        invariant 0 <= i <= count && Valid()
        invariant out == old(out) + BaseLoads(base, off, dst, i)
      {
        Emit(IntI(0, off + i));
        Emit(Alu(Add, 0, 0, base));
        Emit(Get(dst + i, 0));
        BaseLoadsSnoc(base, off, dst, i);
        AppendAssoc(old(out), BaseLoads(base, off, dst, i), [IntI(0, off + i), Alu(Add, 0, 0, base), Get(dst + i, 0)]);
        i := i + 1;
      }
    }

    /** Word `addr + i` receives register `src + i` (emit_assign_to into a
        global, the global initializers of `_start`). */
    method EmitConstStores(addr: int, src: int, count: nat)
      modifies this`out
      requires Valid()
      ensures Valid()
      ensures out == old(out) + ConstStores(addr, src, count)
    {
      var i := 0;
      while i < count
        invariant 0 <= i <= count && Valid()
        invariant out == old(out) + ConstStores(addr, src, i)
      {
        Emit(IntI(0, addr + i));
        Emit(Set(0, src + i));
        ConstStoresSnoc(addr, src, i);
        AppendAssoc(old(out), ConstStores(addr, src, i), [IntI(0, addr + i), Set(0, src + i)]);
        i := i + 1;
      }
    }

    /** Register `dst + i` receives word `addr + i` (emit_gvar). */
    method EmitConstLoads(addr: int, dst: int, count: nat)
      modifies this`out
      requires Valid()
      ensures Valid()
      ensures out == old(out) + ConstLoads(addr, dst, count)
    {
      var i := 0;
      while i < count
        invariant 0 <= i <= count && Valid()
        invariant out == old(out) + ConstLoads(addr, dst, i)
      {
        Emit(IntI(0, addr + i));
        Emit(Get(dst + i, 0));
        ConstLoadsSnoc(addr, dst, i);
        AppendAssoc(old(out), ConstLoads(addr, dst, i), [IntI(0, addr + i), Get(dst + i, 0)]);
        i := i + 1;
      }
    }

    /** The constant words of the trampoline, in order. */
    method EmitPokes(ps: seq<Poke>)
      modifies this`out
      requires Valid()
      ensures Valid()
      ensures out == old(out) + PokesCode(ps)
    {
      var i := 0;
      while i < |ps|
        invariant 0 <= i <= |ps| && Valid()
        invariant out == old(out) + PokesCode(ps[..i])
      {
        Emit(IntI(0, ps[i].addr));
        Emit(IntI(2, ps[i].val));
        Emit(Set(0, 2));
        PokesCodeSnoc(ps, i);
        AppendAssoc(old(out), PokesCode(ps[..i]), [IntI(0, ps[i].addr), IntI(2, ps[i].val), Set(0, 2)]);
        i := i + 1;
      }
      assert ps[..i] == ps;
    }

    /** The queueing loop of emit_literal: the characters up to and
        including the first NUL, at consecutive words from `where`. */
    method QueueString(where: int, s: seq<int>)
      modifies this`globalinit
      ensures globalinit == old(globalinit) + StringPokes(where, CStr(s) + [0])
    {
      var head := where;
      var i := 0;
      while true
        invariant 0 <= i <= |CStr(s)| && head == where + i
        invariant globalinit == old(globalinit) + StringPokes(where, CStr(s)[..i])
        decreases |CStr(s)| - i
      {
        var c := CharAt(s, i);
        globalinit := globalinit + [Poke(head, c)];
        if c == 0 {
          assert i == |CStr(s)|;
          assert StringPokes(where, CStr(s)[..i]) + [Poke(head, c)] == StringPokes(where, CStr(s) + [0]);
          break;
        }
        assert StringPokes(where, CStr(s)[..i]) + [Poke(head, c)] == StringPokes(where, CStr(s)[..i + 1]);
        i := i + 1;
        head := head + 1;
      }
    }

    /** emit_literal: a string (array type) gets `strlen + 1` fresh words
        of global memory, queued for the trampoline, and evaluates to their
        address; any other literal to its value. */
    method EmitLiteral(node: Node) returns (r: Result<int>, ghost E: seq<Instr>)
      modifies this`out, this`nregs, this`initmem, this`globalinit
      requires Valid() && node.Literal?
      ensures Valid() && Grew(E)
      ensures r == Success(old(nregs)) && nregs == old(nregs) + 1
      ensures node.ty.kind == KArray ==>
        var len := |CStr(node.sval)| + 1;
        E == [IntI(old(nregs), old(initmem))] && initmem == old(initmem) + len &&
        globalinit == old(globalinit) + StringPokes(old(initmem), CStr(node.sval) + [0])
      ensures node.ty.kind != KArray ==>
        E == [IntI(old(nregs), node.ival)] &&
        initmem == old(initmem) && globalinit == old(globalinit)
    {
      var ret := nregs;
      nregs := nregs + 1;
      if node.ty.kind == KArray {
        var len := |CStr(node.sval)| + 1;
        var where := initmem;
        initmem := initmem + len;
        QueueString(where, node.sval);
        Emit(IntI(ret, where));
        E := [IntI(ret, where)];
      } else {
        Emit(IntI(ret, node.ival));
        E := [IntI(ret, node.ival)];
      }
      r := Success(ret);
    }

    /** emit_gvar: a new run of `size` registers loaded from the global's
        address. */
    method EmitGvar(node: Node) returns (r: int)
      modifies this`out, this`nregs
      requires Valid() && node.GVar?
      ensures Valid()
      ensures r == old(nregs) && nregs == r + node.ty.size
      ensures out == old(out) + ConstLoads(Lookup(globals, node.varname), r, node.ty.size)
    {
      r := nregs;
      nregs := nregs + node.ty.size;
      EmitConstLoads(Lookup(globals, node.varname), r, node.ty.size);
    }

    /** The operator switch of emit_binop, given the operand registers:
        `,` yields the right operand, the arithmetic and bitwise operators
        one instruction into a new register, `/` `DivCode`, and a relation
        materialises 0 or 1 through three new labels ift, iff, end (with
        `!=` as written, see `Patterns.CompareTailRun`). Anything else is
        an invalid operator. */
    method EmitOperator(op: BinOp, ty: Ty, lhs: int, rhs: int) returns (r: Result<int>, ghost X: seq<Instr>)
      modifies this`out, this`nregs, this`nlabels
      requires Valid()
      ensures Valid() && out == old(out) + X && DefinesWithin(X, old(nlabels), nlabels)
      ensures old(nregs) <= nregs && old(nlabels) <= nlabels
      ensures IsOperator(op) ==>
        var n := old(nlabels);
        r == Success(if op == Comma then rhs else old(nregs)) &&
        X == OperatorCode(op, ty, lhs, rhs, old(nregs), Local(curfunc, n), Local(curfunc, n + 1), Local(curfunc, n + 2)) &&
        nregs == (if op == Comma then old(nregs) else old(nregs) + 1) &&
        nlabels == (if IsRelational(op) then n + 3 else n)
      ensures !IsOperator(op) ==> r.Failure? && X == [] && nregs == old(nregs) && nlabels == old(nlabels)
    {
      X := [];
      if op == Comma {
        return Success(rhs), X;
      }
      if !IsOperator(op) {
        return Failure("invalid operator"), X;
      }
      var ret := nregs;
      nregs := nregs + 1;
      var n := nlabels;
      X := OperatorCode(op, ty, lhs, rhs, ret, Local(curfunc, n), Local(curfunc, n + 1), Local(curfunc, n + 2));
      OperatorCodeCases(op, ty, lhs, rhs, ret, Local(curfunc, n), Local(curfunc, n + 1), Local(curfunc, n + 2));
      if IsRelational(op) {
        EmitCompare(op, lhs, rhs, ret);
        CompareTailDefines(op, lhs, rhs, ret, curfunc, n, n, nlabels);
      } else {
        LabFreeDefines(X, n, n);
        EmitCode(OperatorCode(op, ty, lhs, rhs, ret, Local(curfunc, n), Local(curfunc, n + 1), Local(curfunc, n + 2)), n);
      }
      r := Success(ret);
    }

    /** A relation of emit_binop's switch: labels ift, iff and end, the
        branch, and 0 or 1 into `ret`. As written `!=` uses the `==` branch,
        so it yields 1 on equal operands (`Patterns.CompareTailRun`). */
    method EmitCompare(op: BinOp, lhs: int, rhs: int, ret: int)
      modifies this`out, this`nlabels
      requires Valid() && IsRelational(op)
      ensures Valid()
      ensures var n := old(nlabels);
        nlabels == n + 3 &&
        out == old(out) + CompareTail(op, lhs, rhs, ret, Local(curfunc, n), Local(curfunc, n + 1), Local(curfunc, n + 2))
    {
      var ift := MakeLabel();
      var iff := MakeLabel();
      var end := MakeLabel();
      CompareTailDefines(op, lhs, rhs, ret, curfunc, ift, ift, nlabels);
      EmitCode(CompareTail(op, lhs, rhs, ret, Local(curfunc, ift), Local(curfunc, iff), Local(curfunc, end)), ift);
    }

    // -------------------------------------------------------------------
    // Operands, conditions (emit_branch_bool)
    // -------------------------------------------------------------------

    /** The two operands of a binary node, left first, as emit_binop and
        emit_branch_bool evaluate them. */
    method EmitOperands(left: Node, right: Node)
      returns (r: Result<(int, int)>, ghost E: seq<Instr>, ghost A: seq<Instr>, ghost B: seq<Instr>)
      modifies this`out, this`nregs, this`nlabels, this`stackn, this`locals, this`ndecls, this`initmem, this`globalinit
      requires Valid()
      ensures Valid() && Grew(E)
      ensures r.Success? ==> E == A + B
      decreases Size(left) + Size(right), 4
    {
      B := [];
      var lhs, rhs;
      lhs, A := EmitValue(left);
      E := A;
      if lhs.Failure? { return Failure(lhs.error), E, A, B; }
      ghost var n1 := nlabels;
      rhs, B := EmitValue(right);
      Glue(old(out), A, B, old(nlabels), n1, n1, nlabels);
      E := A + B;
      if rhs.Failure? { return Failure(rhs.error), E, A, B; }
      r := Success((lhs.value, rhs.value));
    }

    // -------------------------------------------------------------------
    // Conditions (emit_branch_bool)
    // -------------------------------------------------------------------

    /** emit_branch_bool: code that continues at `nonzero` when `node` is
        true and at `zero` when it is false. A relation branches on its
        operands directly; anything else is evaluated and tested against
        zero. */
    method EmitBranchBool(node: Node, zero: nat, nonzero: nat)
      returns (r: Result<int>, ghost E: seq<Instr>, ghost L: seq<Instr>, ghost R: seq<Instr>, ghost lhs: int, ghost rhs: int)
      modifies this`out, this`nregs, this`nlabels, this`stackn, this`locals, this`ndecls, this`initmem, this`globalinit
      requires Valid() && zero < nlabels && nonzero < nlabels
      ensures Valid() && Grew(E)
      ensures r.Success? && node.Binary? && IsRelational(node.op) ==>
        E == L + R + [BranchFor(node.op, lhs, rhs, Local(curfunc, zero), Local(curfunc, nonzero))]
      ensures r.Success? && !(node.Binary? && IsRelational(node.op)) ==>
        E == L + TruthTest(lhs, Local(curfunc, zero), Local(curfunc, nonzero))
      decreases Size(node), 4
    {
      R := [];
      lhs, rhs := 0, 0;
      if node.Binary? && IsRelational(node.op) {
        var p;
        p, E, L, R := EmitOperands(node.left, node.right);
        if p.Failure? { return Failure(p.error), E, L, R, lhs, rhs; }
        lhs, rhs := p.value.0, p.value.1;
        var br := BranchFor(node.op, p.value.0, p.value.1, Local(curfunc, zero), Local(curfunc, nonzero));
        Emit(br);
        Glue(old(out), E, [br], old(nlabels), nlabels, nlabels, nlabels);
        E := E + [br];
      } else {
        var a;
        a, L := EmitExpr(node);
        E := L;
        if a.Failure? { return a, E, L, R, lhs, rhs; }
        lhs := a.value;
        var test := TruthTest(a.value, Local(curfunc, zero), Local(curfunc, nonzero));
        EmitCode(test, nlabels);
        Glue(old(out), E, test, old(nlabels), nlabels, nlabels, nlabels);
        E := E + test;
      }
      r := Success(0);
    }

    // -------------------------------------------------------------------
    // Assignment (emit_assign_to)
    // -------------------------------------------------------------------

    /** The two loops at the head of emit_assign_to: struct references
        are stripped, adding up their field offsets, then conversions. */
    static method StripTarget(to: Node) returns (t: Node, offset: int)
      ensures t == AssignBase(to) && offset == FieldOffset(to) && Size(t) <= Size(to)
      ensures !t.Conv?
    {
      offset := 0;
      t := to;
      while t.StructRef?
        invariant offset + FieldOffset(t) == FieldOffset(to) && AssignBase(t) == AssignBase(to)
        invariant Size(t) <= Size(to)
        decreases Size(t)
      {
        offset := offset + t.fieldOffset;
        t := t.struc;
      }
      while t.Conv?
        invariant offset == FieldOffset(to) && Unconv(t) == AssignBase(to) && Size(t) <= Size(to)
        decreases Size(t)
      {
        t := t.operand;
      }
    }

    /** emit_assign_to: evaluate `from`, then store its words into `to`,
        whose struct references add up to a field offset and whose
        conversions are looked through: through a pointer, into a local at
        its frame offset, or into a global at its address. The result is
        the register of the assigned value. As written a local target drops
        the field offset (`AssignLocalAsWritten`), so a store into a field
        of a local struct lands on its first words. */
    method EmitAssignTo(from: Node, to: Node)
      returns (r: Result<int>, ghost E: seq<Instr>, ghost A: seq<Instr>, ghost B: seq<Instr>, ghost b: int, ghost sp: int)
      modifies this`out, this`nregs, this`nlabels, this`stackn, this`locals, this`ndecls, this`initmem, this`globalinit
      requires Valid()
      ensures Valid() && Grew(E)
      ensures r.Success? ==> AssignBase(to).Deref? || AssignBase(to).LVar? || AssignBase(to).GVar?
      ensures r.Success? && AssignBase(to).Deref? ==>
        E == A + (B + AddrStores(b, FieldOffset(to), r.value, from.ty.size, sp))
      ensures r.Success? && AssignBase(to).LVar? ==>
        E == A + AssignLocalAsWritten(Lookup(locals, AssignBase(to).varname), FieldOffset(to), r.value, from.ty.size, sp)
      ensures r.Success? && AssignBase(to).GVar? ==>
        E == A + ConstStores(Lookup(globals, AssignBase(to).varname) + FieldOffset(to), r.value, from.ty.size)
      decreases Size(from) + Size(to), 4
    {
      B, b, sp := [], 0, 0;
      var t, offset := StripTarget(to);
      var rhs;
      rhs, A := EmitValue(from);
      E := A;
      if rhs.Failure? { return rhs, E, A, B, b, sp; }
      ghost var n1 := nlabels;
      var st;
      ghost var S;
      st, S, B, b, sp := EmitStore(t, offset, rhs.value, from.ty.size);
      Glue(old(out), A, S, old(nlabels), n1, n1, nlabels);
      E := A + S;
      if st.Failure? { return st, E, A, B, b, sp; }
      r := rhs;
    }

    /** The store half of emit_assign_to, once the value is in registers
        from `src` and struct references and conversions are stripped from
        the target `t`: through a pointer, into a local (at the local's own
        frame offset, the field offset dropped as written), or into a
        global. */
    method EmitStore(t: Node, offset: int, src: int, size: nat)
      returns (r: Result<int>, ghost E: seq<Instr>, ghost B: seq<Instr>, ghost b: int, ghost sp: int)
      modifies this`out, this`nregs, this`nlabels, this`stackn, this`locals, this`ndecls, this`initmem, this`globalinit
      requires Valid()
      ensures Valid() && Grew(E)
      ensures r.Success? ==> t.Deref? || t.LVar? || t.GVar?
      ensures r.Success? && t.Deref? ==> E == B + AddrStores(b, offset, src, size, sp)
      ensures t.LVar? ==> r.Success? && E == AssignLocalAsWritten(Lookup(locals, t.varname), offset, src, size, sp)
      ensures t.GVar? ==> r.Success? && E == ConstStores(Lookup(globals, t.varname) + offset, src, size)
      decreases Size(t), 4
    {
      B, b, sp := [], 0, 0;
      if t.Deref? {
        var lhs;
        lhs, B := EmitValue(t.operand);
        E := B;
        if lhs.Failure? { return lhs, E, B, b, sp; }
        b, sp := lhs.value, nregs;
        EmitAddrStores(lhs.value, offset, src, size);
        ghost var X := AddrStores(b, offset, src, size, sp);
        AddrStoresLabFree(b, offset, src, size, sp);
        LabFreeDefines(X, nlabels, nlabels);
        Glue(old(out), E, X, old(nlabels), nlabels, nlabels, nlabels);
        E := E + X;
      } else if t.LVar? {
        sp := nregs;
        EmitAddrStores(2, Lookup(locals, t.varname), src, size);
        E := AssignLocalAsWritten(Lookup(locals, t.varname), offset, src, size, sp);
        AddrStoresLabFree(2, Lookup(locals, t.varname), src, size, sp);
        LabFreeDefines(E, nlabels, nlabels);
      } else if t.GVar? {
        EmitConstStores(Lookup(globals, t.varname) + offset, src, size);
        E := ConstStores(Lookup(globals, t.varname) + offset, src, size);
        ConstStoresLabFree(Lookup(globals, t.varname) + offset, src, size);
        LabFreeDefines(E, nlabels, nlabels);
      } else {
        return Failure("assign to bad thing"), [], B, b, sp;
      }
      r := Success(0);
    }

    // -------------------------------------------------------------------
    // Binary operators (emit_binop)
    // -------------------------------------------------------------------

    /** Pointer `+` and `-` (the first branch of emit_binop): the integer
        operand is scaled by the pointee size; the difference of two
        pointers is divided by it. */
    method EmitPtrArith(node: Node)
      returns (r: Result<int>, ghost E: seq<Instr>, ghost A: seq<Instr>, ghost B: seq<Instr>, ghost a: int, ghost b: int)
      modifies this`out, this`nregs, this`nlabels, this`stackn, this`locals, this`ndecls, this`initmem, this`globalinit
      requires Valid() && node.Binary? && (node.op == Plus || node.op == Minus)
      ensures Valid() && Grew(E)
      ensures r.Success? ==>
        E == A + B + PtrArithCode(node.op == Plus, node.right.ty.kind == KPtr, a, b, node.left.ty.ptrSize, r.value)
      decreases Size(node), 1
    {
      a, b := 0, 0;
      var p;
      p, E, A, B := EmitOperands(node.left, node.right);
      if p.Failure? { return Failure(p.error), E, A, B, a, b; }
      a, b := p.value.0, p.value.1;
      var rreg := EmitPtrOp(node.op == Plus, node.right.ty.kind == KPtr, p.value.0, p.value.1, node.left.ty.ptrSize);
      ghost var X := PtrArithCode(node.op == Plus, node.right.ty.kind == KPtr, a, b, node.left.ty.ptrSize, rreg);
      LabFreeDefines(X, nlabels, nlabels);
      Glue(old(out), E, X, old(nlabels), nlabels, nlabels, nlabels);
      E := E + X;
      r := Success(rreg);
    }

    /** The tail of pointer `+` and `-` once both operands are in
        registers `a` and `b`. */
    method EmitPtrOp(plus: bool, diff: bool, a: int, b: int, size: int) returns (rreg: int)
      modifies this`out, this`nregs
      requires Valid()
      ensures Valid()
      ensures rreg == old(nregs) && rreg < nregs
      ensures out == old(out) + PtrArithCode(plus, diff, a, b, size, rreg)
    {
      rreg := nregs;
      nregs := nregs + 1;
      ghost var before := out;
      if plus {
        var reg := EmitMulRI(b, size);
        Emit(Alu(Add, rreg, a, reg));
        AppendAssoc(before, MulRICode(b, size, rreg + 1), [Alu(Add, rreg, a, reg)]);
      } else if diff {
        if size == 1 {
          Emit(Alu(Sub, rreg, a, b));
        } else {
          EmitCode(PtrDiffCode(a, b, size, rreg), nlabels);
        }
      } else {
        if size == 1 {
          Emit(Alu(Sub, rreg, a, b));
        } else {
          var reg := EmitMulRI(b, size);
          Emit(Alu(Sub, rreg, a, reg));
          AppendAssoc(before, MulRICode(b, size, rreg + 1), [Alu(Sub, rreg, a, reg)]);
        }
      }
    }

    /** The in-place postfix add (OP_IPADD): only for one-word operands;
        the operand's address is computed, then `IpAddCode`. */
    method EmitIpAdd(node: Node)
      returns (r: Result<int>, ghost E: seq<Instr>, ghost A: seq<Instr>, ghost B: seq<Instr>, ghost a: int, ghost b: int)
      modifies this`out, this`nregs, this`nlabels, this`stackn, this`locals, this`ndecls, this`initmem, this`globalinit
      requires Valid() && node.Binary? && node.op == IpAdd
      ensures Valid() && Grew(E)
      ensures node.left.ty.size != 1 ==> r.Failure? && E == []
      ensures r.Success? ==>
        E == A + B + IpAddCode(a, b, r.value, node.left.ty.kind == KPtr, node.left.ty.ptrSize)
      decreases Size(node), 1
    {
      E, A, B, a, b := [], [], [], 0, 0;
      if node.left.ty.size != 1 {
        return Failure("postfix `++` or `--` on type too big"), E, A, B, a, b;
      }
      var addr, add;
      ghost var p1: seq<Instr>, p2: int;
      addr, A, p1, p2 := EmitAddr(node.left);
      E := A;
      if addr.Failure? { return addr, E, A, B, a, b; }
      ghost var n1 := nlabels;
      add, B := EmitValue(node.right);
      Glue(old(out), A, B, old(nlabels), n1, n1, nlabels);
      E := A + B;
      if add.Failure? { return add, E, A, B, a, b; }
      a, b := addr.value, add.value;
      var ret := nregs;
      nregs := nregs + 1;
      var X := IpAddCode(addr.value, add.value, ret, node.left.ty.kind == KPtr, node.left.ty.ptrSize);
      LabFreeDefines(X, nlabels, nlabels);
      EmitCode(X, nlabels);
      Glue(old(out), E, X, old(nlabels), nlabels, nlabels, nlabels);
      E := E + X;
      r := Success(ret);
    }

    /** `&&` (OP_LOGAND): the result register and the labels end, f0, t1,
        t2 are taken first; the operands' branch code is laid out by
        `AndCode`, and defines only labels handed out after those four. */
    method EmitLogAnd(node: Node)
      returns (r: Result<int>, ghost E: seq<Instr>, ghost L: seq<Instr>, ghost R: seq<Instr>)
      modifies this`out, this`nregs, this`nlabels, this`stackn, this`locals, this`ndecls, this`initmem, this`globalinit
      requires Valid() && node.Binary? && node.op == LogAnd
      ensures Valid() && Grew(E)
      ensures r.Success? ==>
        var n := old(nlabels);
        r.value == old(nregs) &&
        E == AndCode(L, R, old(nregs), Local(curfunc, n), Local(curfunc, n + 1), Local(curfunc, n + 2), Local(curfunc, n + 3)) &&
        DefinesWithin(L, n + 4, nlabels) && DefinesWithin(R, n + 4, nlabels)
      decreases Size(node), 1
    {
      R := [];
      var ret := nregs;
      nregs := nregs + 1;
      var end := MakeLabels(4);
      var f0, t1, t2 := end + 1, end + 2, end + 3;
      var a;
      ghost var p1: seq<Instr>, p2: seq<Instr>, p3: int, p4: int;
      a, L, p1, p2, p3, p4 := EmitBranchBool(node.left, f0, t1);
      E := L;
      DefinesWiden(L, t2 + 1, nlabels, old(nlabels), nlabels);
      if a.Failure? { return a, E, L, R; }
      ghost var n1 := nlabels;
      var b;
      ghost var T;
      b, T, R := EmitLogTail(node.right, ret, f0, t1, t2, end, old(nlabels));
      Glue(old(out), E, T, old(nlabels), n1, old(nlabels), nlabels);
      E := E + T;
      if b.Failure? { return b, E, L, R; }
      ShortCircuitShape(L, R, ret, Local(curfunc, end), Local(curfunc, f0), Local(curfunc, t1), Local(curfunc, t2));
      DefinesWiden(L, t2 + 1, n1, t2 + 1, nlabels);
      DefinesWiden(R, n1, nlabels, t2 + 1, nlabels);
      r := Success(ret);
    }

    /** `||` (OP_LOGOR): labels end, f1, f2, t1 taken first, laid out by
        `OrCode`. */
    method EmitLogOr(node: Node)
      returns (r: Result<int>, ghost E: seq<Instr>, ghost L: seq<Instr>, ghost R: seq<Instr>)
      modifies this`out, this`nregs, this`nlabels, this`stackn, this`locals, this`ndecls, this`initmem, this`globalinit
      requires Valid() && node.Binary? && node.op == LogOr
      ensures Valid() && Grew(E)
      ensures r.Success? ==>
        var n := old(nlabels);
        r.value == old(nregs) &&
        E == OrCode(L, R, old(nregs), Local(curfunc, n), Local(curfunc, n + 1), Local(curfunc, n + 2), Local(curfunc, n + 3)) &&
        DefinesWithin(L, n + 4, nlabels) && DefinesWithin(R, n + 4, nlabels)
      decreases Size(node), 1
    {
      R := [];
      var ret := nregs;
      nregs := nregs + 1;
      var end := MakeLabels(4);
      var f1, f2, t1 := end + 1, end + 2, end + 3;
      var a;
      ghost var p1: seq<Instr>, p2: seq<Instr>, p3: int, p4: int;
      a, L, p1, p2, p3, p4 := EmitBranchBool(node.left, f1, t1);
      E := L;
      DefinesWiden(L, t1 + 1, nlabels, old(nlabels), nlabels);
      if a.Failure? { return a, E, L, R; }
      ghost var n1 := nlabels;
      var b;
      ghost var T;
      b, T, R := EmitLogTail(node.right, ret, f2, f1, t1, end, old(nlabels));
      Glue(old(out), E, T, old(nlabels), n1, old(nlabels), nlabels);
      E := E + T;
      if b.Failure? { return b, E, L, R; }
      ShortCircuitShape(L, R, ret, Local(curfunc, end), Local(curfunc, f2), Local(curfunc, f1), Local(curfunc, t1));
      DefinesWiden(L, t1 + 1, n1, t1 + 1, nlabels);
      DefinesWiden(R, n1, nlabels, t1 + 1, nlabels);
      r := Success(ret);
    }

    /** The second half of `&&` and `||`: `@zero; ret <- 0; jump end;
        @resume`, the right operand's branch code to `zero` or `nonzero`,
        then `@nonzero; ret <- 1; @end`. Besides the labels it makes, it
        defines `zero`, `resume`, `nonzero` and `end`, made earlier from
        `lo` on. */
    method EmitLogTail(right: Node, ret: int, zero: nat, resume: nat, nonzero: nat, end: nat, ghost lo: nat)
      returns (r: Result<int>, ghost E: seq<Instr>, ghost R: seq<Instr>)
      modifies this`out, this`nregs, this`nlabels, this`stackn, this`locals, this`ndecls, this`initmem, this`globalinit
      requires Valid() && lo <= zero < nlabels && lo <= resume < nlabels && lo <= nonzero < nlabels && lo <= end < nlabels
      ensures Valid() && GrewFrom(E, lo)
      ensures r.Success? ==>
        E == [Lab(Local(curfunc, zero)), IntI(ret, 0), Jump(Local(curfunc, end)), Lab(Local(curfunc, resume))] + R +
          [Lab(Local(curfunc, nonzero)), IntI(ret, 1), Lab(Local(curfunc, end))] &&
        DefinesWithin(R, old(nlabels), nlabels)
      decreases Size(right), 5
    {
      var X1 := [Lab(Local(curfunc, zero)), IntI(ret, 0), Jump(Local(curfunc, end)), Lab(Local(curfunc, resume))];
      EmitCode(X1, lo);
      E := X1;
      ghost var n1 := nlabels;
      var b;
      ghost var p1: seq<Instr>, p2: seq<Instr>, p3: int, p4: int;
      b, R, p1, p2, p3, p4 := EmitBranchBool(right, zero, nonzero);
      Glue(old(out), E, R, lo, n1, n1, nlabels);
      E := E + R;
      if b.Failure? { return b, E, R; }
      var X := [Lab(Local(curfunc, nonzero)), IntI(ret, 1), Lab(Local(curfunc, end))];
      EmitCode(X, lo);
      Glue(old(out), E, X, lo, nlabels, lo, nlabels);
      E := E + X;
      r := Success(0);
    }

    /** The rest of emit_binop: both operands are evaluated, left first,
        then `EmitOperator` appends the operator's code. */
    method EmitArith(node: Node)
      returns (r: Result<int>, ghost E: seq<Instr>, ghost A: seq<Instr>, ghost B: seq<Instr>,
               ghost a: int, ghost b: int, ghost ret: int, ghost n: nat)
      modifies this`out, this`nregs, this`nlabels, this`stackn, this`locals, this`ndecls, this`initmem, this`globalinit
      requires Valid() && node.Binary?
      ensures Valid() && Grew(E)
      ensures r.Success? ==>
        IsOperator(node.op) &&
        r.value == (if node.op == Comma then b else ret) &&
        E == A + B + OperatorCode(node.op, node.ty, a, b, ret, Local(curfunc, n), Local(curfunc, n + 1), Local(curfunc, n + 2))
      decreases Size(node), 1
    {
      a, b, ret, n := 0, 0, 0, 0;
      var p;
      p, E, A, B := EmitOperands(node.left, node.right);
      if p.Failure? { return Failure(p.error), E, A, B, a, b, ret, n; }
      a, b, ret, n := p.value.0, p.value.1, nregs, nlabels;
      ghost var X;
      r, X := EmitOperator(node.op, node.ty, p.value.0, p.value.1);
      Glue(old(out), E, X, old(nlabels), n, n, nlabels);
      assert r.Success? ==>
        X == OperatorCode(node.op, node.ty, a, b, ret, Local(curfunc, n), Local(curfunc, n + 1), Local(curfunc, n + 2));
      E := E + X;
    }

    /** emit_binop: pointer `+`/`-`, then the in-place add, `&&` and `||`,
        then the generic operators; `BinopCode` gives the code of each
        route. An in-place add on a word-sized left operand is the only
        in-place add it accepts, and `&&` and `||` take their result
        register and labels first. */
    method EmitBinop(node: Node)
      returns (r: Result<int>, ghost E: seq<Instr>, ghost A: seq<Instr>, ghost B: seq<Instr>,
               ghost a: int, ghost b: int, ghost ret: int, ghost n: nat)
      modifies this`out, this`nregs, this`nlabels, this`stackn, this`locals, this`ndecls, this`initmem, this`globalinit
      requires Valid() && node.Binary?
      ensures Valid() && Grew(E)
      ensures node.op == IpAdd && node.left.ty.size != 1 ==> r.Failure? && E == []
      ensures r.Success? ==>
        E == BinopCode(node, A, B, a, b, ret, curfunc, n) &&
        r.value == (if node.op == Comma then b else ret) &&
        ((node.op == LogAnd || node.op == LogOr) ==> ret == old(nregs) && n == old(nlabels))
      decreases Size(node), 2
    {
      a, b, ret, n := 0, 0, 0, 0;
      if IsPtrArith(node) {
        r, E, A, B, a, b := EmitPtrArith(node);
        if r.Success? { ret := r.value; }
      } else if node.op == IpAdd {
        r, E, A, B, a, b := EmitIpAdd(node);
        if r.Success? { ret := r.value; }
      } else if node.op == LogAnd {
        ret, n := nregs, nlabels;
        r, E, A, B := EmitLogAnd(node);
      } else if node.op == LogOr {
        ret, n := nregs, nlabels;
        r, E, A, B := EmitLogOr(node);
      } else {
        r, E, A, B, a, b, ret, n := EmitArith(node);
      }
    }

    // -------------------------------------------------------------------
    // Calls (emit_args, emit_funcptr_call, emit_func_call)
    // -------------------------------------------------------------------

    /** emit_args: evaluate the arguments left to right, then store each
        one's words into the callee's frame, which starts `stackn` words
        past this frame. More arguments than the register buffer holds are
        refused. */
    method EmitArgs(args: seq<Node>)
      returns (r: Result<int>, ghost E: seq<Instr>, ghost V: seq<Instr>, ghost regs: seq<int>, ghost sp: int)
      modifies this`out, this`nregs, this`nlabels, this`stackn, this`locals, this`ndecls, this`initmem, this`globalinit
      requires Valid()
      ensures Valid() && Grew(E)
      ensures |args| > ArgBuffer ==> r.Failure? && E == []
      ensures r.Success? ==>
        |regs| == |args| &&
        E == V + ArgStores(regs, ArgSizes(args), stackn + BufferExtra, sp)
      decreases NodesSize(args), 4
    {
      E, V, regs, sp := [], [], [], 0;
      if |args| > ArgBuffer {
        return Failure("too many arguments"), E, V, regs, sp;
      }
      var buf: seq<int> := [];
      var i := 0;
      while i < |args|
        invariant 0 <= i <= |args| && |buf| == i && Valid() && Grew(V)
      {
        NodesSizeElem(args, i);
        ghost var n1 := nlabels;
        var v;
        ghost var Vi;
        v, Vi := EmitExpr(args[i]);
        Glue(old(out), V, Vi, old(nlabels), n1, n1, nlabels);
        V := V + Vi;
        if v.Failure? { return v, V, V, regs, sp; }
        buf := buf + [v.value];
        i := i + 1;
      }
      regs := buf;
      sp := nregs;
      E := V + ArgStores(regs, ArgSizes(args), stackn + BufferExtra, sp);
      EmitArgStores(buf, ArgSizes(args));
      ArgStoresLabFree(regs, ArgSizes(args), stackn + BufferExtra, sp);
      LabFreeDefines(ArgStores(regs, ArgSizes(args), stackn + BufferExtra, sp), nlabels, nlabels);
      Glue(old(out), V, ArgStores(regs, ArgSizes(args), stackn + BufferExtra, sp), old(nlabels), nlabels, nlabels, nlabels);
      r := Success(0);
    }

    /** The store loop of emit_args: argument i's words go to the callee's
        frame after those of the arguments before it. */
    method EmitArgStores(regs: seq<int>, sizes: seq<nat>)
      modifies this`out, this`nregs
      requires Valid() && |regs| == |sizes|
      ensures Valid()
      ensures out == old(out) + ArgStores(regs, sizes, stackn + BufferExtra, old(nregs))
      ensures nregs == ArgsNext(sizes, stackn + BufferExtra, old(nregs)) && old(nregs) <= nregs
    {
      var base := stackn + BufferExtra;
      ghost var spare := nregs;
      ghost var o := out;
      var off := 0;
      var i := 0;
      while i < |regs|
        invariant 0 <= i <= |regs| && Valid() && off == Words(sizes[..i]) && spare <= nregs
        invariant out == o + ArgStores(regs[..i], sizes[..i], base, spare)
        invariant nregs == ArgsNext(sizes[..i], base, spare)
      {
        EmitAddrStores(2, base + off, regs[i], sizes[i]);
        ArgStoresStep(o, regs, sizes, i, base, spare);
        off := off + sizes[i];
        i := i + 1;
      }
      assert regs[..i] == regs && sizes[..i] == sizes;
    }

    /** emit_funcptr_call: the callee's address, a register for the
        returned frame, the arguments, the call sequence, then the result
        loaded from the returned frame into a new register (and those after
        it). */
    method EmitFuncPtrCall(node: Node)
      returns (r: Result<int>, ghost E: seq<Instr>, ghost A: seq<Instr>, ghost G: seq<Instr>, ghost f: int, ghost q: int, ghost p: int)
      modifies this`out, this`nregs, this`nlabels, this`stackn, this`locals, this`ndecls, this`initmem, this`globalinit
      requires Valid() && node.FuncPtrCall?
      ensures Valid() && Grew(E)
      ensures r.Success? ==>
        r.value == p + 1 &&
        E == A + G + CallCode(stackn + BufferExtra, p, DCall(q, f), q, node.retVoid, node.retSize)
      decreases Size(node), 1
    {
      G, f, q, p := [], 0, 0, 0;
      var func;
      func, A := EmitValue(node.fptr);
      E := A;
      if func.Failure? { return func, E, A, G, f, q, p; }
      f := func.value;
      var ref := nregs;
      q := ref;
      nregs := nregs + 1;
      ghost var n1 := nlabels;
      var ok;
      ghost var V, regs, sp;
      ok, G, V, regs, sp := EmitArgs(node.args);
      Glue(old(out), E, G, old(nlabels), n1, n1, nlabels);
      E := E + G;
      if ok.Failure? { return ok, E, A, G, f, q, p; }
      p := nregs;
      var ret := EmitCallSequence(DCall(ref, func.value), ref, node.retVoid, node.retSize);
      ghost var X := CallCode(stackn + BufferExtra, p, DCall(q, f), q, node.retVoid, node.retSize);
      CallCodeLabFree(stackn + BufferExtra, p, DCall(q, f), q, node.retVoid, node.retSize);
      LabFreeDefines(X, nlabels, nlabels);
      Glue(old(out), E, X, old(nlabels), nlabels, nlabels, nlabels);
      E := E + X;
      r := Success(ret);
    }

    /** The call sequence both kinds of call end with: the callee's frame
        pointer published, the call, word 1 restored, and the result loaded
        from the returned frame `ref` into a new register (and those after
        it) unless the callee returns void. */
    method EmitCallSequence(call: Instr, ref: int, retVoid: bool, retSize: nat) returns (ret: int)
      modifies this`out, this`nregs
      requires Valid() && !call.Lab?
      ensures Valid()
      ensures ret == old(nregs) + 1 && nregs >= ret + 1
      ensures out == old(out) + CallCode(stackn + BufferExtra, old(nregs), call, ref, retVoid, retSize)
    {
      ghost var p := nregs;
      EmitPreCall();
      Emit(call);
      EmitPostCall();
      ret := nregs;
      nregs := nregs + 1;
      ghost var before := out;
      if !retVoid {
        EmitAddrLoads(ref, 0, ret, retSize);
        ChunksNextGrows(0, retSize, ret + 1);
      }
      assert before == old(out) + PreCallCode(stackn + BufferExtra, p) + [call] + [Set(0, 2)];
    }

    /** emit_func_call: `getchar` and `putchar` become VM instructions;
        any other call reserves `retSize` registers for the returned frame,
        then stores the arguments, calls `func.NAME`, and loads the result
        into a new register (and those after it). */
    method EmitFuncCall(node: Node)
      returns (r: Result<int>, ghost E: seq<Instr>, ghost A: seq<Instr>, ghost a: int, ghost p: int)
      modifies this`out, this`nregs, this`nlabels, this`stackn, this`locals, this`ndecls, this`initmem, this`globalinit
      requires Valid() && node.FunCall?
      ensures Valid() && Grew(E)
      ensures node.fname == "getchar" ==> r == Success(old(nregs)) && E == [Getchar(old(nregs))]
      ensures node.fname == "putchar" && |node.args| == 0 ==> r.Failure? && E == []
      ensures node.fname == "putchar" && r.Success? ==> r.value == 0 && E == A + [Putchar(a)]
      ensures node.fname != "getchar" && node.fname != "putchar" && r.Success? ==>
        r.value == p + 1 &&
        E == A + CallCode(stackn + BufferExtra, p, Call(old(nregs), node.fname), old(nregs), node.retVoid, node.retSize)
      decreases Size(node), 1
    {
      E, A, a, p := [], [], 0, 0;
      if node.fname == "getchar" {
        var reg := nregs;
        nregs := nregs + 1;
        Emit(Getchar(reg));
        E := [Getchar(reg)];
        return Success(reg), E, A, a, p;
      } else if node.fname == "putchar" {
        if |node.args| == 0 {
          return Failure("putchar without an argument"), E, A, a, p;
        }
        NodesSizeElem(node.args, 0);
        var regno;
        regno, A := EmitValue(node.args[0]);
        E := A;
        if regno.Failure? { return regno, E, A, a, p; }
        a := regno.value;
        Emit(Putchar(regno.value));
        Glue(old(out), E, [Putchar(a)], old(nlabels), nlabels, nlabels, nlabels);
        E := E + [Putchar(a)];
        return Success(0), E, A, a, p;
      }
      var ref := nregs;
      nregs := nregs + node.retSize;
      ghost var n1 := nlabels;
      var ok;
      ghost var V, regs, sp;
      ok, A, V, regs, sp := EmitArgs(node.args);
      E := A;
      if ok.Failure? { return ok, E, A, a, p; }
      p := nregs;
      var ret := EmitCallSequence(Call(ref, node.fname), ref, node.retVoid, node.retSize);
      ghost var X := CallCode(stackn + BufferExtra, p, Call(ref, node.fname), ref, node.retVoid, node.retSize);
      CallCodeLabFree(stackn + BufferExtra, p, Call(ref, node.fname), ref, node.retVoid, node.retSize);
      LabFreeDefines(X, nlabels, nlabels);
      Glue(old(out), E, X, old(nlabels), nlabels, nlabels, nlabels);
      E := E + X;
      r := Success(ret);
    }

    // -------------------------------------------------------------------
    // Control flow (emit_if, emit_ternary, emit_return)
    // -------------------------------------------------------------------

    /** emit_if: labels zero and nonzero first, the condition's branch
        code, the then arm behind `@nonzero`, and with an else arm a third
        label `end` made after the then arm. The condition's and the then
        arm's code define only labels made between the first two and
        `end`, the else arm's only labels made after `end`. */
    method EmitIf(node: Node)
      returns (r: Result<int>, ghost E: seq<Instr>, ghost B: seq<Instr>, ghost T: seq<Instr>, ghost El: Option<seq<Instr>>, ghost end: nat)
      modifies this`out, this`nregs, this`nlabels, this`stackn, this`locals, this`ndecls, this`initmem, this`globalinit
      requires Valid() && node.If?
      ensures Valid() && Grew(E)
      ensures r.Success? ==>
        var n := old(nlabels);
        r.value == 0 && n + 2 <= end && (El.Some? ==> end < nlabels) &&
        E == IfCode(B, Local(curfunc, n), Local(curfunc, n + 1), T, El, Local(curfunc, end)) &&
        DefinesWithin(B, n + 2, end) && DefinesWithin(T, n + 2, end) &&
        (El.Some? <==> node.elseArm.Some?) && (node.thenArm.None? ==> T == []) &&
        (El.Some? ==> DefinesWithin(El.value, end + 1, nlabels))
      decreases Size(node), 1
    {
      T, El, end := [], None, 0;
      var zero := MakeLabels(2);
      var nonzero := zero + 1;
      var c;
      ghost var p1: seq<Instr>, p2: seq<Instr>, p3: int, p4: int;
      c, B, p1, p2, p3, p4 := EmitBranchBool(node.cond, zero, nonzero);
      E := B;
      if c.Failure? { return c, E, B, T, El, end; }
      ghost var n1 := nlabels;
      var v;
      ghost var X, Th, Ea;
      v, X, Th, Ea, end := EmitBranches([Lab(Local(curfunc, nonzero))], zero, node.thenArm, node.elseArm, None, old(nlabels));
      Glue(old(out), E, X, old(nlabels), n1, old(nlabels), nlabels);
      E := E + X;
      T := ArmOut(Th, None);
      El := if Ea.Some? then Some(Ea.value.code) else None;
      if v.Failure? { return v, E, B, T, El, end; }
      Assoc4(B, [Lab(Local(curfunc, nonzero))], T, ElseOut(Local(curfunc, zero), Ea, None, Local(curfunc, end)));
      DefinesWiden(B, nonzero + 1, n1, nonzero + 1, end);
      if Th.Some? { DefinesWiden(Th.value.code, n1, end, nonzero + 1, end); }
      r := Success(0);
    }

    /** The part of emit_if and emit_ternary after the condition: the code
        `pre` (the label of the then arm, preceded in a ternary by the truth
        test), the then arm, and the else part `EmitElse` lays out. The label
        `end` of the else part is the first one made after the then arm. */
    method EmitBranches(pre: seq<Instr>, zero: nat, thenArm: Option<Node>, elseArm: Option<Node>, into: Option<int>, ghost lo: nat)
      returns (r: Result<int>, ghost E: seq<Instr>, ghost Th: Option<Arm>, ghost Ea: Option<Arm>, ghost end: nat)
      modifies this`out, this`nregs, this`nlabels, this`stackn, this`locals, this`ndecls, this`initmem, this`globalinit
      requires Valid() && lo <= zero < nlabels && DefinesWithin(pre, lo, nlabels)
      ensures Valid() && GrewFrom(E, lo)
      ensures r.Success? ==>
        old(nlabels) <= end && (Ea.Some? ==> end < nlabels) &&
        E == pre + ArmOut(Th, into) + ElseOut(Local(curfunc, zero), Ea, into, Local(curfunc, end)) &&
        (Th.Some? <==> thenArm.Some?) && (Ea.Some? <==> elseArm.Some?) &&
        (Th.Some? ==> DefinesWithin(Th.value.code, old(nlabels), end)) &&
        (Ea.Some? ==> DefinesWithin(Ea.value.code, end + 1, nlabels))
      decreases OptSize(thenArm) + OptSize(elseArm), 6
    {
      Ea, end := None, 0;
      EmitCode(pre, lo);
      E := pre;
      ghost var n1 := nlabels;
      var t;
      ghost var TE;
      t, TE, Th := EmitArm(thenArm, into);
      Glue(old(out), E, TE, lo, n1, n1, nlabels);
      E := E + TE;
      if t.Failure? { return t, E, Th, Ea, end; }
      end := nlabels;
      var v;
      ghost var X;
      v, X, Ea := EmitElse(zero, elseArm, into);
      Glue(old(out), E, X, lo, end, zero, nlabels);
      E := E + X;
      if v.Failure? { return v, E, Th, Ea, end; }
      r := Success(0);
    }

    /** A conditional's arm, if present: its value, copied into `into`
        when a result register is given. */
    method EmitArm(arm: Option<Node>, into: Option<int>) returns (r: Result<int>, ghost E: seq<Instr>, ghost A: Option<Arm>)
      modifies this`out, this`nregs, this`nlabels, this`stackn, this`locals, this`ndecls, this`initmem, this`globalinit
      requires Valid()
      ensures Valid() && Grew(E)
      ensures arm.None? ==> r.Success? && A.None? && E == []
      ensures r.Success? ==>
        (A.Some? <==> arm.Some?) && E == ArmOut(A, into) &&
        (A.Some? ==> DefinesWithin(A.value.code, old(nlabels), nlabels))
      decreases OptSize(arm), 4
    {
      E, A := [], None;
      if arm.None? { return Success(0), E, A; }
      var v;
      ghost var C;
      v, C := EmitExpr(arm.value);
      E := C;
      if v.Failure? { return v, E, A; }
      A := Some(Arm(C, v.value));
      if into.Some? {
        Emit(Mov(into.value, v.value));
        Glue(old(out), E, [Mov(into.value, v.value)], old(nlabels), nlabels, nlabels, nlabels);
        E := E + [Mov(into.value, v.value)];
      }
      r := Success(0);
    }

    /** The tail of emit_if and emit_ternary from the else arm on: with an
        else arm, a new label `end`, `jump end; @zero`, the arm, `@end`;
        without, just `@zero`. It also defines the earlier label `zero`. */
    method EmitElse(zero: nat, arm: Option<Node>, into: Option<int>)
      returns (r: Result<int>, ghost E: seq<Instr>, ghost A: Option<Arm>)
      modifies this`out, this`nregs, this`nlabels, this`stackn, this`locals, this`ndecls, this`initmem, this`globalinit
      requires Valid() && zero < nlabels
      ensures Valid() && GrewFrom(E, zero)
      ensures arm.None? ==> r.Success? && A.None? && E == [Lab(Local(curfunc, zero))]
      ensures r.Success? && arm.Some? ==>
        var end := Local(curfunc, old(nlabels));
        A.Some? && old(nlabels) < nlabels &&
        E == [Jump(end), Lab(Local(curfunc, zero))] + ArmOut(A, into) + [Lab(end)] &&
        DefinesWithin(A.value.code, old(nlabels) + 1, nlabels)
      decreases OptSize(arm), 5
    {
      A := None;
      if arm.None? {
        EmitLabel(zero);
        return Success(0), [Lab(Local(curfunc, zero))], A;
      }
      var e := MakeLabel();
      var X1 := [Jump(Local(curfunc, e)), Lab(Local(curfunc, zero))];
      EmitCode(X1, zero);
      E := X1;
      ghost var n1 := nlabels;
      var v;
      ghost var C;
      v, C, A := EmitArm(arm, into);
      Glue(old(out), E, C, zero, nlabels, n1, nlabels);
      E := E + C;
      if v.Failure? { return v, E, A; }
      EmitLabel(e);
      Glue(old(out), E, [Lab(Local(curfunc, e))], zero, nlabels, zero, nlabels);
      E := E + [Lab(Local(curfunc, e))];
      r := Success(0);
    }

    /** emit_ternary: labels ez and nz first, the condition's value, a new
        result register `out`, its truth test, and each present arm
        followed by its copy into `out`; with an else arm a third label
        `end` made after the then arm. */
    method EmitTernary(node: Node)
      returns (r: Result<int>, ghost E: seq<Instr>, ghost C: seq<Instr>, ghost nth: int,
               ghost Then: Option<Arm>, ghost Else: Option<Arm>, ghost end: nat)
      modifies this`out, this`nregs, this`nlabels, this`stackn, this`locals, this`ndecls, this`initmem, this`globalinit
      requires Valid() && node.Ternary?
      ensures Valid() && Grew(E)
      ensures r.Success? ==>
        var n := old(nlabels);
        n + 2 <= end && (Else.Some? ==> end < nlabels) &&
        E == TernaryCode(C, nth, r.value, Local(curfunc, n), Local(curfunc, n + 1), Then, Else, Local(curfunc, end)) &&
        DefinesWithin(C, n + 2, end) &&
        (Then.Some? <==> node.thenArm.Some?) && (Else.Some? <==> node.elseArm.Some?) &&
        (Then.Some? ==> DefinesWithin(Then.value.code, n + 2, end)) &&
        (Else.Some? ==> DefinesWithin(Else.value.code, end + 1, nlabels))
      decreases Size(node), 1
    {
      nth, Then, Else, end := 0, None, None, 0;
      var ez := MakeLabels(2);
      var nz := ez + 1;
      var c;
      c, C := EmitValue(node.cond);
      E := C;
      if c.Failure? { return c, E, C, nth, Then, Else, end; }
      ghost var n1 := nlabels;
      nth := c.value;
      var res := nregs;
      nregs := nregs + 1;
      var pre := TruthTest(c.value, Local(curfunc, ez), Local(curfunc, nz)) + [Lab(Local(curfunc, nz))];
      var v;
      ghost var X;
      v, X, Then, Else, end := EmitBranches(pre, ez, node.thenArm, node.elseArm, Some(res), old(nlabels));
      Glue(old(out), E, X, old(nlabels), n1, old(nlabels), nlabels);
      E := E + X;
      if v.Failure? { return v, E, C, nth, Then, Else, end; }
      Assoc5(C, TruthTest(nth, Local(curfunc, ez), Local(curfunc, nz)), [Lab(Local(curfunc, nz))], ArmCode(Then, res),
        ElseOut(Local(curfunc, ez), Else, Some(res), Local(curfunc, end)));
      DefinesWiden(C, nz + 1, n1, nz + 1, end);
      if Then.Some? { DefinesWiden(Then.value.code, n1, end, nz + 1, end); }
      r := Success(res);
    }

    /** emit_return: with a value, `dest` is set to the caller's view of
        this frame's end (the callee frame start), the value is evaluated
        and its words stored from `dest`, and `ret dest`; without one,
        `ret` of nil. */
    method EmitReturn(node: Node)
      returns (r: Result<int>, ghost E: seq<Instr>, ghost V: seq<Instr>, ghost v: int)
      modifies this`out, this`nregs, this`nlabels, this`stackn, this`locals, this`ndecls, this`initmem, this`globalinit
      requires Valid() && node.Return?
      ensures Valid() && Grew(E)
      ensures node.retval.None? ==> r == Success(0) && E == [Nil(0), Ret(0)]
      ensures node.retval.Some? && r.Success? ==>
        r.value == 0 &&
        E == [IntI(0, old(stackn) + BufferExtra), Alu(Add, old(nregs), 2, 0)] + V +
          BaseStores(old(nregs), 0, v, node.retval.value.ty.size) + [Ret(old(nregs))]
      decreases Size(node), 1
    {
      V, v := [], 0;
      if node.retval.None? {
        EmitCode([Nil(0), Ret(0)], nlabels);
        E := [Nil(0), Ret(0)];
        return Success(0), E, V, v;
      }
      var dest := nregs;
      nregs := nregs + 1;
      var X1 := [IntI(0, stackn + BufferExtra), Alu(Add, dest, 2, 0)];
      EmitCode(X1, nlabels);
      E := X1;
      ghost var n1 := nlabels;
      var regno;
      assert OptSize(node.retval) == Size(node.retval.value);
      regno, V := EmitValue(node.retval.value);
      Glue(old(out), E, V, old(nlabels), n1, n1, nlabels);
      E := E + V;
      if regno.Failure? { return regno, E, V, v; }
      v := regno.value;
      ghost var before := out;
      EmitBaseStores(dest, 0, regno.value, node.retval.value.ty.size);
      Emit(Ret(dest));
      ghost var X2 := BaseStores(dest, 0, v, node.retval.value.ty.size) + [Ret(dest)];
      AppendAssoc(before, BaseStores(dest, 0, v, node.retval.value.ty.size), [Ret(dest)]);
      BaseStoresLabFree(dest, 0, v, node.retval.value.ty.size);
      LabFreeDefines(X2, nlabels, nlabels);
      Glue(old(out), E, X2, old(nlabels), nlabels, nlabels, nlabels);
      E := E + X2;
      r := Success(0);
    }

    // -------------------------------------------------------------------
    // Variables (emit_local_store, emit_lvar, emit_gvar, declarations)
    // -------------------------------------------------------------------

    /** emit_local_store: evaluate `node`, then store its words at frame
        offset `where` and on. */
    method EmitLocalStore(where: int, node: Node)
      returns (r: Result<int>, ghost E: seq<Instr>, ghost V: seq<Instr>)
      modifies this`out, this`nregs, this`nlabels, this`stackn, this`locals, this`ndecls, this`initmem, this`globalinit
      requires Valid()
      ensures Valid() && Grew(E)
      ensures r.Success? ==> E == V + BaseStores(2, where, r.value, node.ty.size)
      decreases Size(node), 5
    {
      var v;
      v, V := EmitValue(node);
      E := V;
      if v.Failure? { return v, E, V; }
      EmitBaseStores(2, where, v.value, node.ty.size);
      ghost var X := BaseStores(2, where, v.value, node.ty.size);
      BaseStoresLabFree(2, where, v.value, node.ty.size);
      LabFreeDefines(X, nlabels, nlabels);
      Glue(old(out), E, X, old(nlabels), nlabels, nlabels, nlabels);
      E := E + X;
      r := v;
    }

    /** The initializer loops of emit_lvar and of a declaration: each
        element's value is evaluated and stored at frame offset `base` plus
        the element's offset, in order (`InitsCode`). An element that is not
        an initializer is an error. */
    method EmitInits(base: int, inits: seq<Node>)
      returns (r: Result<int>, ghost E: seq<Instr>, ghost Vs: seq<seq<Instr>>, ghost regs: seq<int>)
      modifies this`out, this`nregs, this`nlabels, this`stackn, this`locals, this`ndecls, this`initmem, this`globalinit
      requires Valid()
      ensures Valid() && Grew(E)
      ensures r.Success? ==>
        r.value == 0 && (forall i :: 0 <= i < |inits| ==> inits[i].Init?) &&
        |Vs| == |regs| == |inits| && E == InitsCode(base, inits, Vs, regs)
      decreases NodesSize(inits), 5
    {
      E, Vs, regs := [], [], [];
      var i := 0;
      while i < |inits|
        invariant 0 <= i <= |inits| && Valid() && Grew(E)
        invariant forall j :: 0 <= j < i ==> inits[j].Init?
        invariant |Vs| == |regs| == i && E == InitsCode(base, inits[..i], Vs, regs)
      {
        if !inits[i].Init? {
          return Failure("initializer element is not an initializer"), E, Vs, regs;
        }
        NodesSizeElem(inits, i);
        ghost var n1 := nlabels;
        var v;
        ghost var S, V;
        v, S, V := EmitLocalStore(base + inits[i].initoff, inits[i].initval);
        Glue(old(out), E, S, old(nlabels), n1, n1, nlabels);
        if v.Failure? { return v, E + S, Vs, regs; }
        InitsSnoc(base, inits, Vs, regs, i, V, v.value, E, S);
        E, Vs, regs := E + S, Vs + [V], regs + [v.value];
        i := i + 1;
      }
      assert inits[..i] == inits;
      r := Success(0);
    }

    /** A new run of `size` registers loaded word by word from frame offset `off`. */
    method EmitFrameLoad(off: int, size: nat) returns (ret: int)
      modifies this`out, this`nregs
      requires Valid()
      ensures Valid() && ret == old(nregs) && old(nregs) <= nregs
      ensures out == old(out) + AddrLoads(2, off, ret, size, ret + size)
      ensures DefinesWithin(AddrLoads(2, off, ret, size, ret + size), nlabels, nlabels)
    {
      ret := nregs;
      nregs := nregs + size;
      EmitAddrLoads(2, off, ret, size);
      AddrLoadsLabFree(2, off, ret, size, ret + size);
      LabFreeDefines(AddrLoads(2, off, ret, size, ret + size), nlabels, nlabels);
    }

    /** emit_lvar: the variable's initializers, if any, then a new run of
        `size` registers loaded word by word from its frame offset. */
    method EmitLvar(node: Node) returns (r: Result<int>, ghost E: seq<Instr>, ghost I: seq<Instr>, ret: int)
      modifies this`out, this`nregs, this`nlabels, this`stackn, this`locals, this`ndecls, this`initmem, this`globalinit
      requires Valid() && node.LVar?
      ensures Valid() && Grew(E)
      ensures !node.hasInit ==> r.Success? && I == [] && ret == old(nregs)
      ensures r.Success? ==>
        r.value == ret &&
        E == I + AddrLoads(2, Lookup(old(locals), node.varname), ret, node.ty.size, ret + node.ty.size)
      ensures node.hasInit && r.Success? ==>
        var inits := node.lvarinit;
        (forall i :: 0 <= i < |inits| ==> inits[i].Init?) &&
        exists Vs, regs :: IsInitsCode(I, Lookup(old(locals), node.varname), inits, Vs, regs)
      ensures AccessEmitted(node, r, E)
      decreases Size(node), 1
    {
      var reg := Lookup(locals, node.varname);
      I := [];
      ghost var Vs: seq<seq<Instr>>, regs: seq<int> := [], [];
      if node.hasInit {
        var v;
        v, I, Vs, regs := EmitInits(reg, node.lvarinit);
        if v.Failure? { return v, I, I, 0; }
        assert IsInitsCode(I, reg, node.lvarinit, Vs, regs);
      }
      ret := EmitFrameLoad(reg, node.ty.size);
      ghost var X := AddrLoads(2, reg, ret, node.ty.size, ret + node.ty.size);
      Glue(old(out), I, X, old(nlabels), nlabels, nlabels, nlabels);
      E := I + X;
      r := Success(ret);
      if !node.hasInit {
        assert E == X;
      }
    }

    /** A declaration inside a function: the name is bound to the current
        frame size, the frame grows by the variable's size, and the
        initializers are stored. An initializer may itself declare (and
        rebind) names, so with initializers the binding is stated exactly
        when their code declares nothing, and the growth as a lower bound. */
    method EmitDecl(node: Node) returns (r: Result<int>, ghost E: seq<Instr>)
      modifies this`out, this`nregs, this`nlabels, this`stackn, this`locals, this`ndecls, this`initmem, this`globalinit
      requires Valid() && node.Decl?
      ensures Valid() && Grew(E)
      ensures r.Success? ==> r.value == 0
      ensures !node.hasInit ==>
        r == Success(0) && E == [] && nregs == old(nregs) && nlabels == old(nlabels) &&
        locals == old(locals)[node.declname := old(stackn)] && stackn == old(stackn) + node.declty.size &&
        initmem == old(initmem) && globalinit == old(globalinit)
      ensures node.hasInit ==>
        old(stackn) + node.declty.size <= stackn && node.declname in locals &&
        (ndecls == old(ndecls) + 1 ==>
          locals == old(locals)[node.declname := old(stackn)] && stackn == old(stackn) + node.declty.size)
      ensures node.hasInit && r.Success? ==>
        var inits := node.declinit;
        (forall i :: 0 <= i < |inits| ==> inits[i].Init?) &&
        exists Vs, regs :: IsInitsCode(E, old(stackn), inits, Vs, regs)
      decreases Size(node), 1
    {
      var n := stackn;
      locals := locals[node.declname := n];
      stackn := stackn + node.declty.size;
      ndecls := ndecls + 1;
      E := [];
      if node.hasInit {
        var v;
        ghost var Vs, regs;
        v, E, Vs, regs := EmitInits(n, node.declinit);
        if v.Failure? { return v, E; }
        assert IsInitsCode(E, n, node.declinit, Vs, regs);
      }
      r := Success(0);
    }

    // -------------------------------------------------------------------
    // Addresses, conversions, dereferences
    // -------------------------------------------------------------------

    /** The loop at the head of emit_addr: struct references, conversions
        and casts are stripped in any order, adding up the field offsets. */
    static method StripAddr(op: Node) returns (t: Node, off: int)
      ensures t == AddrBase(op) && off == AddrOffset(op) && Size(t) <= Size(op)
      ensures !t.StructRef? && !t.Conv? && !t.Cast?
    {
      off := 0;
      t := op;
      while t.StructRef? || t.Conv? || t.Cast?
        invariant off + AddrOffset(t) == AddrOffset(op) && AddrBase(t) == AddrBase(op) && Size(t) <= Size(op)
        decreases Size(t)
      {
        if t.StructRef? {
          off := off + t.fieldOffset;
          t := t.struc;
        } else {
          t := t.operand;
        }
      }
    }

    /** emit_addr: struct references, conversions and casts on top are
        stripped, adding up the field offsets; then the address of the
        dereferenced pointer plus the offset, of the local (frame pointer
        plus its offset plus the offset), of the global (its address plus
        the offset), or of the function. Anything else is an error. */
    method EmitAddr(op: Node) returns (r: Result<int>, ghost E: seq<Instr>, ghost A: seq<Instr>, ghost first: int)
      modifies this`out, this`nregs, this`nlabels, this`stackn, this`locals, this`ndecls, this`initmem, this`globalinit
      requires Valid()
      ensures Valid() && Grew(E)
      ensures r.Success? ==> r.value == old(nregs)
      ensures var b := AddrBase(op); var off := AddrOffset(op); var ret := old(nregs);
        (r.Success? ==> b.Deref? || b.LVar? || b.GVar? || b.FuncDesg?) &&
        (r.Success? && b.Deref? ==> E == A + [IntI(ret, off), Alu(Add, ret, ret, first)]) &&
        (b.LVar? ==> r.Success? && E == [IntI(ret, Lookup(old(locals), b.varname) + off), Alu(Add, ret, ret, 2)]) &&
        (b.GVar? ==> r.Success? && E == [IntI(ret, Lookup(globals, b.varname) + off)]) &&
        (b.FuncDesg? ==> r.Success? && E == [AddrFunc(ret, b.fname)])
      decreases Size(op), 4
    {
      E, A, first := [], [], 0;
      var t, off := StripAddr(op);
      if t.Deref? {
        r, E, A, first := EmitAddrDeref(t.operand, off);
      } else {
        r, E := EmitAddrLeaf(t, off);
      }
    }

    /** The cases of emit_addr that need no code for a subexpression: the
        address of a local, a global or a function in a new register. */
    method EmitAddrLeaf(t: Node, off: int) returns (r: Result<int>, ghost E: seq<Instr>)
      modifies this`out, this`nregs
      requires Valid()
      ensures Valid() && old(nregs) <= nregs && DefinesWithin(E, nlabels, nlabels)
      ensures out == old(out) + E
      ensures r.Success? <==> t.LVar? || t.GVar? || t.FuncDesg?
      ensures r.Success? ==> r.value == old(nregs)
      ensures var ret := old(nregs);
        (t.LVar? ==> E == [IntI(ret, Lookup(locals, t.varname) + off), Alu(Add, ret, ret, 2)]) &&
        (t.GVar? ==> E == [IntI(ret, Lookup(globals, t.varname) + off)]) &&
        (t.FuncDesg? ==> E == [AddrFunc(ret, t.fname)])
    {
      E := [];
      var ret := nregs;
      if t.LVar? {
        nregs := nregs + 1;
        var local := Lookup(locals, t.varname);
        EmitCode([IntI(ret, local + off), Alu(Add, ret, ret, 2)], nlabels);
        E := [IntI(ret, local + off), Alu(Add, ret, ret, 2)];
      } else if t.GVar? {
        nregs := nregs + 1;
        var loc := Lookup(globals, t.varname);
        Emit(IntI(ret, loc + off));
        E := [IntI(ret, loc + off)];
      } else if t.FuncDesg? {
        nregs := nregs + 1;
        Emit(AddrFunc(ret, t.fname));
        E := [AddrFunc(ret, t.fname)];
      } else {
        return Failure("cannot handle addr: `&` operator is bad expr"), E;
      }
      r := Success(ret);
    }

    /** The dereference case of emit_addr: a new register, the pointer's
        value, then the pointer plus the offset into the new register. */
    method EmitAddrDeref(ptr: Node, off: int) returns (r: Result<int>, ghost E: seq<Instr>, ghost A: seq<Instr>, ghost first: int)
      modifies this`out, this`nregs, this`nlabels, this`stackn, this`locals, this`ndecls, this`initmem, this`globalinit
      requires Valid()
      ensures Valid() && Grew(E)
      ensures r.Success? ==> r.value == old(nregs) && E == A + [IntI(old(nregs), off), Alu(Add, old(nregs), old(nregs), first)]
      decreases Size(ptr), 4
    {
      first := 0;
      var ret := nregs;
      nregs := nregs + 1;
      var v;
      v, A := EmitExpr(ptr);
      E := A;
      if v.Failure? { return v, E, A, first; }
      first := v.value;
      var X := [IntI(ret, off), Alu(Add, ret, ret, v.value)];
      EmitCode(X, nlabels);
      Glue(old(out), E, X, old(nlabels), nlabels, nlabels, nlabels);
      E := E + X;
      r := Success(ret);
    }

    /** emit_conv (also for casts): an array variable converted to a
        pointer is its address; anything else is its operand's value, as
        the type conversion itself emits nothing. */
    method EmitConv(node: Node) returns (r: Result<int>, ghost E: seq<Instr>)
      modifies this`out, this`nregs, this`nlabels, this`stackn, this`locals, this`ndecls, this`initmem, this`globalinit
      requires Valid() && (node.Conv? || node.Cast?)
      ensures Valid() && Grew(E)
      ensures var o := node.operand;
        o.ty.kind == KArray && node.ty.kind == KPtr && (o.LVar? || o.GVar?) ==>
        r == Success(old(nregs)) &&
        E == [IntI(old(nregs), (if o.LVar? then Lookup(old(locals), o.varname) else Lookup(globals, o.varname)))] +
          (if o.LVar? then [Alu(Add, old(nregs), old(nregs), 2)] else [])
      ensures ConvEmitted(node.ty, node.operand, r, E)
      decreases Size(node), 1
    {
      var o := node.operand;
      if o.ty.kind == KArray && node.ty.kind == KPtr && (o.LVar? || o.GVar?) {
        ghost var A, f;
        r, E, A, f := EmitAddr(o);
        assert AddrBase(o) == o && AddrOffset(o) == 0;
      } else {
        r, E := EmitExpr(o);
      }
    }

    /** emit_struct_ref: the field lives `fieldOffset` registers past the
        start of the structure's registers. */
    method EmitStructRef(node: Node) returns (r: Result<int>, ghost E: seq<Instr>, ghost v: int)
      modifies this`out, this`nregs, this`nlabels, this`stackn, this`locals, this`ndecls, this`initmem, this`globalinit
      requires Valid() && node.StructRef?
      ensures Valid() && Grew(E)
      ensures r.Success? ==> r.value == v + node.fieldOffset
      ensures r.Success? ==> Emitted(node.struc, Success(r.value - node.fieldOffset), E)
      decreases Size(node), 1
    {
      var s;
      s, E := EmitExpr(node.struc);
      v := 0;
      if s.Failure? { return s, E, v; }
      v := s.value;
      r := Success(s.value + node.fieldOffset);
      assert Success(r.value - node.fieldOffset) == s;
    }

    /** emit_deref: a new run of `size` registers, the pointer's value,
        then each word loaded from the pointer plus its index. */
    method EmitDeref(node: Node) returns (r: Result<int>, ghost E: seq<Instr>, ghost A: seq<Instr>, ghost from: int)
      modifies this`out, this`nregs, this`nlabels, this`stackn, this`locals, this`ndecls, this`initmem, this`globalinit
      requires Valid() && node.Deref?
      ensures Valid() && Grew(E)
      ensures r.Success? ==> r.value == old(nregs) && E == A + BaseLoads(from, 0, old(nregs), node.ty.size)
      decreases Size(node), 1
    {
      from := 0;
      var res := nregs;
      nregs := nregs + node.ty.size;
      var v;
      v, A := EmitValue(node.operand);
      E := A;
      if v.Failure? { return v, E, A, from; }
      from := v.value;
      EmitBaseLoads(v.value, 0, res, node.ty.size);
      ghost var X := BaseLoads(from, 0, res, node.ty.size);
      BaseLoadsLabFree(from, 0, res, node.ty.size);
      LabFreeDefines(X, nlabels, nlabels);
      Glue(old(out), E, X, old(nlabels), nlabels, nlabels, nlabels);
      E := E + X;
      r := Success(res);
    }

    /** Three new labels and a new register holding the negation of `reg`. */
    method EmitNotTail(reg: int) returns (ret: int)
      modifies this`out, this`nregs, this`nlabels
      requires Valid()
      ensures Valid() && ret == old(nregs) && old(nregs) < nregs && nlabels == old(nlabels) + 3
      ensures out == old(out) + NotTail(reg, ret, Local(curfunc, old(nlabels)), Local(curfunc, old(nlabels) + 1), Local(curfunc, old(nlabels) + 2))
      ensures DefinesWithin(NotTail(reg, ret, Local(curfunc, old(nlabels)), Local(curfunc, old(nlabels) + 1), Local(curfunc, old(nlabels) + 2)), old(nlabels), nlabels)
    {
      var zero := MakeLabels(3);
      ret := nregs;
      nregs := nregs + 1;
      var X := NotTail(reg, ret, Local(curfunc, zero), Local(curfunc, zero + 1), Local(curfunc, zero + 2));
      NotTailDefines(reg, ret, curfunc, zero, zero, nlabels);
      EmitCode(X, zero);
    }

    /** `!x`: the operand, then three new labels and `NotTail` into a new
        register. */
    method EmitNot(node: Node) returns (r: Result<int>, ghost E: seq<Instr>, ghost A: seq<Instr>, ghost v: int, ghost n: nat)
      modifies this`out, this`nregs, this`nlabels, this`stackn, this`locals, this`ndecls, this`initmem, this`globalinit
      requires Valid() && node.Not?
      ensures Valid() && Grew(E)
      ensures r.Success? ==>
        E == A + NotTail(v, r.value, Local(curfunc, n), Local(curfunc, n + 1), Local(curfunc, n + 2)) &&
        n + 3 == nlabels && DefinesWithin(A, old(nlabels), n)
      decreases Size(node), 1
    {
      v, n := 0, 0;
      var reg;
      reg, A := EmitValue(node.operand);
      E := A;
      if reg.Failure? { return reg, E, A, v, n; }
      v, n := reg.value, nlabels;
      var ret := EmitNotTail(reg.value);
      ghost var X := NotTail(v, ret, Local(curfunc, n), Local(curfunc, n + 1), Local(curfunc, n + 2));
      Glue(old(out), E, X, old(nlabels), n, n, nlabels);
      E := E + X;
      r := Success(ret);
    }

    /** `~x`: the operand, then `BitNotTail` into a new register. */
    method EmitBitNot(node: Node) returns (r: Result<int>, ghost E: seq<Instr>, ghost A: seq<Instr>, ghost v: int)
      modifies this`out, this`nregs, this`nlabels, this`stackn, this`locals, this`ndecls, this`initmem, this`globalinit
      requires Valid() && node.BitNot?
      ensures Valid() && Grew(E)
      ensures r.Success? ==> E == A + BitNotTail(v, r.value)
      decreases Size(node), 1
    {
      v := 0;
      var reg;
      reg, A := EmitValue(node.operand);
      E := A;
      if reg.Failure? { return reg, E, A, v; }
      v := reg.value;
      var ret := nregs;
      nregs := nregs + 1;
      var X := BitNotTail(reg.value, ret);
      LabFreeDefines(X, nlabels, nlabels);
      EmitCode(X, nlabels);
      Glue(old(out), E, X, old(nlabels), nlabels, nlabels, nlabels);
      E := E + X;
      r := Success(ret);
    }

    /** A compound statement: its statements in order, statement i
        appending `Ss[i]` and answering `rs[i]`; its value is the last
        one's (0 when empty). */
    method EmitCompound(node: Node)
      returns (r: Result<int>, ghost E: seq<Instr>, ghost Ss: seq<seq<Instr>>, ghost rs: seq<int>)
      modifies this`out, this`nregs, this`nlabels, this`stackn, this`locals, this`ndecls, this`initmem, this`globalinit
      requires Valid() && node.Compound?
      ensures Valid() && Grew(E)
      ensures |node.stmts| == 0 ==> r == Success(0) && E == []
      ensures r.Success? ==>
        |Ss| == |rs| == |node.stmts| && E == Concat(Ss) &&
        r.value == (if |rs| == 0 then 0 else rs[|rs| - 1])
      decreases Size(node), 1
    {
      E, Ss, rs := [], [], [];
      var ret := 0;
      var i := 0;
      while i < |node.stmts|
        invariant 0 <= i <= |node.stmts| && Valid() && Grew(E)
        invariant |Ss| == |rs| == i && E == Concat(Ss) && ret == (if i == 0 then 0 else rs[i - 1])
      {
        NodesSizeElem(node.stmts, i);
        ghost var n1 := nlabels;
        var v;
        ghost var S;
        v, S := EmitValue(node.stmts[i]);
        Glue(old(out), E, S, old(nlabels), n1, n1, nlabels);
        if v.Failure? { return v, E + S, Ss, rs; }
        assert (Ss + [S])[..i] == Ss;
        E, Ss, rs := E + S, Ss + [S], rs + [v.value];
        ret := v.value;
        i := i + 1;
      }
      r := Success(ret);
    }

    // -------------------------------------------------------------------
    // The expression switch (emit_expr)
    // -------------------------------------------------------------------

    /** emit_expr, for a caller that relies only on the output's growth. */
    method EmitValue(node: Node) returns (r: Result<int>, ghost E: seq<Instr>)
      modifies this`out, this`nregs, this`nlabels, this`stackn, this`locals, this`ndecls, this`initmem, this`globalinit
      requires Valid()
      ensures Valid() && Grew(E)
      decreases Size(node), 4
    {
      r, E := EmitExpr(node);
    }

    /** emit_expr: dispatch on the node's kind (the statement kinds, the
        accesses and the unary operators, assignments and conditional
        expressions are dispatched by `EmitStmt`, `EmitAccess` and
        `EmitOperation`). A shift the switch does not list, a function
        designator, a function definition or a bare initializer element is
        an error. Every emitter keeps the generator valid, extends the
        output by code defining only labels it made, and appends what
        `Emitted` states for the node's kind. */
    method EmitExpr(node: Node) returns (r: Result<int>, ghost E: seq<Instr>)
      modifies this`out, this`nregs, this`nlabels, this`stackn, this`locals, this`ndecls, this`initmem, this`globalinit
      requires Valid()
      ensures Valid() && Grew(E) && Emitted(node, r, E)
      decreases Size(node), 3
    {
      E := [];
      ghost var A: seq<Instr>, B: seq<Instr>, a: int, b: int;
      if IsStmt(node) {
        r, E := EmitStmt(node);
      } else if node.AddrOf? || node.Deref? || node.Literal? || node.GVar? || node.LVar? {
        r, E := EmitAccess(node);
      } else if node.Not? || node.BitNot? || node.Assign? || node.Ternary? {
        r, E := EmitOperation(node);
      } else {
        match node {
          case FuncPtrCall(_, _, _, _, _) =>
            ghost var q: int;
            r, E, A, B, a, q, b := EmitFuncPtrCall(node);
          case FunCall(_, _, _, _, _) =>
            r, E, A, a, b := EmitFuncCall(node);
          case Conv(_, _) =>
            r, E := EmitConv(node);
          case Cast(_, _) =>
            r, E := EmitConv(node);
          case StructRef(_, _, _) =>
            r, E, a := EmitStructRef(node);
          case Binary(_, op, _, _) =>
            if op.Shl? || op.Shr? {
              r := Failure("node: shift operator outside emit_binop's reach");
            } else {
              ghost var ret: int, n: nat;
              r, E, A, B, a, b, ret, n := EmitBinop(node);
            }
          case FuncDesg(_, _) =>
            r := Failure("node: function designator");
          case FuncDef(_, _, _, _) =>
            r := Failure("node: function definition");
          case Init(_, _, _) =>
            r := Failure("node: initializer element");
        }
      }
    }

    /** The accesses of emit_expr: addresses, dereferences, literals, and
        global and local variables. */
    method EmitAccess(node: Node) returns (r: Result<int>, ghost E: seq<Instr>)
      modifies this`out, this`nregs, this`nlabels, this`stackn, this`locals, this`ndecls, this`initmem, this`globalinit
      requires Valid() && (node.AddrOf? || node.Deref? || node.Literal? || node.GVar? || node.LVar?)
      ensures Valid() && Grew(E) && AccessEmitted(node, r, E)
      decreases Size(node), 2
    {
      ghost var A: seq<Instr>, a: int;
      match node {
        case AddrOf(_, operand) =>
          r, E, A, a := EmitAddr(operand);
        case Deref(_, _) =>
          r, E, A, a := EmitDeref(node);
        case Literal(_, _, _) =>
          r, E := EmitLiteral(node);
        case GVar(_, _) =>
          var ret := EmitGvar(node);
          E := ConstLoads(Lookup(globals, node.varname), ret, node.ty.size);
          ConstLoadsLabFree(Lookup(globals, node.varname), ret, node.ty.size);
          LabFreeDefines(E, nlabels, nlabels);
          r := Success(ret);
        case LVar(_, _, _, _) =>
          var ret;
          r, E, A, ret := EmitLvar(node);
      }
    }

    /** `!`, `~`, assignments and conditional expressions, as emit_expr
        dispatches them. */
    method EmitOperation(node: Node) returns (r: Result<int>, ghost E: seq<Instr>)
      modifies this`out, this`nregs, this`nlabels, this`stackn, this`locals, this`ndecls, this`initmem, this`globalinit
      requires Valid() && (node.Not? || node.BitNot? || node.Assign? || node.Ternary?)
      ensures Valid() && Grew(E) && OpEmitted(node, r, E)
      decreases Size(node), 2
    {
      ghost var A: seq<Instr>, B: seq<Instr>, C: seq<Instr>, a: int, b: int, x: nat;
      ghost var t1: Option<Arm>, t2: Option<Arm>;
      match node {
        case Ternary(_, _, _, _) =>
          r, E, C, a, t1, t2, x := EmitTernary(node);
        case Assign(_, left, right) =>
          r, E, A, B, a, b := EmitAssignTo(right, left);
        case Not(_, _) =>
          r, E, A, a, x := EmitNot(node);
        case BitNot(_, _) =>
          r, E, A, a := EmitBitNot(node);
      }
    }

    /** The statement kinds of emit_expr: computed and plain `goto` and
        labels (which use the front end's own label names), `if`,
        declarations, `return` and compound statements. */
    method EmitStmt(node: Node) returns (r: Result<int>, ghost E: seq<Instr>)
      modifies this`out, this`nregs, this`nlabels, this`stackn, this`locals, this`ndecls, this`initmem, this`globalinit
      requires Valid()
      requires IsStmt(node)
      ensures Valid() && Grew(E) && Emitted(node, r, E)
      ensures node.Goto? ==> r == Success(0) && E == [Jump(User(curfunc, node.newlabel))]
      decreases Size(node), 2
    {
      E := [];
      ghost var A: seq<Instr>, B: seq<Instr>, a: int, o: Option<seq<Instr>>, x: nat;
      if node.ComputedGoto? {
        var reg;
        reg, A := EmitValue(node.operand);
        E := A;
        if reg.Failure? { return reg, E; }
        Emit(DJump(reg.value));
        Glue(old(out), E, [DJump(reg.value)], old(nlabels), nlabels, nlabels, nlabels);
        E := E + [DJump(reg.value)];
        r := Success(0);
      } else if node.LabelAddr? {
        var ret := nregs;
        nregs := nregs + 1;
        Emit(AddrLabel(ret, User(curfunc, node.newlabel)));
        E := [AddrLabel(ret, User(curfunc, node.newlabel))];
        r := Success(ret);
      } else if node.Goto? {
        Emit(Jump(User(curfunc, node.newlabel)));
        E := [Jump(User(curfunc, node.newlabel))];
        r := Success(0);
      } else if node.LabelStmt? {
        if node.optlabel.Some? {
          Emit(Lab(User(curfunc, node.optlabel.value)));
          E := [Lab(User(curfunc, node.optlabel.value))];
        }
        r := Success(0);
      } else if node.If? {
        r, E, A, B, o, x := EmitIf(node);
      } else if node.Decl? {
        r, E := EmitDecl(node);
      } else if node.Return? {
        r, E, A, a := EmitReturn(node);
        if node.retval.Some? && r.Success? {
          assert E == ReturnCode(old(stackn) + BufferExtra, old(nregs), A, a, node.retval.value.ty.size);
        }
      } else {
        ghost var Ss: seq<seq<Instr>>, rs: seq<int>;
        r, E, Ss, rs := EmitCompound(node);
      }
    }

    // -------------------------------------------------------------------
    // Top level (emit_func_prologue, emit_toplevel)
    // -------------------------------------------------------------------

    /** The second loop of the trampoline: each queued global initializer's
        value is evaluated and its words stored from its address. */
    method EmitInitVals(ivs: seq<InitVal>)
      returns (r: Result<int>, ghost E: seq<Instr>, ghost Vs: seq<seq<Instr>>, ghost regs: seq<int>)
      modifies this`out, this`nregs, this`nlabels, this`stackn, this`locals, this`ndecls, this`initmem, this`globalinit
      requires Valid()
      ensures Valid() && Grew(E)
      ensures r.Success? ==> |Vs| == |regs| == |ivs| && E == InitValsCode(ivs, Vs, regs)
    {
      E, Vs, regs := [], [], [];
      var i := 0;
      while i < |ivs|
        invariant 0 <= i <= |ivs| && Valid() && Grew(E)
        invariant |Vs| == |regs| == i && E == InitValsCode(ivs[..i], Vs, regs)
      {
        ghost var n1 := nlabels;
        var v;
        ghost var A;
        v, A := EmitValue(ivs[i].val);
        Glue(old(out), E, A, old(nlabels), n1, n1, nlabels);
        if v.Failure? { return v, E + A, Vs, regs; }
        EmitConstStores(ivs[i].addr, v.value, ivs[i].val.ty.size);
        ghost var S := ConstStores(ivs[i].addr, v.value, ivs[i].val.ty.size);
        ConstStoresLabFree(ivs[i].addr, v.value, ivs[i].val.ty.size);
        LabFreeDefines(S, nlabels, nlabels);
        Glue(old(out), E + A, S, old(nlabels), nlabels, nlabels, nlabels);
        InitValsSnoc(ivs, Vs, regs, i, A, v.value);
        E, Vs, regs := E + A + S, Vs + [A], regs + [v.value];
        i := i + 1;
      }
      assert ivs[..i] == ivs;
      r := Success(0);
    }

    /** The start of the trampoline: `EntryHead`, then the queued words
        cleared, with the register counter set to 5. */
    method EmitEntryHead()
      modifies this`out, this`nregs
      requires Valid()
      ensures Valid() && nregs == 5
      ensures out == old(out) + (EntryHead() + PokesCode(ZeroPokes(globalzero)))
      ensures DefinesWithin(EntryHead() + PokesCode(ZeroPokes(globalzero)), nlabels, nlabels)
    {
      PokesLabFree(ZeroPokes(globalzero));
      LabFreeDefines(PokesCode(ZeroPokes(globalzero)), nlabels, nlabels);
      DefinesCat(EntryHead(), PokesCode(ZeroPokes(globalzero)), nlabels, nlabels);
      EmitCode(EntryHead(), nlabels);
      nregs := 5;
      EmitPokes(ZeroPokes(globalzero));
      AppendAssoc(old(out), EntryHead(), PokesCode(ZeroPokes(globalzero)));
    }

    /** The end of the trampoline: the string-literal words, then `EntryTail`. */
    method EmitEntryTail(fname: string)
      modifies this`out
      requires Valid()
      ensures Valid()
      ensures out == old(out) + PokesCode(globalinit) + EntryTail(initmem, fname)
      ensures DefinesWithin(PokesCode(globalinit) + EntryTail(initmem, fname), nlabels, nlabels)
    {
      PokesLabFree(globalinit);
      LabFreeDefines(PokesCode(globalinit), nlabels, nlabels);
      DefinesCat(PokesCode(globalinit), EntryTail(initmem, fname), nlabels, nlabels);
      EmitPokes(globalinit);
      EmitCode(EntryTail(initmem, fname), nlabels);
    }

    /** The `_start` part of emit_func_prologue: the entry block, the
        queued words cleared (r2 holds 0), the global initializers with the
        register counter at 5, the string-literal words, then `EntryTail`,
        whose frame starts `StackGap` words past the globals as they stand
        once the initializers are emitted. */
    method EmitTrampoline(fname: string)
      returns (r: Result<int>, ghost E: seq<Instr>, ghost V: seq<Instr>, ghost Vs: seq<seq<Instr>>, ghost regs: seq<int>)
      modifies this`out, this`nregs, this`nlabels, this`stackn, this`locals, this`ndecls, this`initmem, this`globalinit
      requires Valid()
      ensures Valid() && Appended(E)
      ensures r.Success? ==> |Vs| == |regs| == |globalinitval| && V == InitValsCode(globalinitval, Vs, regs)
      ensures r.Success? ==> E == Trampoline(globalzero, V, globalinit, initmem, fname)
    {
      EmitEntryHead();
      ghost var H := EntryHead() + PokesCode(ZeroPokes(globalzero));
      ghost var n1 := nlabels;
      ghost var R;
      r, R, V, Vs, regs := EmitTrampolineRest(fname);
      Glue(old(out), H, R, old(nlabels), n1, n1, nlabels);
      E := H + R;
      if r.Success? {
        AppendAssoc(EntryHead() + PokesCode(ZeroPokes(globalzero)), V + PokesCode(globalinit), EntryTail(initmem, fname));
        AppendAssoc(EntryHead() + PokesCode(ZeroPokes(globalzero)), V, PokesCode(globalinit));
      }
    }

    /** The trampoline after the cleared words: the global initializers,
        the string-literal words, then `EntryTail`. */
    method EmitTrampolineRest(fname: string)
      returns (r: Result<int>, ghost E: seq<Instr>, ghost V: seq<Instr>, ghost Vs: seq<seq<Instr>>, ghost regs: seq<int>)
      modifies this`out, this`nregs, this`nlabels, this`stackn, this`locals, this`ndecls, this`initmem, this`globalinit
      requires Valid()
      ensures Valid() && Grew(E)
      ensures r.Success? ==> |Vs| == |regs| == |globalinitval| && V == InitValsCode(globalinitval, Vs, regs)
      ensures r.Success? ==> E == V + PokesCode(globalinit) + EntryTail(initmem, fname)
    {
      r, V, Vs, regs := EmitInitVals(globalinitval);
      E := V;
      if r.Failure? { return; }
      EmitEntryTail(fname);
      ghost var X := PokesCode(globalinit) + EntryTail(initmem, fname);
      Glue(old(out), V, X, old(nlabels), nlabels, nlabels, nlabels);
      AppendAssoc(V, PokesCode(globalinit), EntryTail(initmem, fname));
      E := V + X;
      r := Success(0);
    }

    /** emit_func_prologue: the trampoline when the function is `_start`,
        then a fresh frame of size 0, the function head, the register
        counter at 3, each parameter bound to the frame size so far (which
        grows by its size), 8 more words for a variadic function, and
        `curfunc` set to the function's name. */
    method EmitFuncPrologue(func: Node)
      returns (r: Result<int>, ghost E: seq<Instr>, ghost T: seq<Instr>, ghost V: seq<Instr>, ghost Vs: seq<seq<Instr>>, ghost regs: seq<int>)
      modifies this`out, this`nregs, this`nlabels, this`stackn, this`locals, this`ndecls, this`initmem, this`globalinit, this`curfunc
      requires Valid() && func.FuncDef?
      ensures Valid() && Appended(E)
      ensures func.fname != "_start" ==> r.Success? && T == []
      ensures func.fname == "_start" && r.Success? ==>
        |Vs| == |regs| == |globalinitval| && V == InitValsCode(globalinitval, Vs, regs) &&
        T == Trampoline(globalzero, V, globalinit, initmem, func.fname)
      ensures r.Success? ==>
        E == T + FuncHead(func.fname) && nregs == 3 && curfunc == func.fname &&
        locals == ParamLocals(func.params, map[], 0) &&
        stackn == ParamWords(func.params) + (if func.ty.hasva then 8 else 0)
    {
      T, V, Vs, regs := [], [], [], [];
      if func.fname == "_start" {
        r, T, V, Vs, regs := EmitTrampoline(func.fname);
        if r.Failure? { return r, T, T, V, Vs, regs; }
      }
      ghost var n1 := nlabels;
      EmitFuncHead(func);
      Glue(old(out), T, FuncHead(func.fname), old(nlabels), n1, n1, nlabels);
      E := T + FuncHead(func.fname);
      r := Success(0);
    }

    /** The part of emit_func_prologue every function has: a frame of size
        0, the function head, the register counter at 3, the parameters
        bound by `BindParams`, 8 more words for a variadic function, and
        `curfunc` set to the function's name. */
    method EmitFuncHead(func: Node)
      modifies this`out, this`nregs, this`stackn, this`locals, this`curfunc
      requires Valid() && func.FuncDef?
      ensures Valid() && out == old(out) + FuncHead(func.fname) && DefinesWithin(FuncHead(func.fname), nlabels, nlabels)
      ensures nregs == 3 && curfunc == func.fname && locals == ParamLocals(func.params, map[], 0)
      ensures stackn == ParamWords(func.params) + (if func.ty.hasva then 8 else 0)
    {
      stackn := 0;
      EmitCode(FuncHead(func.fname), nlabels);
      locals := map[];
      nregs := 3;
      BindParams(func.params);
      if func.ty.hasva {
        stackn := stackn + 8;
      }
      curfunc := func.fname;
    }

    /** The parameter loop of emit_func_prologue: each parameter is bound
        to the frame size so far, which then grows by its size. */
    method BindParams(params: seq<Param>)
      modifies this`locals, this`stackn
      ensures locals == ParamLocals(params, old(locals), old(stackn))
      ensures stackn == old(stackn) + ParamWords(params)
    {
      var i := 0;
      while i < |params|
        invariant 0 <= i <= |params|
        invariant ParamLocals(params[i..], locals, stackn) == ParamLocals(params, old(locals), old(stackn))
        invariant stackn + ParamWords(params[i..]) == old(stackn) + ParamWords(params)
      {
        assert params[i..][1..] == params[i + 1..];
        locals := locals[params[i].name := stackn];
        stackn := stackn + params[i].size;
        i := i + 1;
      }
    }

    /** The declaration case of emit_toplevel: the global is bound to the
        next free word and `initmem` moves past its size; with an
        initializer list, each of its words is queued for clearing and each
        element is queued at its offset. */
    method EmitGlobalDecl(v: Node) returns (r: Result<int>)
      modifies this`globals, this`globalsize, this`initmem, this`globalzero, this`globalinitval
      requires Valid() && Allocated() && v.Decl?
      ensures Valid() && Allocated()
      ensures globals == old(globals)[v.declname := old(initmem)] && initmem == old(initmem) + v.declty.size
      ensures globalsize == old(globalsize)[v.declname := v.declty.size]
      ensures forall k :: k in old(globals) ==> old(globals)[k] <= globals[v.declname]
      ensures forall i :: 0 <= i < |old(globalzero)| ==> old(globalzero)[i] < globals[v.declname] + 1
      ensures r.Failure? <==> v.hasInit && exists i :: 0 <= i < |v.declinit| && !v.declinit[i].Init?
      ensures !v.hasInit ==> globalzero == old(globalzero) && globalinitval == old(globalinitval)
      ensures v.hasInit && r.Success? ==>
        globalzero == old(globalzero) + Span(old(initmem), v.declty.size) &&
        globalinitval == old(globalinitval) + QueuedInits(v.declinit, old(initmem))
    {
      var base := initmem;
      BindGlobal(v.declname, v.declty.size);
      if !v.hasInit {
        return Success(0);
      }
      QueueZeros(base, v.declty.size);
      r := QueueInits(base, v.declinit);
    }

    /** The global is bound to a new slot of `size` words at `initmem`,
        which moves past it. */
    method BindGlobal(name: string, size: nat)
      modifies this`globals, this`globalsize, this`initmem
      requires Valid() && Allocated()
      ensures Valid() && Allocated()
      ensures globals == old(globals)[name := old(initmem)] && globalsize == old(globalsize)[name := size]
      ensures initmem == old(initmem) + size
    {
      SlotsGrow(globals, globalsize, initmem, name, size);
      globals := globals[name := initmem];
      globalsize := globalsize[name := size];
      initmem := initmem + size;
    }

    /** The words `base ..` of a slot are queued for clearing. */
    method QueueZeros(base: int, size: nat)
      modifies this`globalzero
      requires Allocated() && FirstGlobal <= base && base + size <= initmem
      ensures Allocated() && globalzero == old(globalzero) + Span(base, size)
    {
      var i := 0;
      while i < size
        invariant 0 <= i <= size && Allocated()
        invariant globalzero == old(globalzero) + Span(base, i)
      {
        assert Span(base, i + 1) == Span(base, i) + [base + i];
        globalzero := globalzero + [base + i];
        i := i + 1;
      }
    }

    /** Each element of a global's initializer list is queued at the
        global's address plus its offset; an element that is not an
        initializer is an error. */
    method QueueInits(base: int, inits: seq<Node>) returns (r: Result<int>)
      modifies this`globalinitval
      ensures r.Failure? <==> exists i :: 0 <= i < |inits| && !inits[i].Init?
      ensures r.Success? ==> globalinitval == old(globalinitval) + QueuedInits(inits, base)
    {
      var j := 0;
      while j < |inits|
        invariant 0 <= j <= |inits| && forall k :: 0 <= k < j ==> inits[k].Init?
        invariant globalinitval == old(globalinitval) + QueuedInits(inits[..j], base)
      {
        var init := inits[j];
        if !init.Init? {
          return Failure("internal error");
        }
        assert QueuedInits(inits[..j + 1], base) == QueuedInits(inits[..j], base) + [InitVal(base + init.initoff, init.initval)];
        globalinitval := globalinitval + [InitVal(base + init.initoff, init.initval)];
        j := j + 1;
      }
      assert inits[..j] == inits;
      r := Success(0);
    }

    /** emit_toplevel: a function is its prologue (after the frame size is
        reset), its body, then `FuncTail`; a declaration is queued by
        `EmitGlobalDecl` and emits nothing; anything else is an error. */
    method EmitToplevel(v: Node) returns (r: Result<int>, ghost E: seq<Instr>, ghost T: seq<Instr>, ghost B: seq<Instr>)
      modifies this`out, this`nregs, this`nlabels, this`stackn, this`locals, this`ndecls, this`initmem, this`globalinit, this`curfunc
      modifies this`globals, this`globalsize, this`globalzero, this`globalinitval
      requires Valid() && Allocated()
      ensures Valid() && Allocated() && Appended(E)
      ensures !v.FuncDef? && !v.Decl? ==> r.Failure? && E == []
      ensures v.Decl? ==> E == [] && globals == old(globals)[v.declname := old(initmem)]
      ensures v.FuncDef? ==> globals == old(globals) && globalzero == old(globalzero) && globalinitval == old(globalinitval)
      ensures v.FuncDef? && r.Success? ==>
        curfunc == v.fname && E == T + FuncHead(v.fname) + B + FuncTail() && (v.fname != "_start" ==> T == [])
    {
      ghost var P := [];
      T, B := [], [];
      if v.FuncDef? {
        stackn := 0;
        var p;
        ghost var V, Vs, regs;
        p, P, T, V, Vs, regs := EmitFuncPrologue(v);
        E := P;
        if p.Failure? { return p, E, T, B; }
        ghost var n1 := nlabels;
        var b;
        b, B := EmitValue(v.body);
        Glue(old(out), P, B, old(nlabels), n1, n1, nlabels);
        E := P + B;
        if b.Failure? { return b, E, T, B; }
        EmitCode(FuncTail(), nlabels);
        Glue(old(out), E, FuncTail(), old(nlabels), nlabels, nlabels, nlabels);
        E := E + FuncTail();
        r := Success(0);
      } else if v.Decl? {
        E := [];
        r := EmitGlobalDecl(v);
      } else {
        E := [];
        r := Failure("internal error");
      }
    }
  }
}
