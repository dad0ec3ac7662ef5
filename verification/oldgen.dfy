/** The older, much smaller MiniVM generator at the top of the repository
    (gen.c). It knows integer literals, function calls, the unsigned
    arithmetic operators and `<`, conversions, `if`/`?:`, `return` and
    compound statements. Its state is the register counter, the current
    function's name and the output; `emitf` rewrites each format before
    printing it.

    The output is modelled as instructions, as for the newer generator;
    only `emitf`'s rewrite of the format text is modelled on strings. */
module OldGen {

  import opened Wrappers
  import opened Machine
  import opened Ast
  import opened Patterns
  import opened Flow
  import opened Lower

  // ---------------------------------------------------------------------
  // emitf: '#' becomes "%%" so that the formatted line shows '%'
  // ---------------------------------------------------------------------

  /** The size of emitf's format buffer. */
  const BufSize := 256

  /** What one format character becomes. */
  function EscapeChar(c: char): string {
    if c == '#' then "%%" else [c]
  }

  /** The format with every `#` doubled into `%%`. */
  function Escape(fmt: string): string {
    if |fmt| == 0 then "" else EscapeChar(fmt[0]) + Escape(fmt[1..])
  }

  /** The number of `#` characters in `s`. */
  function Hashes(s: string): nat {
    if |s| == 0 then 0 else (if s[0] == '#' then 1 else 0) + Hashes(s[1..])
  }

  /** `s` with every `#` replaced by `%`. */
  function HashToPercent(s: string): (r: string)
    ensures |r| == |s|
  {
    if |s| == 0 then "" else [if s[0] == '#' then '%' else s[0]] + HashToPercent(s[1..])
  }

  /** What printf prints for a format whose only conversions are `%%`:
      each `%%` prints one `%`, every other character itself. */
  function Render(s: string): string
    decreases |s|
  {
    if |s| == 0 then ""
    else if 2 <= |s| && s[0] == '%' && s[1] == '%' then "%" + Render(s[2..])
    else [s[0]] + Render(s[1..])
  }

  lemma {:induction false} EscapeAppend(a: string, b: string)
    ensures Escape(a + b) == Escape(a) + Escape(b)
  {
    if |a| > 0 {
      assert (a + b)[1..] == a[1..] + b;
      EscapeAppend(a[1..], b);
    } else {
      assert a + b == b;
    }
  }

  /** Each `#` adds one character to the rewritten format. */
  lemma {:induction false} EscapeLength(s: string)
    ensures |Escape(s)| == |s| + Hashes(s)
  {
    if |s| > 0 { EscapeLength(s[1..]); }
  }

  /** The rewritten format has no `#` left. */
  lemma {:induction false} EscapeNoHash(s: string)
    ensures forall i :: 0 <= i < |Escape(s)| ==> Escape(s)[i] != '#'
  {
    if |s| > 0 {
      EscapeNoHash(s[1..]);
      var e := Escape(s);
      forall i | 0 <= i < |e| ensures e[i] != '#' {
        if i >= |EscapeChar(s[0])| { assert e[i] == Escape(s[1..])[i - |EscapeChar(s[0])|]; }
      }
    }
  }

  /** The point of the rewrite: a format with no `%` of its own prints as
      the format with each `#` shown as `%`. */
  lemma {:induction false} EscapeRender(s: string)
    requires forall i :: 0 <= i < |s| ==> s[i] != '%'
    ensures Render(Escape(s)) == HashToPercent(s)
  {
    if |s| > 0 {
      EscapeRender(s[1..]);
      var rest := Escape(s[1..]);
      if s[0] == '#' {
        assert Escape(s) == "%%" + rest;
        assert ("%%" + rest)[2..] == rest;
      } else {
        assert Escape(s) == [s[0]] + rest;
        assert ([s[0]] + rest)[1..] == rest;
      }
    }
  }

  /** emitf's check holds before every character: fewer than
      `BufSize - 3` bytes are in the buffer when character `k` is read. */
  ghost predicate Fits(fmt: string) {
    forall k :: 0 <= k < |fmt| ==> |Escape(fmt[..k])| < BufSize - 3
  }

  lemma EscapePrefixGrows(fmt: string, j: nat, k: nat)
    requires j <= k <= |fmt|
    ensures |Escape(fmt[..j])| <= |Escape(fmt[..k])|
  {
    assert fmt[..k] == fmt[..j] + fmt[j..k];
    EscapeAppend(fmt[..j], fmt[j..k]);
  }

  /** The check holds throughout exactly when it holds before the last
      character, the buffer only growing. */
  lemma FitsLast(fmt: string)
    requires |fmt| > 0
    ensures Fits(fmt) <==> |Escape(fmt[..|fmt| - 1])| < BufSize - 3
  {
    if |Escape(fmt[..|fmt| - 1])| < BufSize - 3 {
      forall k | 0 <= k < |fmt| ensures |Escape(fmt[..k])| < BufSize - 3 {
        EscapePrefixGrows(fmt, k, |fmt| - 1);
      }
    }
  }

  lemma EscapeSnoc(fmt: string, k: nat)
    requires k < |fmt|
    ensures Escape(fmt[..k + 1]) == Escape(fmt[..k]) + EscapeChar(fmt[k])
  {
    assert fmt[..k + 1] == fmt[..k] + [fmt[k]];
    EscapeAppend(fmt[..k], [fmt[k]]);
    assert Escape([fmt[k]]) == EscapeChar(fmt[k]) + Escape([]);
  }

  /** emitf's copy loop: the rewritten format, or the failed assertion when
      it would not fit. The result always leaves room for the terminating
      NUL. */
  method EscapeFormat(fmt: string) returns (r: Result<string>)
    ensures r.Success? <==> Fits(fmt)
    ensures r.Success? ==> r.value == Escape(fmt) && |r.value| < BufSize
  {
    var buf := new char[BufSize];
    var i := 0;
    var k := 0;
    while k < |fmt|
      invariant 0 <= k <= |fmt| && 0 <= i < BufSize
      invariant buf[..i] == Escape(fmt[..k])
      invariant forall j :: 0 <= j < k ==> |Escape(fmt[..j])| < BufSize - 3
    {
      if !(i < BufSize - 3) {
        return Failure("emitf: format too long");
      }
      EscapeSnoc(fmt, k);
      if fmt[k] == '#' {
        buf[i] := '%';
        buf[i + 1] := '%';
        i := i + 2;
      } else {
        buf[i] := fmt[k];
        i := i + 1;
      }
      k := k + 1;
    }
    buf[i] := '\0';
    assert fmt[..k] == fmt;
    r := Success(buf[..i]);
  }

  // ---------------------------------------------------------------------
  // The operators: unsigned arithmetic and `<`
  // ---------------------------------------------------------------------

  /** The operators emit_binop lowers. */
  predicate OldOp(op: BinOp) {
    op.Plus? || op.Minus? || op.Times? || op.Divide? || op.Modulo? || op.Lt?
  }

  /** The unsigned opcode of an arithmetic operator. */
  function ArithOp(op: BinOp): AluOp
    requires OldOp(op) && !op.Lt?
  {
    match op
    case Plus => UAdd
    case Minus => USub
    case Times => UMul
    case Divide => UDiv
    case Modulo => UMod
  }

  /** What emit_binop appends after the operands' code: one unsigned
      opcode into `ret`, or for `<` the `ublt` with labels `m` (true),
      `m + 1` (false) and `m + 2` (end). */
  function BinopTail(op: BinOp, lhs: int, rhs: int, ret: int, f: string, m: nat): seq<Instr>
    requires OldOp(op)
  {
    if op.Lt? then OldLessCode(lhs, rhs, ret, Local(f, m), Local(f, m + 1), Local(f, m + 2))
    else [Alu(ArithOp(op), ret, lhs, rhs)]
  }

  /** The value of `a op b` for C's `unsigned long` operands. */
  function OldValue(op: BinOp, a: int, b: int): int
    requires OldOp(op) && ((op.Divide? || op.Modulo?) ==> U64(b) != 0)
  {
    match op
    case Plus => U64(a + b)
    case Minus => U64(a - b)
    case Times => U64(a * b)
    case Divide => U64(a) / U64(b)
    case Modulo => U64(a) % U64(b)
    case Lt => if U64(a) < U64(b) then 1 else 0
  }

  /** Labels from `m` on are defined nowhere in code that defines only
      labels below `m`. */
  lemma FreshFrom(P: seq<Instr>, k: int, m: nat, f: string, id: nat)
    requires 0 <= k <= |P| && DefinesWithin(P[..k], 0, m) && m <= id
    ensures NoDefBefore(P, k, Local(f, id))
  {
    forall i | 0 <= i < k && i < |P| ensures P[i] != Lab(Local(f, id)) {
      assert P[..k][i] == P[i];
    }
  }

  /** Run after the operands, emit_binop's tail leaves `lhs op rhs`, as
      unsigned 64-bit words, in `ret` (and a zero divisor stops the VM,
      which the precondition excludes). */
  lemma BinopTailRun(P: seq<Instr>, s: State, op: BinOp, lhs: int, rhs: int, ret: int, f: string, m: nat)
    requires OldOp(op) && At(P, s.pc, BinopTail(op, lhs, rhs, ret, f, m))
    requires DefinesWithin(P[..s.pc], 0, m)
    requires (op.Divide? || op.Modulo?) ==> U64(Reg(s, rhs)) != 0
    ensures Reaches(P, s, State(s.pc + |BinopTail(op, lhs, rhs, ret, f, m)|,
      s.regs[ret := OldValue(op, Reg(s, lhs), Reg(s, rhs))], s.mem))
  {
    var T := BinopTail(op, lhs, rhs, ret, f, m);
    if op.Lt? {
      FreshFrom(P, s.pc, m, f, m);
      FreshFrom(P, s.pc, m, f, m + 1);
      FreshFrom(P, s.pc, m, f, m + 2);
      OldLessRun(P, s, lhs, rhs, ret, Local(f, m), Local(f, m + 1), Local(f, m + 2));
    } else {
      assert P[s.pc] == T[0];
      StepUnsigned(P, s);
      var t := State(s.pc + 1, s.regs[ret := OldValue(op, Reg(s, lhs), Reg(s, rhs))], s.mem);
      RunCons(P, s, t, 0);
      assert Run(P, s, 1) == Some(t);
    }
  }

  /** The three labels of the conditional are fresh where its
      code starts, and none of its parts defines them: `ez` and `nz` are
      made before the condition, `end` after the then arm. */
  lemma TernaryLabelsFresh(P: seq<Instr>, k: int, C: seq<Instr>, T: seq<Instr>, EC: seq<Instr>, f: string, n: nat, end: nat, hi: nat)
    requires 0 <= k <= |P| && DefinesWithin(P[..k], 0, n) && n + 2 <= end
    requires DefinesWithin(C, n + 2, end) && DefinesWithin(T, n + 2, end) && DefinesWithin(EC, end + 1, hi)
    ensures Fresh3In(P, k, C, T, EC, Local(f, n), Local(f, n + 1), Local(f, end))
  {
    FreshFrom(P, k, n, f, n);
    FreshFrom(P, k, n, f, n + 1);
    FreshFrom(P, k, n, f, end);
  }

  /** The conditional as written is the head, the then half and the else
      half emit_ternary appends one after the other. */
  lemma OldTernaryShape(C: seq<Instr>, nth: int, out: int, ez: Label, nz: Label, Then: Option<Arm>, Else: Option<Arm>, end: Label,
                     T: seq<Instr>, X: seq<Instr>)
    requires T == (if Then.Some? then [Lab(nz)] + ArmCode(Then, out) else [])
    requires X == (if Else.Some? then [Jump(end), Lab(ez)] + Else.value.code + [Lab(end), Mov(out, Else.value.reg)] else [Lab(ez)])
    ensures C + [Ubb(nth, ez, nz)] + T + X == OldTernaryCode(C, nth, out, ez, nz, Then, Else, end)
  {
    if Then.Some? {
      assert T == [Lab(nz)] + Then.value.code + [Mov(out, Then.value.reg)];
    }
  }

  /** The main stub emit_func_prologue puts before `main`. */
  function MainStub(fname: string): seq<Instr> {
    if fname == "main" then [Lab(Global("main")), CallArgs(0, "main", []), Exit] else []
  }

  /** emit_ret: the default `return 0` after every function body. */
  function DefaultRet(): seq<Instr> {
    [UIntI(0, 0), Ret(0)]
  }

  /** The placeholder register a call through a function pointer yields. */
  const FuncPtrReg := 4984

  /** The registers a function starts its counter from. */
  const FirstReg := 1

  /** The register count every function declares. */
  const FrameRegs := 256

  lemma MainStubDefines(fname: string, lo: nat, hi: nat)
    ensures DefinesWithin(MainStub(fname) + [FuncSized(fname, FrameRegs)], lo, hi)
  {
  }

  /** What emit_expr emits for `node` inside function `f` when the
      register counter starts at `R` and the label counter at `L`: its
      code `E` and its result `r`, kind by kind. The code of operands,
      arguments and arms is only known to exist here; `EmitArgs` and
      `EmitCompound` tie each element to its own code. */
  ghost predicate OldEmitted(node: Node, r: Result<int>, E: seq<Instr>, f: string, R: int, L: nat)
    decreases node
  {
    match node
    case Literal(_, ival, _) => r == Success(R) && E == [UIntI(R, U64(ival))]
    case LVar(_, _, _, _) => r == Success(1) && E == []
    case FunCall(_, fname, args, _, _) =>
      r.Success? ==>
        exists V, regs ::
          |regs| == |args| &&
          if fname == "putchar" then r.value == 0 && E == V + [PutcharArgs(regs)]
          else R <= r.value && E == V + [CallArgs(r.value, fname, regs)]
    case FuncPtrCall(_, _, _, _, _) => r.Success? ==> r.value == FuncPtrReg
    case Conv(_, operand) => OldEmitted(operand, r, E, f, R, L)
    case If(_, _, thenArm, elseArm) => TernaryEmitted(thenArm, elseArm, r, E, f, R, L)
    case Ternary(_, _, thenArm, elseArm) => TernaryEmitted(thenArm, elseArm, r, E, f, R, L)
    case Return(_, retval) =>
      if retval.None? then r == Success(0) && E == DefaultRet()
      else r.Success? ==> r.value == 0 && exists V, v :: E == V + [Ret(v)]
    case Compound(_, stmts) =>
      (r.Success? ==> r.value == 0) && (|stmts| == 0 ==> r == Success(0) && E == [])
    case Binary(_, op, _, _) =>
      (!OldOp(op) ==> r.Failure?) &&
      (r.Success? ==>
        OldOp(op) && R <= r.value &&
        exists A, B, lhs, rhs, m :: L <= m && E == A + B + BinopTail(op, lhs, rhs, r.value, f, m))
    case _ => r.Failure? && E == []
  }

  /** Element `i` of `nodes` was emitted as `Ss[i]`, with result
      `vals[i]`, from the counters `Rs[i]` and `Ls[i]`. */
  ghost predicate ElemsEmitted(nodes: seq<Node>, vals: seq<int>, Ss: seq<seq<Instr>>, f: string, Rs: seq<int>, Ls: seq<nat>) {
    |vals| == |nodes| && |Ss| == |nodes| && |Rs| == |nodes| && |Ls| == |nodes| &&
    forall i :: 0 <= i < |nodes| ==> OldEmitted(nodes[i], Success(vals[i]), Ss[i], f, Rs[i], Ls[i])
  }

  /** One more element emitted after the first `|vals|`. */
  lemma ElemsSnoc(nodes: seq<Node>, vals: seq<int>, Ss: seq<seq<Instr>>, f: string, Rs: seq<int>, Ls: seq<nat>,
                  v: int, S: seq<Instr>, R: int, L: nat)
    requires |vals| < |nodes| && ElemsEmitted(nodes[..|vals|], vals, Ss, f, Rs, Ls)
    requires OldEmitted(nodes[|vals|], Success(v), S, f, R, L)
    ensures ElemsEmitted(nodes[..|vals| + 1], vals + [v], Ss + [S], f, Rs + [R], Ls + [L])
    ensures Concat(Ss + [S]) == Concat(Ss) + S
  {
    assert (Ss + [S])[..|Ss|] == Ss;
  }

  /** `if` and `?:`: `OldTernaryCode` into the fresh register `R`, on the
      labels `L` and `L + 1` made first and an `end` made later. */
  ghost predicate TernaryEmitted(thenArm: Option<Node>, elseArm: Option<Node>, r: Result<int>, E: seq<Instr>, f: string, R: int, L: nat) {
    r.Success? ==>
      r.value == R &&
      exists C, nth, Then: Option<Arm>, Else: Option<Arm>, nz, end ::
        nz == L + 1 && L + 2 <= end &&
        E == OldTernaryCode(C, nth, R, Local(f, L), Local(f, nz), Then, Else, Local(f, end)) &&
        (Then.Some? <==> thenArm.Some?) && (Else.Some? <==> elseArm.Some?)
  }

  // ---------------------------------------------------------------------
  // The generator
  // ---------------------------------------------------------------------

  class OldGenerator {
    /** The next register handed out. */
    var nregs: int
    /** The function being emitted; it prefixes that function's labels. */
    var curfunc: string
    /** The lines written so far. */
    var out: seq<Instr>
    /** make_label's counter. */
    var nlabels: nat

    /** Every local label the output defines was handed out already. */
    ghost predicate Valid()
      reads this`out, this`nlabels
    {
      DefinesWithin(out, 0, nlabels)
    }

    /** Since the pre-state the output grew by `E`, which defines only
        labels handed out in between, and the counters only grew. */
    twostate predicate Grew(E: seq<Instr>)
      reads this
    {
      GrewFrom(E, old(nlabels))
    }

    /** `Grew`, for code that may also define labels from `lo` on. */
    twostate predicate GrewFrom(E: seq<Instr>, lo: nat)
      reads this
    {
      out == old(out) + E &&
      old(nlabels) <= nlabels && DefinesWithin(E, lo, nlabels) &&
      old(nregs) <= nregs
    }

    constructor ()
      ensures Valid()
      ensures out == [] && nregs == 0 && nlabels == 0 && curfunc == ""
    {
      nregs := 0;
      curfunc := "";
      out := [];
      nlabels := 0;
    }

    /** make_label: a label never handed out before. */
    method MakeLabel() returns (id: nat)
      modifies this`nlabels
      requires Valid()
      ensures Valid()
      ensures id == old(nlabels) && nlabels == id + 1
    {
      id := nlabels;
      nlabels := nlabels + 1;
      DefinesWiden(out, 0, id, 0, nlabels);
    }

    /** One more line, defining no local label. */
    method Emit(x: Instr)
      modifies this`out
      requires Valid() && !(x.Lab? && x.lab.Local?)
      ensures Valid()
      ensures out == old(out) + [x]
    {
      DefinesCat(out, [x], 0, nlabels);
      out := out + [x];
    }

    /** emit_label: define a label of the current function. */
    method EmitLabel(id: nat)
      modifies this`out
      requires Valid() && id < nlabels
      ensures Valid()
      ensures out == old(out) + [Lab(Local(curfunc, id))]
    {
      DefinesCat(out, [Lab(Local(curfunc, id))], 0, nlabels);
      out := out + [Lab(Local(curfunc, id))];
    }

    /** emit_ret: `r0 <- uint 0; ret r0`. */
    method EmitRet() returns (r: int)
      modifies this`out
      requires Valid()
      ensures Valid()
      ensures r == 0 && out == old(out) + DefaultRet()
    {
      Emit(UIntI(0, 0));
      Emit(Ret(0));
      r := 0;
    }

    /** emit_literal: the value, cast to `unsigned long`, in a fresh
        register. */
    method EmitLiteral(node: Node) returns (r: int)
      modifies this`out, this`nregs
      requires Valid() && node.Literal?
      ensures Valid() && Grew([UIntI(r, U64(node.ival))])
      ensures r == old(nregs) && nregs == r + 1
    {
      r := nregs;
      nregs := nregs + 1;
      Emit(UIntI(r, U64(node.ival)));
    }

    /** emit_binop: the left operand's code, the right operand's, then
        the operator's tail into a fresh register (the labels of `<` are
        made after both operands); any other operator is an error once the
        operands are emitted. */
    method EmitBinop(node: Node)
      returns (r: Result<int>, ghost E: seq<Instr>, ghost L: seq<Instr>, ghost R: seq<Instr>,
               ghost lhs: int, ghost rhs: int, ghost m: nat)
      modifies this`out, this`nregs, this`nlabels
      requires Valid() && node.Binary?
      ensures Valid() && Grew(E)
      ensures !OldOp(node.op) ==> r.Failure?
      ensures r.Success? ==>
        OldOp(node.op) && old(nregs) <= r.value == nregs - 1 &&
        DefinesWithin(old(out) + L + R, 0, m) && old(nlabels) <= m &&
        nlabels == m + (if node.op.Lt? then 3 else 0) &&
        E == L + R + BinopTail(node.op, lhs, rhs, r.value, curfunc, m)
      decreases Size(node), 1
    {
      lhs, rhs, m := 0, 0, 0;
      var ops;
      ops, L, R := EmitOperands(node.left, node.right);
      E := L + R;
      if ops.Failure? { return Failure(ops.error), E, L, R, lhs, rhs, m; }
      lhs, rhs, m := ops.value.0, ops.value.1, nlabels;
      assert old(out) + L + R == old(out) + (L + R);
      if !OldOp(node.op) {
        return Failure("invalid operator"), E, L, R, lhs, rhs, m;
      }
      var ret := EmitOpTail(node.op, ops.value.0, ops.value.1);
      Glue(old(out), E, BinopTail(node.op, lhs, rhs, ret, curfunc, m), old(nlabels), m, m, nlabels);
      E := E + BinopTail(node.op, lhs, rhs, ret, curfunc, m);
      r := Success(ret);
    }

    /** The two operands of emit_binop, left then right. */
    method EmitOperands(left: Node, right: Node)
      returns (r: Result<(int, int)>, ghost L: seq<Instr>, ghost R: seq<Instr>)
      modifies this`out, this`nregs, this`nlabels
      requires Valid()
      ensures Valid() && Grew(L + R)
      decreases Size(left) + Size(right), 4
    {
      R := [];
      var a;
      a, L := EmitExpr(left);
      if a.Failure? { return Failure(a.error), L, R; }
      ghost var n1 := nlabels;
      var b;
      b, R := EmitExpr(right);
      Glue(old(out), L, R, old(nlabels), n1, n1, nlabels);
      if b.Failure? { return Failure(b.error), L, R; }
      r := Success((a.value, b.value));
    }

    /** The operator's tail of emit_binop, into a fresh register. */
    method EmitOpTail(op: BinOp, lhs: int, rhs: int) returns (ret: int)
      modifies this`out, this`nregs, this`nlabels
      requires Valid() && OldOp(op)
      ensures Valid()
      ensures ret == old(nregs) && nregs == ret + 1
      ensures nlabels == old(nlabels) + (if op.Lt? then 3 else 0)
      ensures out == old(out) + BinopTail(op, lhs, rhs, ret, curfunc, old(nlabels))
      ensures DefinesWithin(BinopTail(op, lhs, rhs, ret, curfunc, old(nlabels)), old(nlabels), nlabels)
    {
      ret := nregs;
      nregs := nregs + 1;
      if op.Lt? {
        var ift := MakeLabel();
        var iff := MakeLabel();
        var end := MakeLabel();
        Emit(Ublt(lhs, rhs, Local(curfunc, iff), Local(curfunc, ift)));
        EmitLabel(iff);
        Emit(UIntI(ret, 0));
        Emit(Jump(Local(curfunc, end)));
        EmitLabel(ift);
        Emit(UIntI(ret, 1));
        EmitLabel(end);
      } else {
        Emit(Alu(ArithOp(op), ret, lhs, rhs));
      }
    }

    /** emit_args: each argument, left to right, collecting the registers
        that hold them: argument `i` is emitted as `Vs[i]` from the
        counters `Rs[i]` and `Ls[i]`, and its register is the `i`-th. */
    method EmitArgs(args: seq<Node>)
      returns (r: Result<seq<int>>, ghost E: seq<Instr>, ghost Vs: seq<seq<Instr>>, ghost Rs: seq<int>, ghost Ls: seq<nat>)
      modifies this`out, this`nregs, this`nlabels
      requires Valid()
      ensures Valid() && Grew(E)
      ensures r.Success? ==>
        ElemsEmitted(args, r.value, Vs, curfunc, Rs, Ls) && E == Concat(Vs) &&
        (|args| != 0 ==> Rs[0] == old(nregs) && Ls[0] == old(nlabels))
      ensures |args| == 0 ==> r == Success([]) && E == []
      decreases NodesSize(args), 3
    {
      E, Vs, Rs, Ls := [], [], [], [];
      var regs: seq<int> := [];
      var i := 0;
      while i < |args|
        invariant 0 <= i <= |args| && |regs| == i && Valid() && Grew(E)
        invariant ElemsEmitted(args[..i], regs, Vs, curfunc, Rs, Ls) && E == Concat(Vs)
        invariant i == 0 ==> nregs == old(nregs) && nlabels == old(nlabels)
        invariant i != 0 ==> Rs[0] == old(nregs) && Ls[0] == old(nlabels)
      {
        NodesSizeElem(args, i);
        ghost var n1, r1 := nlabels, nregs;
        var v;
        ghost var Vi;
        v, Vi := EmitExpr(args[i]);
        Glue(old(out), E, Vi, old(nlabels), n1, n1, nlabels);
        E := E + Vi;
        if v.Failure? { return Failure(v.error), E, Vs, Rs, Ls; }
        ElemsSnoc(args, regs, Vs, curfunc, Rs, Ls, v.value, Vi, r1, n1);
        Vs, Rs, Ls := Vs + [Vi], Rs + [r1], Ls + [n1];
        regs := regs + [v.value];
        i := i + 1;
      }
      assert args[..i] == args;
      r := Success(regs);
    }

    /** emit_func_call: the arguments, then a call through a pointer
        yields the placeholder register 4984 with no call emitted,
        `putchar` is emitted with the argument registers (and no result
        register), and any other function is called into a fresh
        register. */
    method EmitFuncCall(node: Node) returns (r: Result<int>, ghost E: seq<Instr>, ghost V: seq<Instr>, ghost regs: seq<int>)
      modifies this`out, this`nregs, this`nlabels
      requires Valid() && (node.FunCall? || node.FuncPtrCall?)
      ensures Valid() && Grew(E)
      ensures r.Success? ==>
        |regs| == |node.args| &&
        (if node.FuncPtrCall? then r.value == FuncPtrReg && E == V
         else if node.fname == "putchar" then r.value == 0 && E == V + [PutcharArgs(regs)]
         else old(nregs) <= r.value == nregs - 1 && E == V + [CallArgs(r.value, node.fname, regs)])
      decreases Size(node), 1
    {
      regs := [];
      var a;
      ghost var Vs, Rs, Ls;
      a, V, Vs, Rs, Ls := EmitArgs(node.args);
      E := V;
      if a.Failure? { return Failure(a.error), E, V, regs; }
      var rs := a.value;
      regs := rs;
      if node.FuncPtrCall? {
        r := Success(FuncPtrReg);
      } else if node.fname == "putchar" {
        Emit(PutcharArgs(rs));
        DefinesCat(V, [PutcharArgs(rs)], old(nlabels), nlabels);
        E := V + [PutcharArgs(rs)];
        r := Success(0);
      } else {
        var ret := nregs;
        nregs := nregs + 1;
        Emit(CallArgs(ret, node.fname, rs));
        DefinesCat(V, [CallArgs(ret, node.fname, rs)], old(nlabels), nlabels);
        E := V + [CallArgs(ret, node.fname, rs)];
        r := Success(ret);
      }
    }

    /** An arm of the conditional: its code, then the copy of its value
        into `out`. */
    method EmitArm(arm: Option<Node>, res: int) returns (r: Result<int>, ghost E: seq<Instr>, ghost A: Option<Arm>)
      modifies this`out, this`nregs, this`nlabels
      requires Valid()
      ensures Valid() && Grew(E)
      ensures r.Success? ==> (A.Some? <==> arm.Some?) && E == ArmCode(A, res)
      decreases OptSize(arm), 4
    {
      E, A := [], None;
      if arm.None? { return Success(0), E, A; }
      var v;
      ghost var X;
      v, X := EmitExpr(arm.value);
      E := X;
      if v.Failure? { return v, E, A; }
      Emit(Mov(res, v.value));
      DefinesCat(X, [Mov(res, v.value)], old(nlabels), nlabels);
      E := X + [Mov(res, v.value)];
      A := Some(Arm(X, v.value));
      r := Success(0);
    }

    /** emit_ternary, for `if` and `?:`, as written: `out` is fresh, `ez`
        and `nz` are made before the condition, `end` after the then arm,
        and the else arm's copy into `out` follows `@end`, so it runs on
        both paths (`Flow.OldTernaryRun`). */
    method EmitTernary(node: Node)
      returns (r: Result<int>, ghost E: seq<Instr>, ghost C: seq<Instr>, ghost nth: int,
               ghost Then: Option<Arm>, ghost Else: Option<Arm>, ghost end: nat)
      modifies this`out, this`nregs, this`nlabels
      requires Valid() && (node.If? || node.Ternary?)
      ensures Valid() && Grew(E)
      ensures r.Success? ==>
        var n := old(nlabels);
        r.value == old(nregs) && n + 2 <= end &&
        E == OldTernaryCode(C, nth, r.value, Local(curfunc, n), Local(curfunc, n + 1), Then, Else, Local(curfunc, end)) &&
        (Then.Some? <==> node.thenArm.Some?) && (Else.Some? <==> node.elseArm.Some?) &&
        DefinesWithin(old(out), 0, n) && DefinesWithin(C, n + 2, end) && DefinesWithin(ArmCode(Then, r.value), n + 2, end) &&
        (Else.Some? ==> DefinesWithin(Else.value.code, end + 1, nlabels))
      decreases Size(node), 1
    {
      nth, Then, Else, end := 0, None, None, 0;
      var res := nregs;
      nregs := nregs + 1;
      var ez := MakeLabel();
      var nz := MakeLabel();
      var c;
      c, E, C := EmitCondition(node.cond, ez, nz);
      if c.Failure? { return c, E, C, nth, Then, Else, end; }
      nth := c.value;
      ghost var n1 := nlabels;
      var t;
      ghost var TC;
      t, TC, Then := EmitThenArm(nz, node.thenArm, res);
      Glue(old(out), E, TC, old(nlabels), n1, nz, nlabels);
      E := E + TC;
      if t.Failure? { return t, E, C, nth, Then, Else, end; }
      ghost var n2 := nlabels;
      var e;
      ghost var X;
      e, X, Else, end := EmitElseArm(ez, node.elseArm, res);
      Glue(old(out), E, X, old(nlabels), n2, ez, nlabels);
      E := E + X;
      if e.Failure? { return e, E, C, nth, Then, Else, end; }
      DefinesWiden(C, old(nlabels) + 2, n1, old(nlabels) + 2, end);
      DefinesWiden(ArmCode(Then, res), n1, n2, old(nlabels) + 2, end);
      OldTernaryShape(C, nth, res, Local(curfunc, ez), Local(curfunc, nz), Then, Else, Local(curfunc, end), TC, X);
      r := Success(res);
    }

    /** The head of emit_ternary: the condition's code and `ubb nth ez nz`. */
    method EmitCondition(cond: Node, ez: nat, nz: nat) returns (r: Result<int>, ghost E: seq<Instr>, ghost C: seq<Instr>)
      modifies this`out, this`nregs, this`nlabels
      requires Valid() && ez < nlabels && nz < nlabels
      ensures Valid() && Grew(E)
      ensures r.Success? ==>
        E == C + [Ubb(r.value, Local(curfunc, ez), Local(curfunc, nz))] &&
        DefinesWithin(C, old(nlabels), nlabels)
      decreases Size(cond), 4
    {
      var c;
      c, C := EmitExpr(cond);
      E := C;
      if c.Failure? { return c, E, C; }
      Emit(Ubb(c.value, Local(curfunc, ez), Local(curfunc, nz)));
      DefinesCat(C, [Ubb(c.value, Local(curfunc, ez), Local(curfunc, nz))], old(nlabels), nlabels);
      E := C + [Ubb(c.value, Local(curfunc, ez), Local(curfunc, nz))];
      r := c;
    }

    /** The then half of emit_ternary: with a then arm, `@nz`, the arm and
        its copy into `out`; without one, nothing, so `nz` stays
        undefined. */
    method EmitThenArm(nz: nat, arm: Option<Node>, res: int)
      returns (r: Result<int>, ghost X: seq<Instr>, ghost A: Option<Arm>)
      modifies this`out, this`nregs, this`nlabels
      requires Valid() && nz < nlabels
      ensures Valid() && GrewFrom(X, nz)
      ensures r.Success? ==>
        (A.Some? <==> arm.Some?) &&
        X == (if A.Some? then [Lab(Local(curfunc, nz))] + ArmCode(A, res) else []) &&
        DefinesWithin(ArmCode(A, res), old(nlabels), nlabels)
      decreases OptSize(arm), 5
    {
      A := None;
      X := [];
      if arm.None? { return Success(0), X, A; }
      EmitLabel(nz);
      ghost var L := [Lab(Local(curfunc, nz))];
      ghost var n1 := nlabels;
      var t;
      ghost var TC;
      t, TC, A := EmitArm(arm, res);
      Glue(old(out), L, TC, nz, n1, n1, nlabels);
      X := L + TC;
      r := t;
    }

    /** The else half of emit_ternary, as written: with an else arm, `end`
        is made and `jump end; @ez; Else; @end; out <- reg re` emitted;
        without one, just `@ez` (and `end` is a label never handed out). */
    method EmitElseArm(ez: nat, arm: Option<Node>, res: int)
      returns (r: Result<int>, ghost X: seq<Instr>, ghost A: Option<Arm>, ghost end: nat)
      modifies this`out, this`nregs, this`nlabels
      requires Valid() && ez < nlabels
      ensures Valid() && GrewFrom(X, ez)
      ensures r.Success? ==>
        old(nlabels) <= end && (A.Some? <==> arm.Some?) &&
        X == (if A.Some? then [Jump(Local(curfunc, end)), Lab(Local(curfunc, ez))] + A.value.code +
                [Lab(Local(curfunc, end)), Mov(res, A.value.reg)]
              else [Lab(Local(curfunc, ez))]) &&
        (A.Some? ==> DefinesWithin(A.value.code, end + 1, nlabels)) && (A.None? ==> end == nlabels)
      decreases OptSize(arm), 5
    {
      A := None;
      if arm.None? {
        end := nlabels;
        EmitLabel(ez);
        X := [Lab(Local(curfunc, ez))];
        return Success(0), X, A, end;
      }
      var endl := MakeLabel();
      end := endl;
      Emit(Jump(Local(curfunc, endl)));
      EmitLabel(ez);
      ghost var J := [Jump(Local(curfunc, endl)), Lab(Local(curfunc, ez))];
      assert DefinesWithin(J, ez, endl + 1);
      ghost var n2 := nlabels;
      var e;
      ghost var EC;
      assert OptSize(arm) == Size(arm.value);
      e, EC := EmitExpr(arm.value);
      Glue(old(out), J, EC, ez, endl + 1, n2, nlabels);
      X := J + EC;
      if e.Failure? { return e, X, A, end; }
      A := Some(Arm(EC, e.value));
      EmitLabel(endl);
      Emit(Mov(res, e.value));
      ghost var T := [Lab(Local(curfunc, endl)), Mov(res, e.value)];
      Glue(old(out), X, T, ez, nlabels, ez, nlabels);
      X := X + T;
      DefinesWiden(EC, n2, nlabels, end + 1, nlabels);
      r := Success(0);
    }

    /** emit_return: with a value, its code and `ret` of its register;
        without one, `r0 <- uint 0; ret r0`. */
    method EmitReturn(node: Node) returns (r: Result<int>, ghost E: seq<Instr>, ghost V: seq<Instr>, ghost v: int)
      modifies this`out, this`nregs, this`nlabels
      requires Valid() && node.Return?
      ensures Valid() && Grew(E)
      ensures node.retval.None? ==> r == Success(0) && E == DefaultRet()
      ensures node.retval.Some? && r.Success? ==> r.value == 0 && E == V + [Ret(v)]
      decreases Size(node), 1
    {
      V, v := [], 0;
      if node.retval.None? {
        var z := EmitRet();
        E := DefaultRet();
        return Success(0), E, V, v;
      }
      var a;
      assert OptSize(node.retval) == Size(node.retval.value);
      a, V := EmitExpr(node.retval.value);
      E := V;
      if a.Failure? { return a, E, V, v; }
      v := a.value;
      Emit(Ret(a.value));
      DefinesCat(V, [Ret(v)], old(nlabels), nlabels);
      E := V + [Ret(v)];
      r := Success(0);
    }

    /** A compound statement: each statement in order, statement `i`
        emitted as `Ss[i]` from the counters `Rs[i]` and `Ls[i]`; the
        value is 0. */
    method EmitCompound(node: Node)
      returns (r: Result<int>, ghost E: seq<Instr>, ghost Ss: seq<seq<Instr>>, ghost rs: seq<int>, ghost Rs: seq<int>, ghost Ls: seq<nat>)
      modifies this`out, this`nregs, this`nlabels
      requires Valid() && node.Compound?
      ensures Valid() && Grew(E)
      ensures r.Success? ==>
        r.value == 0 && ElemsEmitted(node.stmts, rs, Ss, curfunc, Rs, Ls) && E == Concat(Ss) &&
        (|node.stmts| != 0 ==> Rs[0] == old(nregs) && Ls[0] == old(nlabels))
      ensures |node.stmts| == 0 ==> r == Success(0) && E == []
      decreases Size(node), 1
    {
      E, Ss, rs, Rs, Ls := [], [], [], [], [];
      var i := 0;
      while i < |node.stmts|
        invariant 0 <= i <= |node.stmts| && |rs| == i && Valid() && Grew(E)
        invariant ElemsEmitted(node.stmts[..i], rs, Ss, curfunc, Rs, Ls) && E == Concat(Ss)
        invariant i == 0 ==> nregs == old(nregs) && nlabels == old(nlabels)
        invariant i != 0 ==> Rs[0] == old(nregs) && Ls[0] == old(nlabels)
      {
        NodesSizeElem(node.stmts, i);
        ghost var n1, r1 := nlabels, nregs;
        var v;
        ghost var S;
        v, S := EmitExpr(node.stmts[i]);
        Glue(old(out), E, S, old(nlabels), n1, n1, nlabels);
        E := E + S;
        if v.Failure? { return v, E, Ss, rs, Rs, Ls; }
        ElemsSnoc(node.stmts, rs, Ss, curfunc, Rs, Ls, v.value, S, r1, n1);
        Ss, rs, Rs, Ls := Ss + [S], rs + [v.value], Rs + [r1], Ls + [n1];
        i := i + 1;
      }
      assert node.stmts[..i] == node.stmts;
      r := Success(0);
    }

    /** emit_expr: dispatch on the node's kind. A local variable is
        register 1 with no code; every kind the switch does not list goes
        to emit_binop, which rejects all but the six operators. */
    method EmitExpr(node: Node) returns (r: Result<int>, ghost E: seq<Instr>)
      modifies this`out, this`nregs, this`nlabels
      requires Valid()
      ensures Valid() && Grew(E)
      ensures OldEmitted(node, r, E, curfunc, old(nregs), old(nlabels))
      decreases Size(node), 2
    {
      E := [];
      ghost var A: seq<Instr>, B: seq<Instr>, C: seq<Instr>, a: int, b: int, x: nat;
      ghost var t1: Option<Arm>, t2: Option<Arm>;
      ghost var rs: seq<int>;
      match node {
        case Literal(_, _, _) =>
          var ret := EmitLiteral(node);
          E := [UIntI(ret, U64(node.ival))];
          r := Success(ret);
        case LVar(_, _, _, _) =>
          r := Success(1);
        case FunCall(_, _, _, _, _) =>
          r, E, A, rs := EmitFuncCall(node);
        case FuncPtrCall(_, _, _, _, _) =>
          r, E, A, rs := EmitFuncCall(node);
        case Conv(_, operand) =>
          r, E := EmitExpr(operand);
        case If(_, _, _, _) =>
          r, E, C, a, t1, t2, x := EmitTernary(node);
        case Ternary(_, _, _, _) =>
          r, E, C, a, t1, t2, x := EmitTernary(node);
        case Return(_, _) =>
          r, E, A, a := EmitReturn(node);
          if r.Success? { r := Success(0); }
        case Compound(_, _) =>
          ghost var Ss: seq<seq<Instr>>, Rs: seq<int>, Ls: seq<nat>;
          r, E, Ss, rs, Rs, Ls := EmitCompound(node);
        case Binary(_, _, _, _) =>
          r, E, A, B, a, b, x := EmitBinop(node);
        case _ =>
          r := Failure("invalid operator");
      }
    }

    /** emit_func_prologue: for `main`, the `@main` stub calling `.main`
        and exiting; then the register counter restarts at 1 and
        `func .NAME 256` opens the function. */
    method EmitFuncPrologue(func: Node)
      modifies this`out, this`nregs, this`curfunc
      requires Valid() && func.FuncDef?
      ensures Valid()
      ensures out == old(out) + MainStub(func.fname) + [FuncSized(func.fname, FrameRegs)]
      ensures curfunc == func.fname && nregs == FirstReg
    {
      if func.fname == "main" {
        Emit(Lab(Global("main")));
        Emit(CallArgs(0, "main", []));
        Emit(Exit);
      }
      curfunc := func.fname;
      nregs := FirstReg;
      Emit(FuncSized(func.fname, FrameRegs));
    }

    /** emit_toplevel: a function definition is its prologue, its body and
        the default `return 0`; anything else is an internal error. */
    method EmitToplevel(v: Node) returns (r: Result<int>, ghost E: seq<Instr>, ghost B: seq<Instr>)
      modifies this`out, this`nregs, this`nlabels, this`curfunc
      requires Valid()
      ensures Valid()
      ensures !v.FuncDef? ==> r == Failure("internal error") && out == old(out) && nlabels == old(nlabels)
      ensures v.FuncDef? ==>
        out == old(out) + E && curfunc == v.fname &&
        old(nlabels) <= nlabels && DefinesWithin(B, old(nlabels), nlabels)
      ensures r.Success? ==>
        v.FuncDef? && r.value == 0 &&
        E == MainStub(v.fname) + [FuncSized(v.fname, FrameRegs)] + B + DefaultRet()
    {
      E, B := [], [];
      if !v.FuncDef? {
        return Failure("internal error"), E, B;
      }
      EmitFuncPrologue(v);
      ghost var P := MainStub(v.fname) + [FuncSized(v.fname, FrameRegs)];
      var b;
      b, B := EmitExpr(v.body);
      E := P + B;
      if b.Failure? { return b, E, B; }
      var z := EmitRet();
      E := P + B + DefaultRet();
      r := Success(0);
    }
  }
}
