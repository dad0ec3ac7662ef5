/** The MiniVM register-machine instructions the generators emit, kept as
    structured values instead of text, and a small interpreter for the
    subset whose meaning the generator's lowering relies on.

    Conventions the interpreter assumes (they are the VM's, not the
    generator's): `get`/`set` always go through the memory array held in
    r1, so a `Get(d, a)` reads word `R[a]` of one flat memory and a
    `Set(a, v)` writes it; a branch `b<cmp> a b Lfalse Ltrue` continues at
    `Ltrue` when the relation holds and at `Lfalse` otherwise; a jump goes
    to the first `@label` line carrying that label. */
module Machine {

  import opened Wrappers

  /** A jump target. `Local` labels come from the front end's label
      counter and are printed behind the current function's name; `User`
      labels are the front end's own goto labels; `Global` labels are the
      fixed `@__entry...` and `@main` targets. */
  datatype Label =
    | Local(func: string, id: nat)
    | User(func: string, name: string)
    | Global(name: string)

  datatype AluOp =
    | Add | Sub | Mul | Div | Mod | BOr | BAnd | BXor | BShl | BShr
    | UAdd | USub | UMul | UDiv | UMod

  datatype Instr =
    | IntI(dst: int, val: int)                 // rD <- int V
    | UIntI(dst: int, val: int)                // rD <- uint V
    | Alu(op: AluOp, dst: int, a: int, b: int) // rD <- op rA rB
    | Get(dst: int, addr: int)                 // rD <- get r1 rA
    | Set(addr: int, src: int)                 // set r1 rA rS
    | Mov(dst: int, src: int)                  // rD <- reg rS
    | Nil(dst: int)                            // rD <- nil
    | Beq(a: int, b: int, ifFalse: Label, ifTrue: Label)
    | Blt(a: int, b: int, ifFalse: Label, ifTrue: Label)
    | Ublt(a: int, b: int, ifFalse: Label, ifTrue: Label)
    | Ubb(r: int, ifFalse: Label, ifTrue: Label)
    | Jump(target: Label)
    | Lab(lab: Label)                          // @label
    | DJump(r: int)
    | Ret(r: int)
    | Call(dst: int, fname: string)            // rD <- call func.NAME r1
    | DCall(dst: int, fptr: int)               // rD <- dcall rF r1
    | CallArgs(dst: int, fname: string, args: seq<int>)  // rD <- call .NAME rA...
    | Getchar(dst: int)
    | Putchar(r: int)
    | PutcharArgs(args: seq<int>)
    | AddrFunc(dst: int, fname: string)
    | AddrLabel(dst: int, target: Label)
    | Arr(dst: int, size: int)                 // rD <- arr rS
    | Exit
    | Func(fname: string)                      // func func.NAME
    | FuncSized(fname: string, nregs: int)     // func .NAME N
    | End

  /** Machine state: program counter, registers, the flat memory. Registers
      and words never written read as 0. */
  datatype State = State(pc: int, regs: map<int, int>, mem: map<int, int>)

  function Reg(s: State, r: int): int {
    if r in s.regs then s.regs[r] else 0
  }

  function Word(s: State, a: int): int {
    if a in s.mem then s.mem[a] else 0
  }

  /** Index of the first `@l` line of `P`, or -1 when there is none. */
  function Find(P: seq<Instr>, l: Label): (k: int)
    ensures -1 <= k < |P|
    ensures k >= 0 ==> P[k] == Lab(l)
  {
    if |P| == 0 then -1
    else if P[0] == Lab(l) then 0
    else
      var k := Find(P[1..], l);
      if k == -1 then -1 else k + 1
  }

  /** The first `@l` is at `k` when `P[k]` is `@l` and no earlier line is. */
  lemma {:induction false} FindAt(P: seq<Instr>, l: Label, k: int)
    requires 0 <= k < |P| && P[k] == Lab(l)
    requires forall i :: 0 <= i < k ==> P[i] != Lab(l)
    ensures Find(P, l) == k
  {
    if k > 0 {
      assert P[0] != Lab(l);
      forall i | 0 <= i < k - 1 ensures P[1..][i] != Lab(l) {
        assert P[1..][i] == P[i + 1];
      }
      FindAt(P[1..], l, k - 1);
    }
  }

  function GoTo(P: seq<Instr>, s: State, l: Label): Option<State> {
    var k := Find(P, l);
    if k < 0 then None else Some(s.(pc := k))
  }

  /** A register value read as a 64-bit unsigned number. */
  function U64(x: int): int {
    x % 0x1_0000_0000_0000_0000
  }

  /** The unsigned 64-bit operations `uadd`, `usub`, `umul`, `udiv` and
      `umod`: the operands are read as unsigned words and the result wraps
      around modulo 2^64. */
  function Unsigned(op: AluOp, a: int, b: int): int
    requires op in {UAdd, USub, UMul} || (op in {UDiv, UMod} && U64(b) != 0)
  {
    match op
    case UAdd => U64(a + b)
    case USub => U64(a - b)
    case UMul => U64(a * b)
    case UDiv => U64(a) / U64(b)
    case UMod => U64(a) % U64(b)
  }

  /** The remainder of a division truncated toward zero: it takes the sign
      of the dividend, as the VM's `mod` does. */
  function TMod(a: int, b: int): (m: int)
    requires b != 0
    ensures -(if b < 0 then -b else b) < m < (if b < 0 then -b else b)
    ensures a >= 0 ==> m >= 0
    ensures a <= 0 ==> m <= 0
  {
    var d := if b < 0 then -b else b;
    if a >= 0 then a % d else -((-a) % d)
  }

  /** One step. Only the instructions the lowering lemmas rely on have a
      meaning here; every other instruction stops the machine (None).
      `div` is given a meaning only when the quotient is exact, the one
      case where the VM's numeric division and integer division agree. */
  function Step(P: seq<Instr>, s: State): Option<State> {
    if !(0 <= s.pc < |P|) then None
    else
      var target := Target(P[s.pc], s);
      if target.Some? then GoTo(P, s, target.value) else Exec(P[s.pc], s)
  }

  /** Where a branch or a jump sends control from `s`; None for any other
      instruction. */
  function Target(i: Instr, s: State): Option<Label> {
    match i
    case Beq(a, b, lf, lt) => Some(if Reg(s, a) == Reg(s, b) then lt else lf)
    case Blt(a, b, lf, lt) => Some(if Reg(s, a) < Reg(s, b) then lt else lf)
    case Ublt(a, b, lf, lt) => Some(if U64(Reg(s, a)) < U64(Reg(s, b)) then lt else lf)
    case Ubb(r, lf, lt) => Some(if Reg(s, r) != 0 then lt else lf)
    case Jump(l) => Some(l)
    case _ => None
  }

  /** Whether an instruction that continues at the next line has a
      meaning in state `s`. */
  predicate Defined(i: Instr, s: State) {
    match i
    case IntI(_, _) => true
    case UIntI(_, _) => true
    case Alu(op, _, a, b) =>
      op in {Add, Sub, Mul, UAdd, USub, UMul} ||
      (op == Div && Reg(s, b) != 0 && Reg(s, a) % Reg(s, b) == 0) ||
      (op == Mod && Reg(s, b) != 0) ||
      (op in {UDiv, UMod} && U64(Reg(s, b)) != 0)
    case Get(_, _) => true
    case Set(_, _) => true
    case Mov(_, _) => true
    case Lab(_) => true
    case _ => false
  }

  /** The value a defined register-writing instruction puts into its
      destination register. */
  function Value(i: Instr, s: State): int
    requires Defined(i, s) && !i.Set? && !i.Lab?
  {
    match i
    case IntI(_, v) => v
    case UIntI(_, v) => v
    case Alu(op, _, a, b) =>
      if op == Add then Reg(s, a) + Reg(s, b)
      else if op == Sub then Reg(s, a) - Reg(s, b)
      else if op == Mul then Reg(s, a) * Reg(s, b)
      else if op == Div then Reg(s, a) / Reg(s, b)
      else if op == Mod then TMod(Reg(s, a), Reg(s, b))
      else Unsigned(op, Reg(s, a), Reg(s, b))
    case Get(_, a) => Word(s, Reg(s, a))
    case Mov(_, r) => Reg(s, r)
  }

  /** The effect of an instruction that continues at the next line: `set`
      writes a word, `@label` does nothing, every other defined one writes
      its destination register. */
  function Exec(i: Instr, s: State): Option<State> {
    if !Defined(i, s) then None
    else if i.Lab? then Some(s.(pc := s.pc + 1))
    else if i.Set? then Some(State(s.pc + 1, s.regs, s.mem[Reg(s, i.addr) := Reg(s, i.src)]))
    else Some(State(s.pc + 1, s.regs[i.dst := Value(i, s)], s.mem))
  }

  /** `n` steps from `s`, or None when the machine stops earlier. */
  function Run(P: seq<Instr>, s: State, n: nat): Option<State>
    decreases n
  {
    if n == 0 then Some(s)
    else match Step(P, s)
      case None => None
      case Some(s') => Run(P, s', n - 1)
  }

  /** One step followed by `n` more is `n + 1` steps. */
  lemma RunCons(P: seq<Instr>, s: State, t: State, n: nat)
    requires Step(P, s) == Some(t)
    ensures Run(P, s, n + 1) == Run(P, t, n)
  {
  }

  /** Stepping over an `@label` line only moves to the next line. */
  lemma StepLab(P: seq<Instr>, s: State)
    requires 0 <= s.pc < |P| && P[s.pc].Lab?
    ensures Step(P, s) == Some(s.(pc := s.pc + 1))
  {
  }

  /** `rD <- int V` and `rD <- uint V` only set `rD`. */
  lemma StepConst(P: seq<Instr>, s: State)
    requires 0 <= s.pc < |P| && (P[s.pc].IntI? || P[s.pc].UIntI?)
    ensures Step(P, s) == Some(State(s.pc + 1, s.regs[P[s.pc].dst := P[s.pc].val], s.mem))
  {
  }

  lemma StepAlu(P: seq<Instr>, s: State)
    requires 0 <= s.pc < |P| && P[s.pc].Alu? && P[s.pc].op in {Add, Sub, Mul}
    ensures var i := P[s.pc];
      var a := Reg(s, i.a);
      var b := Reg(s, i.b);
      Step(P, s) == Some(State(s.pc + 1,
        s.regs[i.dst := if i.op == Add then a + b else if i.op == Sub then a - b else a * b], s.mem))
  {
  }

  /** The unsigned operations compute `Unsigned`; division and remainder
      need a non-zero divisor. */
  lemma StepUnsigned(P: seq<Instr>, s: State)
    requires 0 <= s.pc < |P| && P[s.pc].Alu?
    requires P[s.pc].op in {UAdd, USub, UMul} || (P[s.pc].op in {UDiv, UMod} && U64(Reg(s, P[s.pc].b)) != 0)
    ensures Step(P, s) == Some(State(s.pc + 1,
      s.regs[P[s.pc].dst := Unsigned(P[s.pc].op, Reg(s, P[s.pc].a), Reg(s, P[s.pc].b))], s.mem))
  {
  }

  /** An exact `div` divides; a `mod` by 1 gives 0. */
  lemma StepDiv(P: seq<Instr>, s: State)
    requires 0 <= s.pc < |P| && P[s.pc].Alu? && P[s.pc].op == Div
    requires Reg(s, P[s.pc].b) != 0 && Reg(s, P[s.pc].a) % Reg(s, P[s.pc].b) == 0
    ensures Step(P, s) == Some(State(s.pc + 1,
      s.regs[P[s.pc].dst := Reg(s, P[s.pc].a) / Reg(s, P[s.pc].b)], s.mem))
  {
  }

  lemma StepModOne(P: seq<Instr>, s: State)
    requires 0 <= s.pc < |P| && P[s.pc].Alu? && P[s.pc].op == Mod && Reg(s, P[s.pc].b) == 1
    ensures Step(P, s) == Some(State(s.pc + 1, s.regs[P[s.pc].dst := 0], s.mem))
  {
  }

  lemma StepGet(P: seq<Instr>, s: State)
    requires 0 <= s.pc < |P| && P[s.pc].Get?
    ensures Step(P, s) == Some(State(s.pc + 1, s.regs[P[s.pc].dst := Word(s, Reg(s, P[s.pc].addr))], s.mem))
  {
  }

  lemma StepSet(P: seq<Instr>, s: State)
    requires 0 <= s.pc < |P| && P[s.pc].Set?
    ensures Step(P, s) == Some(State(s.pc + 1, s.regs, s.mem[Reg(s, P[s.pc].addr) := Reg(s, P[s.pc].src)]))
  {
  }

  lemma StepMov(P: seq<Instr>, s: State)
    requires 0 <= s.pc < |P| && P[s.pc].Mov?
    ensures Step(P, s) == Some(State(s.pc + 1, s.regs[P[s.pc].dst := Reg(s, P[s.pc].src)], s.mem))
  {
  }

  lemma StepJump(P: seq<Instr>, s: State)
    requires 0 <= s.pc < |P| && P[s.pc].Jump? && 0 <= Find(P, P[s.pc].target)
    ensures Step(P, s) == Some(s.(pc := Find(P, P[s.pc].target)))
  {
  }

  /** A branch or jump whose chosen label is defined continues at it. */
  lemma StepTo(P: seq<Instr>, s: State, l: Label)
    requires 0 <= s.pc < |P| && Target(P[s.pc], s) == Some(l) && 0 <= Find(P, l)
    ensures Step(P, s) == Some(s.(pc := Find(P, l)))
  {
  }

  /** `t` is reachable from `s` in some number of steps. */
  ghost predicate Reaches(P: seq<Instr>, s: State, t: State) {
    exists n: nat :: Run(P, s, n) == Some(t)
  }

  lemma ReachesTrans(P: seq<Instr>, s: State, t: State, u: State)
    requires Reaches(P, s, t) && Reaches(P, t, u)
    ensures Reaches(P, s, u)
  {
    var a: nat :| Run(P, s, a) == Some(t);
    var b: nat :| Run(P, t, b) == Some(u);
    RunThen(P, s, a, t, b, u);
  }

  /** Running `a` steps and then `b` more is running `a + b` steps. */
  lemma {:induction false} RunAdd(P: seq<Instr>, s: State, a: nat, b: nat)
    ensures Run(P, s, a + b) ==
      (match Run(P, s, a) case None => None case Some(t) => Run(P, t, b))
    decreases a
  {
    if a > 0 {
      match Step(P, s)
      case None =>
      case Some(s') =>
        RunAdd(P, s', a - 1, b);
        assert a + b - 1 == (a - 1) + b;
    }
  }

  /** Chains two runs whose end points are known. */
  lemma RunThen(P: seq<Instr>, s: State, a: nat, t: State, b: nat, u: State)
    requires Run(P, s, a) == Some(t)
    requires Run(P, t, b) == Some(u)
    ensures Run(P, s, a + b) == Some(u)
  {
    RunAdd(P, s, a, b);
  }

  /** The local labels that `P` defines (`@l` lines) all lie in [lo, hi). */
  ghost predicate DefinesWithin(P: seq<Instr>, lo: nat, hi: nat) {
    forall i :: 0 <= i < |P| && P[i].Lab? && P[i].lab.Local? ==> lo <= P[i].lab.id < hi
  }

  /** The pieces of code `Ss` one after another. */
  function Concat(Ss: seq<seq<Instr>>): seq<Instr> {
    if |Ss| == 0 then [] else Concat(Ss[..|Ss| - 1]) + Ss[|Ss| - 1]
  }
}
