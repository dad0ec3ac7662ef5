/** The fixed instruction shapes src/gen.c emits, as functions from the
    registers and labels involved to instruction sequences, and what each
    shape does when run on the machine of module Machine. The generator
    (module Gen) states which shape it appended; the lemmas here say what
    that code computes. */
module Patterns {

  import opened Wrappers
  import opened Machine
  import opened Ast

  // ---------------------------------------------------------------------
  // Locating code inside a program
  // ---------------------------------------------------------------------

  /** `T` occurs in `P` starting at index `k`. */
  ghost predicate At(P: seq<Instr>, k: int, T: seq<Instr>) {
    0 <= k && k + |T| <= |P| && forall i :: 0 <= i < |T| ==> P[k + i] == T[i]
  }

  /** No `@l` line occurs in `P` before index `k`. */
  ghost predicate NoDefBefore(P: seq<Instr>, k: int, l: Label) {
    forall i :: 0 <= i < k && i < |P| ==> P[i] != Lab(l)
  }

  lemma AtSplit(P: seq<Instr>, k: int, A: seq<Instr>, B: seq<Instr>)
    requires At(P, k, A + B)
    ensures At(P, k, A) && At(P, k + |A|, B)
  {
    forall i | 0 <= i < |A| ensures P[k + i] == A[i] {
      assert (A + B)[i] == A[i];
    }
    forall i | 0 <= i < |B| ensures P[k + |A| + i] == B[i] {
      assert (A + B)[|A| + i] == B[i];
    }
  }

  /** A suffix of the generator's output is a located shape; so it stays
      once more code is appended. */
  lemma SuffixAt(P: seq<Instr>, Q: seq<Instr>, k: int, T: seq<Instr>)
    requires 0 <= k <= |P| && P[k..] == T
    ensures At(P + Q, k, T)
  {
    forall i | 0 <= i < |T| ensures (P + Q)[k + i] == T[i] {
      assert P[k..][i] == P[k + i];
    }
  }

  /** The first `@l` of `P` is the one inside `T` when `T` sits at `k`, no
      earlier line of `P` defines `l` and `T` defines it at `j` first. */
  lemma FindInside(P: seq<Instr>, k: int, T: seq<Instr>, j: int, l: Label)
    requires At(P, k, T) && NoDefBefore(P, k, l)
    requires 0 <= j < |T| && T[j] == Lab(l)
    requires forall i :: 0 <= i < j ==> T[i] != Lab(l)
    ensures Find(P, l) == k + j
  {
    forall i | 0 <= i < k + j ensures P[i] != Lab(l) {
      if i >= k {
        assert P[k + (i - k)] == T[i - k];
      }
    }
    assert P[k + j] == T[j];
    FindAt(P, l, k + j);
  }

  // ---------------------------------------------------------------------
  // Relations and conditional branches (emit_branch_bool)
  // ---------------------------------------------------------------------

  /** What C's relational operators mean. */
  predicate Holds(op: BinOp, a: int, b: int) {
    match op
    case Eq => a == b
    case Ne => a != b
    case Lt => a < b
    case Gt => a > b
    case Le => a <= b
    case Ge => a >= b
    case _ => false
  }

  /** The branch emit_branch_bool emits for a relational node whose
      operands are in `l` and `r`: continue at `nonzero` when the relation
      holds and at `zero` otherwise. */
  function BranchFor(op: BinOp, l: int, r: int, zero: Label, nonzero: Label): Instr
    requires IsRelational(op)
  {
    match op
    case Eq => Beq(l, r, zero, nonzero)
    case Ne => Beq(l, r, nonzero, zero)
    case Lt => Blt(l, r, zero, nonzero)
    case Gt => Blt(r, l, zero, nonzero)
    case Le => Blt(r, l, nonzero, zero)
    case _ => Blt(l, r, nonzero, zero)
  }

  /** For all six relations the branch goes to `nonzero` exactly when the
      relation holds between the operand registers. */
  lemma BranchForCorrect(P: seq<Instr>, s: State, op: BinOp, l: int, r: int, zero: Label, nonzero: Label)
    requires IsRelational(op)
    requires 0 <= s.pc < |P| && P[s.pc] == BranchFor(op, l, r, zero, nonzero)
    requires 0 <= Find(P, zero) && 0 <= Find(P, nonzero)
    ensures Step(P, s) == Some(s.(pc := Find(P, if Holds(op, Reg(s, l), Reg(s, r)) then nonzero else zero)))
  {
    StepTo(P, s, if Holds(op, Reg(s, l), Reg(s, r)) then nonzero else zero);
  }

  /** The test emit_branch_bool emits for any other expression, whose value
      is in `nth`. */
  function TruthTest(nth: int, zero: Label, nonzero: Label): seq<Instr> {
    [IntI(0, 0), Beq(nth, 0, nonzero, zero)]
  }

  /** Whether the truth test sees a non-zero value in `nth`. The test
      clears r0 before comparing, so a value held in r0 always tests as
      zero. */
  predicate Tested(s: State, nth: int) {
    nth != 0 && Reg(s, nth) != 0
  }

  /** Control reaches `nonzero` exactly when the tested value is non-zero
      and is not held in r0; a value in r0 is overwritten by the test's
      `r0 <- int 0` and always goes to `zero`. */
  lemma TruthTestRun(P: seq<Instr>, s: State, nth: int, zero: Label, nonzero: Label)
    requires At(P, s.pc, TruthTest(nth, zero, nonzero))
    requires 0 <= Find(P, zero) && 0 <= Find(P, nonzero)
    ensures Run(P, s, 2) ==
      Some(State(Find(P, if Tested(s, nth) then nonzero else zero), s.regs[0 := 0], s.mem))
  {
    var T := TruthTest(nth, zero, nonzero);
    assert P[s.pc + 0] == T[0] && P[s.pc + 1] == T[1];
    var s1 := State(s.pc + 1, s.regs[0 := 0], s.mem);
    StepConst(P, s);
    var l := if Tested(s, nth) then nonzero else zero;
    assert Reg(s1, nth) != Reg(s1, 0) <==> Tested(s, nth);
    StepTo(P, s1, l);
    var t := s1.(pc := Find(P, l));
    RunCons(P, s1, t, 0);
    RunCons(P, s, s1, 1);
  }

  /** `if (putchar(c))`: emit_expr hands back r0 for putchar
      (src/gen.c:467-471), and the truth test then goes to `zero` whatever
      putchar printed. */
  lemma TruthTestOfR0(P: seq<Instr>, s: State, zero: Label, nonzero: Label)
    requires At(P, s.pc, TruthTest(0, zero, nonzero)) && Reg(s, 0) != 0
    requires 0 <= Find(P, zero) && 0 <= Find(P, nonzero) && Find(P, zero) != Find(P, nonzero)
    ensures Run(P, s, 2).Some? && Run(P, s, 2).value.pc == Find(P, zero)
    ensures Run(P, s, 2).value.pc != Find(P, nonzero)
  {
    TruthTestRun(P, s, 0, zero, nonzero);
  }

  /** The truth test against a fresh register `spare` instead of r0. */
  function TruthTestFixed(nth: int, spare: int, zero: Label, nonzero: Label): seq<Instr> {
    [IntI(spare, 0), Beq(nth, spare, nonzero, zero)]
  }

  /** Comparing against a fresh register, control reaches `nonzero`
      exactly when the tested value is non-zero, whichever register holds
      it. */
  lemma TruthTestFixedRun(P: seq<Instr>, s: State, nth: int, spare: int, zero: Label, nonzero: Label)
    requires At(P, s.pc, TruthTestFixed(nth, spare, zero, nonzero)) && nth != spare
    requires 0 <= Find(P, zero) && 0 <= Find(P, nonzero)
    ensures Run(P, s, 2) ==
      Some(State(Find(P, if Reg(s, nth) != 0 then nonzero else zero), s.regs[spare := 0], s.mem))
  {
    var T := TruthTestFixed(nth, spare, zero, nonzero);
    assert P[s.pc + 0] == T[0] && P[s.pc + 1] == T[1];
    var s1 := State(s.pc + 1, s.regs[spare := 0], s.mem);
    StepConst(P, s);
    var l := if Reg(s, nth) != 0 then nonzero else zero;
    StepTo(P, s1, l);
    var t := s1.(pc := Find(P, l));
    RunCons(P, s1, t, 0);
    RunCons(P, s, s1, 1);
  }

  // ---------------------------------------------------------------------
  // Materialised comparisons (emit_binop, relational cases)
  // ---------------------------------------------------------------------

  /** The branch the materialising code starts with. As written the `!=`
      case is the same `beq lhs rhs iff ift` as `==`. */
  function CompareBranch(op: BinOp, l: int, r: int, ift: Label, iff: Label): Instr
    requires IsRelational(op)
  {
    match op
    case Eq => Beq(l, r, iff, ift)
    case Ne => Beq(l, r, iff, ift)
    case Lt => Blt(l, r, iff, ift)
    case Gt => Blt(r, l, iff, ift)
    case Le => Blt(r, l, ift, iff)
    case _ => Blt(l, r, ift, iff)
  }

  /** The branch with `!=` sending equal operands to `iff`. */
  function CompareBranchFixed(op: BinOp, l: int, r: int, ift: Label, iff: Label): Instr
    requires IsRelational(op)
  {
    if op == Ne then Beq(l, r, ift, iff) else CompareBranch(op, l, r, ift, iff)
  }

  /** The join both materialising shapes end with:
      `@first; <set1>; jump end; @second; <set2>; @end`, where `set1` and
      `set2` put a constant into the result register. */
  function Join(first: Label, set1: Instr, second: Label, set2: Instr, end: Label): seq<Instr> {
    [Lab(first), set1, Jump(end), Lab(second), set2, Lab(end)]
  }

  /** Puts the constant `v` into `ret` (`int` or `uint`). */
  predicate SetsConst(i: Instr, ret: int, v: int) {
    (i.IntI? || i.UIntI?) && i.dst == ret && i.val == v
  }

  function CompareTail(op: BinOp, l: int, r: int, ret: int, ift: Label, iff: Label, end: Label): seq<Instr>
    requires IsRelational(op)
  {
    [CompareBranch(op, l, r, ift, iff)] + Join(iff, IntI(ret, 0), ift, IntI(ret, 1), end)
  }

  function CompareTailFixed(op: BinOp, l: int, r: int, ret: int, ift: Label, iff: Label, end: Label): seq<Instr>
    requires IsRelational(op)
  {
    [CompareBranchFixed(op, l, r, ift, iff)] + Join(iff, IntI(ret, 0), ift, IntI(ret, 1), end)
  }

  /** Three labels defined nowhere before `k` and pairwise distinct. */
  ghost predicate Fresh3(P: seq<Instr>, k: int, a: Label, b: Label, c: Label) {
    NoDefBefore(P, k, a) && NoDefBefore(P, k, b) && NoDefBefore(P, k, c) &&
    a != b && b != c && a != c
  }

  /** A branch `br` followed by the join: when `br` goes to `second` the
      result register ends up `v2`, otherwise `v1`; either way control
      leaves through `@end`. */
  lemma JoinRun(P: seq<Instr>, s: State, br: Instr, first: Label, v1: int, second: Label, v2: int, end: Label, ret: int, set1: Instr, set2: Instr, taken: bool)
    requires At(P, s.pc, [br] + Join(first, set1, second, set2, end)) && !br.Lab?
    requires SetsConst(set1, ret, v1) && SetsConst(set2, ret, v2)
    requires Fresh3(P, s.pc, first, second, end)
    requires Target(br, s) == Some(if taken then second else first)
    ensures Reaches(P, s, State(s.pc + 7, s.regs[ret := if taken then v2 else v1], s.mem))
  {
    var k := s.pc;
    var T := [br] + Join(first, set1, second, set2, end);
    FindInside(P, k, T, 1, first);
    FindInside(P, k, T, 4, second);
    FindInside(P, k, T, 6, end);
    assert P[k + 1] == T[1] && P[k + 2] == T[2] && P[k + 3] == T[3];
    assert P[k + 4] == T[4] && P[k + 5] == T[5] && P[k + 6] == T[6];
    assert P[k + 0] == T[0];
    StepTo(P, s, if taken then second else first);
    if taken {
      JoinTaken(P, s, second, end, ret, set2, v2);
    } else {
      JoinNotTaken(P, s, first, end, ret, set1, v1);
    }
  }

  lemma JoinTaken(P: seq<Instr>, s: State, second: Label, end: Label, ret: int, set2: Instr, v2: int)
    requires 0 <= s.pc && s.pc + 7 <= |P| && SetsConst(set2, ret, v2)
    requires P[s.pc + 4] == Lab(second) && P[s.pc + 5] == set2 && P[s.pc + 6] == Lab(end)
    requires Step(P, s) == Some(s.(pc := s.pc + 4))
    ensures Run(P, s, 4) == Some(State(s.pc + 7, s.regs[ret := v2], s.mem))
  {
    var k := s.pc;
    var s1 := s.(pc := k + 4);
    StepLab(P, s1);
    var s2 := s.(pc := k + 5);
    StepConst(P, s2);
    var s3 := State(k + 6, s.regs[ret := v2], s.mem);
    StepLab(P, s3);
    var t := s3.(pc := k + 7);
    RunCons(P, s3, t, 0);
    RunCons(P, s2, s3, 1);
    RunCons(P, s1, s2, 2);
    RunCons(P, s, s1, 3);
  }

  lemma JoinNotTaken(P: seq<Instr>, s: State, first: Label, end: Label, ret: int, set1: Instr, v1: int)
    requires 0 <= s.pc && s.pc + 7 <= |P| && SetsConst(set1, ret, v1)
    requires Find(P, end) == s.pc + 6
    requires P[s.pc + 1] == Lab(first) && P[s.pc + 2] == set1
    requires P[s.pc + 3] == Jump(end) && P[s.pc + 6] == Lab(end)
    requires Step(P, s) == Some(s.(pc := s.pc + 1))
    ensures Run(P, s, 5) == Some(State(s.pc + 7, s.regs[ret := v1], s.mem))
  {
    var k := s.pc;
    var s1 := s.(pc := k + 1);
    StepLab(P, s1);
    var s2 := s.(pc := k + 2);
    StepConst(P, s2);
    var s3 := State(k + 3, s.regs[ret := v1], s.mem);
    StepJump(P, s3);
    var s4 := s3.(pc := k + 6);
    StepLab(P, s4);
    var t := s4.(pc := k + 7);
    RunCons(P, s4, t, 0);
    RunCons(P, s3, s4, 1);
    RunCons(P, s2, s3, 2);
    RunCons(P, s1, s2, 3);
    RunCons(P, s, s1, 4);
  }

  /** The materialised comparison as written: `ret` ends up 1 exactly when
      the relation holds for ==, <, >, <= and >=, but for != it ends up 1
      exactly when the operands are EQUAL. */
  lemma CompareTailRun(P: seq<Instr>, s: State, op: BinOp, l: int, r: int, ret: int, ift: Label, iff: Label, end: Label)
    requires IsRelational(op)
    requires At(P, s.pc, CompareTail(op, l, r, ret, ift, iff, end))
    requires Fresh3(P, s.pc, iff, ift, end)
    ensures op != Ne ==> Reaches(P, s,
      State(s.pc + 7, s.regs[ret := if Holds(op, Reg(s, l), Reg(s, r)) then 1 else 0], s.mem))
    ensures op == Ne ==> Reaches(P, s,
      State(s.pc + 7, s.regs[ret := if Reg(s, l) == Reg(s, r) then 1 else 0], s.mem))
  {
    var T := CompareTail(op, l, r, ret, ift, iff, end);
    assert P[s.pc + 0] == T[0];
    var taken := if op == Ne then Reg(s, l) == Reg(s, r) else Holds(op, Reg(s, l), Reg(s, r));
    JoinRun(P, s, CompareBranch(op, l, r, ift, iff), iff, 0, ift, 1, end, ret, IntI(ret, 0), IntI(ret, 1), taken);
  }

  /** With the `!=` branch corrected, all six relations materialise to 1
      exactly when they hold. */
  lemma CompareTailFixedRun(P: seq<Instr>, s: State, op: BinOp, l: int, r: int, ret: int, ift: Label, iff: Label, end: Label)
    requires IsRelational(op)
    requires At(P, s.pc, CompareTailFixed(op, l, r, ret, ift, iff, end))
    requires Fresh3(P, s.pc, iff, ift, end)
    ensures Reaches(P, s,
      State(s.pc + 7, s.regs[ret := if Holds(op, Reg(s, l), Reg(s, r)) then 1 else 0], s.mem))
  {
    var T := CompareTailFixed(op, l, r, ret, ift, iff, end);
    assert P[s.pc + 0] == T[0];
    JoinRun(P, s, CompareBranchFixed(op, l, r, ift, iff), iff, 0, ift, 1, end, ret, IntI(ret, 0), IntI(ret, 1),
      Holds(op, Reg(s, l), Reg(s, r)));
  }

  // ---------------------------------------------------------------------
  // Logical not (emit_expr, '!')
  // ---------------------------------------------------------------------

  /** `r0 <- int 0; beq reg r0 nonzero zero; @zero; ret <- 1; jump out;
      @nonzero; ret <- 0; @out`. */
  function NotTail(reg: int, ret: int, zero: Label, nonzero: Label, out: Label): seq<Instr> {
    [IntI(0, 0), Beq(reg, 0, nonzero, zero)] + Join(zero, IntI(ret, 1), nonzero, IntI(ret, 0), out)
  }

  /** `z <- int 0; beq reg z nonzero zero` and the join: `ret` ends up 0
      when the value compared with the cleared `z` is non-zero, else 1. */
  lemma ClearBranchJoinRun(P: seq<Instr>, s: State, z: int, reg: int, ret: int, zero: Label, nonzero: Label, out: Label)
    requires At(P, s.pc, [IntI(z, 0), Beq(reg, z, nonzero, zero)] + Join(zero, IntI(ret, 1), nonzero, IntI(ret, 0), out))
    requires Fresh3(P, s.pc, zero, nonzero, out)
    ensures Reaches(P, s,
      State(s.pc + 8, s.regs[z := 0][ret := if reg != z && Reg(s, reg) != 0 then 0 else 1], s.mem))
  {
    var k := s.pc;
    var J := [Beq(reg, z, nonzero, zero)] + Join(zero, IntI(ret, 1), nonzero, IntI(ret, 0), out);
    assert [IntI(z, 0), Beq(reg, z, nonzero, zero)] + Join(zero, IntI(ret, 1), nonzero, IntI(ret, 0), out) == [IntI(z, 0)] + J;
    AtSplit(P, k, [IntI(z, 0)], J);
    assert P[k + 0] == [IntI(z, 0)][0];
    StepConst(P, s);
    var s1 := State(k + 1, s.regs[z := 0], s.mem);
    var taken := reg != z && Reg(s, reg) != 0;
    assert Reg(s1, reg) != Reg(s1, z) <==> taken;
    JoinRun(P, s1, Beq(reg, z, nonzero, zero), zero, 1, nonzero, 0, out, ret, IntI(ret, 1), IntI(ret, 0), taken);
    RunCons(P, s, s1, 0);
    assert Run(P, s, 1) == Some(s1);
    ReachesTrans(P, s, s1, State(k + 8, s1.regs[ret := if taken then 0 else 1], s.mem));
  }

  /** `!x` leaves 0 in `ret` when the test sees a non-zero value and 1
      otherwise. As in the truth test, the code clears r0 before comparing,
      so an operand held in r0 always counts as zero. */
  lemma NotTailRun(P: seq<Instr>, s: State, reg: int, ret: int, zero: Label, nonzero: Label, out: Label)
    requires At(P, s.pc, NotTail(reg, ret, zero, nonzero, out))
    requires Fresh3(P, s.pc, zero, nonzero, out)
    ensures Reaches(P, s,
      State(s.pc + 8, s.regs[0 := 0][ret := if Tested(s, reg) then 0 else 1], s.mem))
  {
    ClearBranchJoinRun(P, s, 0, reg, ret, zero, nonzero, out);
  }

  /** `!putchar(c)`: putchar's value is r0 (src/gen.c:467-471), which the
      code clears before comparing, so the result is 1 whatever putchar
      returned. */
  lemma NotTailOfR0(P: seq<Instr>, s: State, ret: int, zero: Label, nonzero: Label, out: Label)
    requires At(P, s.pc, NotTail(0, ret, zero, nonzero, out)) && Reg(s, 0) != 0
    requires Fresh3(P, s.pc, zero, nonzero, out)
    ensures Reaches(P, s, State(s.pc + 8, s.regs[0 := 0][ret := 1], s.mem))
  {
    NotTailRun(P, s, 0, ret, zero, nonzero, out);
  }

  /** `!x` compared against a fresh register `spare` instead of r0. */
  function NotTailFixed(reg: int, ret: int, spare: int, zero: Label, nonzero: Label, out: Label): seq<Instr> {
    TruthTestFixed(reg, spare, zero, nonzero) + Join(zero, IntI(ret, 1), nonzero, IntI(ret, 0), out)
  }

  /** Compared against a fresh register, `!x` is 1 exactly when `x` is
      zero, whichever register holds it. */
  lemma NotTailFixedRun(P: seq<Instr>, s: State, reg: int, ret: int, spare: int, zero: Label, nonzero: Label, out: Label)
    requires At(P, s.pc, NotTailFixed(reg, ret, spare, zero, nonzero, out)) && reg != spare
    requires Fresh3(P, s.pc, zero, nonzero, out)
    ensures Reaches(P, s,
      State(s.pc + 8, s.regs[spare := 0][ret := if Reg(s, reg) == 0 then 1 else 0], s.mem))
  {
    ClearBranchJoinRun(P, s, spare, reg, ret, zero, nonzero, out);
  }

  // ---------------------------------------------------------------------
  // Bitwise not (emit_expr, '~')
  // ---------------------------------------------------------------------

  /** `r0 <- int 1; ret <- add r0 reg; r0 <- int 0; ret <- sub r0 ret`. */
  function BitNotTail(reg: int, ret: int): seq<Instr> {
    [IntI(0, 1), Alu(Add, ret, 0, reg), IntI(0, 0), Alu(Sub, ret, 0, ret)]
  }

  /** `~x` computes -1 - x, the two's-complement bitwise complement, of
      the value the code reads from `reg`: the code sets r0 to 1 first, so
      an operand held in r0 reads as 1. */
  lemma BitNotTailRun(P: seq<Instr>, s: State, reg: int, ret: int)
    requires At(P, s.pc, BitNotTail(reg, ret)) && ret != 0
    ensures Run(P, s, 4) ==
      Some(State(s.pc + 4, s.regs[0 := 0][ret := -1 - (if reg == 0 then 1 else Reg(s, reg))], s.mem))
  {
    var k := s.pc;
    var T := BitNotTail(reg, ret);
    assert P[k + 0] == T[0] && P[k + 1] == T[1] && P[k + 2] == T[2] && P[k + 3] == T[3];
    var v := if reg == 0 then 1 else Reg(s, reg);
    var s1 := State(k + 1, s.regs[0 := 1], s.mem);
    StepConst(P, s);
    assert Reg(s1, reg) == v;
    StepAlu(P, s1);
    var s2 := State(k + 2, s1.regs[ret := 1 + v], s.mem);
    StepConst(P, s2);
    var s3 := State(k + 3, s2.regs[0 := 0], s.mem);
    StepAlu(P, s3);
    var t := State(k + 4, s3.regs[ret := 0 - (1 + v)], s.mem);
    assert s3.regs[ret := 0 - (1 + v)] == s.regs[0 := 0][ret := -1 - v];
    RunCons(P, s3, t, 0);
    RunCons(P, s2, s3, 1);
    RunCons(P, s1, s2, 2);
    RunCons(P, s, s1, 3);
  }

  /** `~putchar(c)`: putchar's value is r0, which the code overwrites with
      1 before adding, so the result is -2 whatever putchar returned. */
  lemma BitNotTailOfR0(P: seq<Instr>, s: State, ret: int)
    requires At(P, s.pc, BitNotTail(0, ret)) && ret != 0
    ensures Run(P, s, 4).Some? && Reg(Run(P, s, 4).value, ret) == -2
  {
    BitNotTailRun(P, s, 0, ret);
  }

  /** `~x` with the constants staged in a fresh register `spare`. */
  function BitNotTailFixed(reg: int, ret: int, spare: int): seq<Instr> {
    [IntI(spare, 1), Alu(Add, ret, spare, reg), IntI(spare, 0), Alu(Sub, ret, spare, ret)]
  }

  /** With the constants in a fresh register, `~x` is -1 - x whichever
      register holds `x`. */
  lemma BitNotTailFixedRun(P: seq<Instr>, s: State, reg: int, ret: int, spare: int)
    requires At(P, s.pc, BitNotTailFixed(reg, ret, spare)) && spare != reg && spare != ret
    ensures Run(P, s, 4) == Some(State(s.pc + 4, s.regs[spare := 0][ret := -1 - Reg(s, reg)], s.mem))
  {
    var k := s.pc;
    var T := BitNotTailFixed(reg, ret, spare);
    assert P[k + 0] == T[0] && P[k + 1] == T[1] && P[k + 2] == T[2] && P[k + 3] == T[3];
    var v := Reg(s, reg);
    var s1 := State(k + 1, s.regs[spare := 1], s.mem);
    StepConst(P, s);
    StepAlu(P, s1);
    var s2 := State(k + 2, s1.regs[ret := 1 + v], s.mem);
    StepConst(P, s2);
    var s3 := State(k + 3, s2.regs[spare := 0], s.mem);
    StepAlu(P, s3);
    var t := State(k + 4, s3.regs[ret := 0 - (1 + v)], s.mem);
    assert s3.regs[ret := 0 - (1 + v)] == s.regs[spare := 0][ret := -1 - v];
    RunCons(P, s3, t, 0);
    RunCons(P, s2, s3, 1);
    RunCons(P, s1, s2, 2);
    RunCons(P, s, s1, 3);
  }

  // ---------------------------------------------------------------------
  // Register plus or times a constant (emit_add_ri, emit_mul_ri)
  // ---------------------------------------------------------------------

  /** `emit_add_ri(reg, num)`: nothing for 0, otherwise
      `spare <- int num; spare <- add spare reg`. */
  function AddRICode(reg: int, num: int, spare: int): seq<Instr> {
    if num == 0 then [] else [IntI(spare, num), Alu(Add, spare, spare, reg)]
  }

  /** The register emit_add_ri returns. */
  function AddRIReg(reg: int, num: int, spare: int): int {
    if num == 0 then reg else spare
  }

  /** The register counter after emit_add_ri. */
  function AddRINext(num: int, spare: int): int {
    if num == 0 then spare else spare + 1
  }

  /** The returned register holds `reg + num`; only `spare` changes. */
  lemma AddRIRun(P: seq<Instr>, s: State, reg: int, num: int, spare: int)
    requires At(P, s.pc, AddRICode(reg, num, spare)) && spare != reg
    ensures var t := State(s.pc + |AddRICode(reg, num, spare)|,
        if num == 0 then s.regs else s.regs[spare := Reg(s, reg) + num], s.mem);
      Run(P, s, |AddRICode(reg, num, spare)|) == Some(t) &&
      Reg(t, AddRIReg(reg, num, spare)) == Reg(s, reg) + num
  {
    if num != 0 {
      var T := AddRICode(reg, num, spare);
      assert P[s.pc + 0] == T[0] && P[s.pc + 1] == T[1];
      StepConst(P, s);
      var s1 := State(s.pc + 1, s.regs[spare := num], s.mem);
      StepAlu(P, s1);
      var t := State(s.pc + 2, s.regs[spare := Reg(s, reg) + num], s.mem);
      assert s1.regs[spare := num + Reg(s, reg)] == t.regs;
      RunCons(P, s1, t, 0);
      RunCons(P, s, s1, 1);
    }
  }

  /** `emit_mul_ri(reg, num)`: nothing for 1, `spare <- add reg reg` for 2,
      otherwise `spare <- int num; spare <- mul spare reg`. */
  function MulRICode(reg: int, num: int, spare: int): seq<Instr> {
    if num == 1 then []
    else if num == 2 then [Alu(Add, spare, reg, reg)]
    else [IntI(spare, num), Alu(Mul, spare, spare, reg)]
  }

  function MulRIReg(reg: int, num: int, spare: int): int {
    if num == 1 then reg else spare
  }

  function MulRINext(num: int, spare: int): int {
    if num == 1 then spare else spare + 1
  }

  /** The returned register holds `reg * num`; only `spare` changes. */
  lemma MulRIRun(P: seq<Instr>, s: State, reg: int, num: int, spare: int)
    requires At(P, s.pc, MulRICode(reg, num, spare)) && spare != reg
    ensures var t := State(s.pc + |MulRICode(reg, num, spare)|,
        if num == 1 then s.regs else s.regs[spare := Reg(s, reg) * num], s.mem);
      Run(P, s, |MulRICode(reg, num, spare)|) == Some(t) &&
      Reg(t, MulRIReg(reg, num, spare)) == Reg(s, reg) * num
  {
    var T := MulRICode(reg, num, spare);
    var v := Reg(s, reg);
    if num == 2 {
      assert P[s.pc + 0] == T[0];
      StepAlu(P, s);
      var t := State(s.pc + 1, s.regs[spare := v * 2], s.mem);
      assert s.regs[spare := v + v] == t.regs;
      RunCons(P, s, t, 0);
    } else if num != 1 {
      assert P[s.pc + 0] == T[0] && P[s.pc + 1] == T[1];
      StepConst(P, s);
      var s1 := State(s.pc + 1, s.regs[spare := num], s.mem);
      StepAlu(P, s1);
      var t := State(s.pc + 2, s.regs[spare := v * num], s.mem);
      assert s1.regs[spare := num * v] == t.regs;
      RunCons(P, s1, t, 0);
      RunCons(P, s, s1, 1);
    }
  }

  // ---------------------------------------------------------------------
  // Word-by-word stores and loads
  // ---------------------------------------------------------------------

  /** Memory of `t` is that of `s` with words `addr .. addr+count-1` set to
      registers `src .. src+count-1` of `s`. */
  ghost predicate Stored(s: State, t: State, addr: int, src: int, count: nat) {
    forall a :: Word(t, a) == if addr <= a < addr + count then Reg(s, src + (a - addr)) else Word(s, a)
  }

  /** Registers `dst .. dst+count-1` of `t` hold words `addr ..` of `s`. */
  ghost predicate Loaded(s: State, t: State, addr: int, dst: int, count: nat) {
    forall x :: dst <= x < dst + count ==> Reg(t, x) == Word(s, addr + (x - dst))
  }

  /** A store of the first word followed by stores of the rest is a store
      of all the words. */
  lemma StoredCons(s: State, s1: State, t: State, addr: int, src: int, count: nat)
    requires count > 0 && s1.mem == s.mem[addr := Reg(s, src)]
    requires forall y :: src < y < src + count ==> Reg(s1, y) == Reg(s, y)
    requires Stored(s1, t, addr + 1, src + 1, count - 1)
    ensures Stored(s, t, addr, src, count)
  {
    forall a ensures Word(t, a) == if addr <= a < addr + count then Reg(s, src + (a - addr)) else Word(s, a) {
      if addr + 1 <= a < addr + count {
        var y := src + (a - addr);
        assert src + 1 + (a - (addr + 1)) == y;
        assert Reg(s1, y) == Reg(s, y);
      } else if a == addr {
        assert Word(s1, a) == Reg(s, src);
      } else {
        assert Word(s1, a) == Word(s, a);
      }
    }
  }

  /** A load of the first word followed by loads of the rest is a load of
      all the words, when the later loads leave the first register alone. */
  lemma LoadedCons(s: State, s1: State, t: State, addr: int, dst: int, count: nat)
    requires count > 0 && Reg(s1, dst) == Word(s, addr) && s1.mem == s.mem
    requires Reg(t, dst) == Reg(s1, dst)
    requires Loaded(s1, t, addr + 1, dst + 1, count - 1)
    ensures Loaded(s, t, addr, dst, count)
  {
    forall x | dst <= x < dst + count ensures Reg(t, x) == Word(s, addr + (x - dst)) {
      if x > dst {
        assert addr + 1 + (x - (dst + 1)) == addr + (x - dst);
      }
    }
  }

  /** One word of an address-computed store: `emit_add_ri(base, off)`
      then `set r1 where src`. */
  function StoreChunk(base: int, off: int, src: int, spare: int): seq<Instr> {
    AddRICode(base, off, spare) + [Set(AddRIReg(base, off, spare), src)]
  }

  /** The stores of emit_assign_to (through a pointer and into a local)
      and of emit_args: word i goes to `emit_add_ri(base, off + i)`. */
  function AddrStores(base: int, off: int, src: int, count: nat, spare: int): seq<Instr>
    decreases count
  {
    if count == 0 then []
    else StoreChunk(base, off, src, spare) + AddrStores(base, off + 1, src + 1, count - 1, AddRINext(off, spare))
  }

  lemma StoreChunkRun(P: seq<Instr>, s: State, base: int, off: int, src: int, spare: int)
    requires At(P, s.pc, StoreChunk(base, off, src, spare)) && base != spare && src != spare
    ensures Run(P, s, |StoreChunk(base, off, src, spare)|) ==
      Some(State(s.pc + |StoreChunk(base, off, src, spare)|,
        if off == 0 then s.regs else s.regs[spare := Reg(s, base) + off],
        s.mem[Reg(s, base) + off := Reg(s, src)]))
  {
    var A := AddRICode(base, off, spare);
    var w := AddRIReg(base, off, spare);
    AtSplit(P, s.pc, A, [Set(w, src)]);
    AddRIRun(P, s, base, off, spare);
    var s1 := State(s.pc + |A|, if off == 0 then s.regs else s.regs[spare := Reg(s, base) + off], s.mem);
    assert P[s1.pc + 0] == [Set(w, src)][0];
    StepSet(P, s1);
    var s2 := State(s1.pc + 1, s1.regs, s.mem[Reg(s, base) + off := Reg(s, src)]);
    RunCons(P, s1, s2, 0);
    RunThen(P, s, |A|, s1, 1, s2);
  }

  /** `n` steps lead from `s` to `t`, which has registers `src ..` stored
      into words `addr ..` and every register below `lo` unchanged. */
  ghost predicate StoreRan(P: seq<Instr>, s: State, n: nat, t: State, addr: int, src: int, count: nat, lo: int) {
    Run(P, s, n) == Some(t) && t.pc == s.pc + n && Stored(s, t, addr, src, count) &&
    forall x :: x < lo ==> Reg(t, x) == Reg(s, x)
  }

  /** A run storing the first word, then a run storing the rest. */
  lemma StoreRanCons(P: seq<Instr>, s: State, n1: nat, s2: State, n2: nat, t: State, addr: int, src: int, count: nat, lo: int, lo2: int)
    requires count > 0 && src + count <= lo <= lo2
    requires Run(P, s, n1) == Some(s2) && s2.pc == s.pc + n1 && s2.mem == s.mem[addr := Reg(s, src)]
    requires forall x :: x < lo ==> Reg(s2, x) == Reg(s, x)
    requires StoreRan(P, s2, n2, t, addr + 1, src + 1, count - 1, lo2)
    ensures StoreRan(P, s, n1 + n2, t, addr, src, count, lo)
  {
    RunThen(P, s, n1, s2, n2, t);
    forall y | src < y < src + count ensures Reg(s2, y) == Reg(s, y) {
    }
    StoredCons(s, s2, t, addr, src, count);
    forall x | x < lo ensures Reg(t, x) == Reg(s, x) {
      assert Reg(t, x) == Reg(s2, x);
    }
  }

  /** The state after one store chunk. */
  function StoreChunkEnd(s: State, base: int, off: int, src: int, spare: int): State {
    var a0 := Reg(s, base) + off;
    State(s.pc + |StoreChunk(base, off, src, spare)|,
      if off == 0 then s.regs else s.regs[spare := a0], s.mem[a0 := Reg(s, src)])
  }

  /** The words `base + off ..` receive registers `src ..` in order; only
      registers at or above `spare` change. */
  lemma {:induction false} AddrStoresRun(P: seq<Instr>, s: State, base: int, off: int, src: int, count: nat, spare: int)
    returns (t: State)
    requires At(P, s.pc, AddrStores(base, off, src, count, spare))
    requires base < spare && src + count <= spare
    ensures StoreRan(P, s, |AddrStores(base, off, src, count, spare)|, t, Reg(s, base) + off, src, count, spare)
    decreases count
  {
    if count > 0 {
      var C := StoreChunk(base, off, src, spare);
      var rest := AddrStores(base, off + 1, src + 1, count - 1, AddRINext(off, spare));
      AtSplit(P, s.pc, C, rest);
      var s2 := StoreChunkEnd(s, base, off, src, spare);
      t := AddrStoresRun(P, s2, base, off + 1, src + 1, count - 1, AddRINext(off, spare));
      AddrStoresStep(P, s, base, off, src, count, spare, t);
    } else {
      t := s;
      assert Run(P, s, 0) == Some(s);
    }
  }

  lemma AddrStoresStep(P: seq<Instr>, s: State, base: int, off: int, src: int, count: nat, spare: int, t: State)
    requires count > 0 && At(P, s.pc, StoreChunk(base, off, src, spare))
    requires base < spare && src + count <= spare
    requires var s2 := StoreChunkEnd(s, base, off, src, spare);
      StoreRan(P, s2, |AddrStores(base, off + 1, src + 1, count - 1, AddRINext(off, spare))|, t,
        Reg(s2, base) + off + 1, src + 1, count - 1, AddRINext(off, spare))
    ensures StoreRan(P, s, |AddrStores(base, off, src, count, spare)|, t, Reg(s, base) + off, src, count, spare)
  {
    var C := StoreChunk(base, off, src, spare);
    var rest := AddrStores(base, off + 1, src + 1, count - 1, AddRINext(off, spare));
    StoreChunkRun(P, s, base, off, src, spare);
    var a0 := Reg(s, base) + off;
    var s2 := StoreChunkEnd(s, base, off, src, spare);
    forall x | x < spare ensures Reg(s2, x) == Reg(s, x) {
    }
    assert Reg(s2, base) == Reg(s, base);
    assert |AddrStores(base, off, src, count, spare)| == |C| + |rest|;
    StoreRanCons(P, s, |C|, s2, |rest|, t, a0, src, count, spare, AddRINext(off, spare));
  }

  /** The stores of emit_local_store and emit_return: word i goes to
      `r0 <- int off+i; r0 <- add r0 base; set r1 r0 src+i`. */
  function BaseStores(base: int, off: int, src: int, count: nat): seq<Instr>
    decreases count
  {
    if count == 0 then []
    else [IntI(0, off), Alu(Add, 0, 0, base), Set(0, src)] + BaseStores(base, off + 1, src + 1, count - 1)
  }

  /** The words `base + off ..` receive registers `src ..`; only r0 changes. */
  lemma {:induction false} BaseStoresRun(P: seq<Instr>, s: State, base: int, off: int, src: int, count: nat)
    requires At(P, s.pc, BaseStores(base, off, src, count))
    requires base != 0 && src > 0
    ensures var n := |BaseStores(base, off, src, count)|;
      Run(P, s, n).Some? && Run(P, s, n).value.pc == s.pc + n &&
      Stored(s, Run(P, s, n).value, Reg(s, base) + off, src, count) &&
      forall x :: x != 0 ==> Reg(Run(P, s, n).value, x) == Reg(s, x)
    decreases count
  {
    if count > 0 {
      var C := [IntI(0, off), Alu(Add, 0, 0, base), Set(0, src)];
      var rest := BaseStores(base, off + 1, src + 1, count - 1);
      AtSplit(P, s.pc, C, rest);
      assert P[s.pc + 0] == C[0] && P[s.pc + 1] == C[1] && P[s.pc + 2] == C[2];
      StepConst(P, s);
      var s1 := State(s.pc + 1, s.regs[0 := off], s.mem);
      StepAlu(P, s1);
      var a0 := Reg(s, base) + off;
      var s2 := State(s.pc + 2, s.regs[0 := a0], s.mem);
      assert s1.regs[0 := off + Reg(s, base)] == s2.regs;
      StepSet(P, s2);
      var s3 := State(s.pc + 3, s2.regs, s.mem[a0 := Reg(s, src)]);
      RunCons(P, s2, s3, 0);
      RunCons(P, s1, s2, 1);
      RunCons(P, s, s1, 2);
      BaseStoresRun(P, s3, base, off + 1, src + 1, count - 1);
      var t := Run(P, s3, |rest|).value;
      RunThen(P, s, 3, s3, |rest|, t);
      assert Run(P, s, |BaseStores(base, off, src, count)|) == Some(t);
      StoredCons(s, s3, t, a0, src, count);
      forall x | x != 0 ensures Reg(t, x) == Reg(s, x) {
        assert Reg(t, x) == Reg(s3, x);
      }
    }
  }

  /** The stores of emit_assign_to into a global and of the initializer
      loop of `_start`: word i goes to the constant address `addr + i`. */
  function ConstStores(addr: int, src: int, count: nat): seq<Instr>
    decreases count
  {
    if count == 0 then []
    else [IntI(0, addr), Set(0, src)] + ConstStores(addr + 1, src + 1, count - 1)
  }

  /** The words `addr ..` receive registers `src ..`; only r0 changes. */
  lemma {:induction false} ConstStoresRun(P: seq<Instr>, s: State, addr: int, src: int, count: nat)
    requires At(P, s.pc, ConstStores(addr, src, count)) && src > 0
    ensures var n := |ConstStores(addr, src, count)|;
      Run(P, s, n).Some? && Run(P, s, n).value.pc == s.pc + n &&
      Stored(s, Run(P, s, n).value, addr, src, count) &&
      forall x :: x != 0 ==> Reg(Run(P, s, n).value, x) == Reg(s, x)
    decreases count
  {
    if count > 0 {
      var C := [IntI(0, addr), Set(0, src)];
      var rest := ConstStores(addr + 1, src + 1, count - 1);
      AtSplit(P, s.pc, C, rest);
      assert P[s.pc + 0] == C[0] && P[s.pc + 1] == C[1];
      StepConst(P, s);
      var s1 := State(s.pc + 1, s.regs[0 := addr], s.mem);
      StepSet(P, s1);
      var s2 := State(s.pc + 2, s1.regs, s.mem[addr := Reg(s, src)]);
      RunCons(P, s1, s2, 0);
      RunCons(P, s, s1, 1);
      ConstStoresRun(P, s2, addr + 1, src + 1, count - 1);
      var t := Run(P, s2, |rest|).value;
      RunThen(P, s, 2, s2, |rest|, t);
      assert Run(P, s, |ConstStores(addr, src, count)|) == Some(t);
      StoredCons(s, s2, t, addr, src, count);
      forall x | x != 0 ensures Reg(t, x) == Reg(s, x) {
        assert Reg(t, x) == Reg(s2, x);
      }
    }
  }

  /** `int x = putchar(c)` and `return putchar(c)`: putchar's value is r0
      (src/gen.c:467-471), which the store overwrites with the address, so
      the word receives its own address instead of the value. */
  lemma BaseStoresOfR0(P: seq<Instr>, s: State, base: int, off: int)
    requires At(P, s.pc, BaseStores(base, off, 0, 1)) && base != 0
    ensures Run(P, s, 3).Some? && Run(P, s, 3).value.pc == s.pc + 3
    ensures var a := Reg(s, base) + off; Word(Run(P, s, 3).value, a) == a
  {
    var T := BaseStores(base, off, 0, 1);
    assert P[s.pc + 0] == T[0] && P[s.pc + 1] == T[1] && P[s.pc + 2] == T[2];
    var a := Reg(s, base) + off;
    StepConst(P, s);
    var s1 := State(s.pc + 1, s.regs[0 := off], s.mem);
    StepAlu(P, s1);
    var s2 := State(s.pc + 2, s.regs[0 := a], s.mem);
    assert s1.regs[0 := off + Reg(s, base)] == s2.regs;
    StepSet(P, s2);
    var s3 := State(s.pc + 3, s2.regs, s.mem[a := a]);
    RunCons(P, s2, s3, 0);
    RunCons(P, s1, s2, 1);
    RunCons(P, s, s1, 2);
  }

  /** The frame stores with the address formed in a fresh register
      `spare` instead of r0. */
  function BaseStoresFixed(base: int, off: int, src: int, count: nat, spare: int): seq<Instr>
    decreases count
  {
    if count == 0 then []
    else [IntI(spare, off), Alu(Add, spare, spare, base), Set(spare, src)] + BaseStoresFixed(base, off + 1, src + 1, count - 1, spare)
  }

  /** With the address in a fresh register, the words `base + off ..`
      receive registers `src ..`, r0 included; only `spare` changes. */
  lemma {:induction false} BaseStoresFixedRun(P: seq<Instr>, s: State, base: int, off: int, src: int, count: nat, spare: int)
    requires At(P, s.pc, BaseStoresFixed(base, off, src, count, spare))
    requires base != spare && !(src <= spare < src + count)
    ensures var n := |BaseStoresFixed(base, off, src, count, spare)|;
      Run(P, s, n).Some? && Run(P, s, n).value.pc == s.pc + n &&
      Stored(s, Run(P, s, n).value, Reg(s, base) + off, src, count) &&
      forall x :: x != spare ==> Reg(Run(P, s, n).value, x) == Reg(s, x)
    decreases count
  {
    if count > 0 {
      var C := [IntI(spare, off), Alu(Add, spare, spare, base), Set(spare, src)];
      var rest := BaseStoresFixed(base, off + 1, src + 1, count - 1, spare);
      AtSplit(P, s.pc, C, rest);
      assert P[s.pc + 0] == C[0] && P[s.pc + 1] == C[1] && P[s.pc + 2] == C[2];
      StepConst(P, s);
      var s1 := State(s.pc + 1, s.regs[spare := off], s.mem);
      StepAlu(P, s1);
      var a0 := Reg(s, base) + off;
      var s2 := State(s.pc + 2, s.regs[spare := a0], s.mem);
      assert s1.regs[spare := off + Reg(s, base)] == s2.regs;
      StepSet(P, s2);
      var s3 := State(s.pc + 3, s2.regs, s.mem[a0 := Reg(s, src)]);
      RunCons(P, s2, s3, 0);
      RunCons(P, s1, s2, 1);
      RunCons(P, s, s1, 2);
      BaseStoresFixedRun(P, s3, base, off + 1, src + 1, count - 1, spare);
      var t := Run(P, s3, |rest|).value;
      RunThen(P, s, 3, s3, |rest|, t);
      assert Run(P, s, |BaseStoresFixed(base, off, src, count, spare)|) == Some(t);
      forall y | src < y < src + count ensures Reg(s3, y) == Reg(s, y) {
      }
      StoredCons(s, s3, t, a0, src, count);
      forall x | x != spare ensures Reg(t, x) == Reg(s, x) {
        assert Reg(t, x) == Reg(s3, x);
      }
    }
  }

  /** `g = putchar(c)`: the store overwrites r0 with g's address before
      storing r0, so g receives its own address instead of the value. */
  lemma ConstStoresOfR0(P: seq<Instr>, s: State, addr: int)
    requires At(P, s.pc, ConstStores(addr, 0, 1))
    ensures Run(P, s, 2).Some? && Run(P, s, 2).value.pc == s.pc + 2
    ensures Word(Run(P, s, 2).value, addr) == addr
  {
    var T := ConstStores(addr, 0, 1);
    assert P[s.pc + 0] == T[0] && P[s.pc + 1] == T[1];
    StepConst(P, s);
    var s1 := State(s.pc + 1, s.regs[0 := addr], s.mem);
    StepSet(P, s1);
    var s2 := State(s.pc + 2, s1.regs, s.mem[addr := addr]);
    RunCons(P, s1, s2, 0);
    RunCons(P, s, s1, 1);
  }

  /** The global stores with the address in a fresh register `spare`. */
  function ConstStoresFixed(addr: int, src: int, count: nat, spare: int): seq<Instr>
    decreases count
  {
    if count == 0 then []
    else [IntI(spare, addr), Set(spare, src)] + ConstStoresFixed(addr + 1, src + 1, count - 1, spare)
  }

  /** With the address in a fresh register, the words `addr ..` receive
      registers `src ..`, r0 included; only `spare` changes. */
  lemma {:induction false} ConstStoresFixedRun(P: seq<Instr>, s: State, addr: int, src: int, count: nat, spare: int)
    requires At(P, s.pc, ConstStoresFixed(addr, src, count, spare)) && !(src <= spare < src + count)
    ensures var n := |ConstStoresFixed(addr, src, count, spare)|;
      Run(P, s, n).Some? && Run(P, s, n).value.pc == s.pc + n &&
      Stored(s, Run(P, s, n).value, addr, src, count) &&
      forall x :: x != spare ==> Reg(Run(P, s, n).value, x) == Reg(s, x)
    decreases count
  {
    if count > 0 {
      var C := [IntI(spare, addr), Set(spare, src)];
      var rest := ConstStoresFixed(addr + 1, src + 1, count - 1, spare);
      AtSplit(P, s.pc, C, rest);
      assert P[s.pc + 0] == C[0] && P[s.pc + 1] == C[1];
      StepConst(P, s);
      var s1 := State(s.pc + 1, s.regs[spare := addr], s.mem);
      StepSet(P, s1);
      var s2 := State(s.pc + 2, s1.regs, s.mem[addr := Reg(s, src)]);
      RunCons(P, s1, s2, 0);
      RunCons(P, s, s1, 1);
      ConstStoresFixedRun(P, s2, addr + 1, src + 1, count - 1, spare);
      var t := Run(P, s2, |rest|).value;
      RunThen(P, s, 2, s2, |rest|, t);
      assert Run(P, s, |ConstStoresFixed(addr, src, count, spare)|) == Some(t);
      forall y | src < y < src + count ensures Reg(s2, y) == Reg(s, y) {
      }
      StoredCons(s, s2, t, addr, src, count);
      forall x | x != spare ensures Reg(t, x) == Reg(s, x) {
        assert Reg(t, x) == Reg(s2, x);
      }
    }
  }

  /** The loads of emit_deref: word i comes from `r0 <- int off+i;
      r0 <- add r0 base; dst+i <- get r1 r0`. */
  function BaseLoads(base: int, off: int, dst: int, count: nat): seq<Instr>
    decreases count
  {
    if count == 0 then []
    else [IntI(0, off), Alu(Add, 0, 0, base), Get(dst, 0)] + BaseLoads(base, off + 1, dst + 1, count - 1)
  }

  /** Registers `dst ..` receive words `base + off ..`; memory is unchanged
      and so is every other register but r0. */
  lemma {:induction false} BaseLoadsRun(P: seq<Instr>, s: State, base: int, off: int, dst: int, count: nat)
    requires At(P, s.pc, BaseLoads(base, off, dst, count))
    requires base != 0 && dst > 0 && !(dst <= base < dst + count)
    ensures var n := |BaseLoads(base, off, dst, count)|;
      Run(P, s, n).Some? && Run(P, s, n).value.pc == s.pc + n && Run(P, s, n).value.mem == s.mem &&
      Loaded(s, Run(P, s, n).value, Reg(s, base) + off, dst, count) &&
      forall x :: x != 0 && !(dst <= x < dst + count) ==> Reg(Run(P, s, n).value, x) == Reg(s, x)
    decreases count
  {
    if count > 0 {
      var C := [IntI(0, off), Alu(Add, 0, 0, base), Get(dst, 0)];
      var rest := BaseLoads(base, off + 1, dst + 1, count - 1);
      AtSplit(P, s.pc, C, rest);
      assert P[s.pc + 0] == C[0] && P[s.pc + 1] == C[1] && P[s.pc + 2] == C[2];
      StepConst(P, s);
      var s1 := State(s.pc + 1, s.regs[0 := off], s.mem);
      StepAlu(P, s1);
      var a0 := Reg(s, base) + off;
      var s2 := State(s.pc + 2, s.regs[0 := a0], s.mem);
      assert s1.regs[0 := off + Reg(s, base)] == s2.regs;
      StepGet(P, s2);
      var s3 := State(s.pc + 3, s2.regs[dst := Word(s, a0)], s.mem);
      RunCons(P, s2, s3, 0);
      RunCons(P, s1, s2, 1);
      RunCons(P, s, s1, 2);
      BaseLoadsRun(P, s3, base, off + 1, dst + 1, count - 1);
      var t := Run(P, s3, |rest|).value;
      RunThen(P, s, 3, s3, |rest|, t);
      assert Run(P, s, |BaseLoads(base, off, dst, count)|) == Some(t);
      assert Reg(s3, base) == Reg(s, base);
      assert Reg(t, dst) == Reg(s3, dst);
      LoadedCons(s, s3, t, a0, dst, count);
      forall x | x != 0 && !(dst <= x < dst + count) ensures Reg(t, x) == Reg(s, x) {
        assert Reg(t, x) == Reg(s3, x);
      }
    }
  }

  /** The loads of emit_gvar and of the frame pointer in every function
      prologue: register `dst + i` receives the word at constant `addr + i`. */
  function ConstLoads(addr: int, dst: int, count: nat): seq<Instr>
    decreases count
  {
    if count == 0 then []
    else [IntI(0, addr), Get(dst, 0)] + ConstLoads(addr + 1, dst + 1, count - 1)
  }

  lemma {:induction false} ConstLoadsRun(P: seq<Instr>, s: State, addr: int, dst: int, count: nat)
    requires At(P, s.pc, ConstLoads(addr, dst, count)) && dst > 0
    ensures var n := |ConstLoads(addr, dst, count)|;
      Run(P, s, n).Some? && Run(P, s, n).value.pc == s.pc + n && Run(P, s, n).value.mem == s.mem &&
      Loaded(s, Run(P, s, n).value, addr, dst, count) &&
      forall x :: x != 0 && !(dst <= x < dst + count) ==> Reg(Run(P, s, n).value, x) == Reg(s, x)
    decreases count
  {
    if count > 0 {
      var C := [IntI(0, addr), Get(dst, 0)];
      var rest := ConstLoads(addr + 1, dst + 1, count - 1);
      AtSplit(P, s.pc, C, rest);
      assert P[s.pc + 0] == C[0] && P[s.pc + 1] == C[1];
      StepConst(P, s);
      var s1 := State(s.pc + 1, s.regs[0 := addr], s.mem);
      StepGet(P, s1);
      var s2 := State(s.pc + 2, s1.regs[dst := Word(s, addr)], s.mem);
      RunCons(P, s1, s2, 0);
      RunCons(P, s, s1, 1);
      ConstLoadsRun(P, s2, addr + 1, dst + 1, count - 1);
      var t := Run(P, s2, |rest|).value;
      RunThen(P, s, 2, s2, |rest|, t);
      assert Run(P, s, |ConstLoads(addr, dst, count)|) == Some(t);
      assert Reg(t, dst) == Reg(s2, dst);
      LoadedCons(s, s2, t, addr, dst, count);
      forall x | x != 0 && !(dst <= x < dst + count) ensures Reg(t, x) == Reg(s, x) {
        assert Reg(t, x) == Reg(s2, x);
      }
    }
  }

  /** One word of an address-computed load: `emit_add_ri(base, off)`
      then `dst <- get r1 where`. */
  function LoadChunk(base: int, off: int, dst: int, spare: int): seq<Instr> {
    AddRICode(base, off, spare) + [Get(dst, AddRIReg(base, off, spare))]
  }

  /** The loads of emit_lvar and of a call's result: register `dst + i`
      receives the word at `emit_add_ri(base, off + i)`. */
  function AddrLoads(base: int, off: int, dst: int, count: nat, spare: int): seq<Instr>
    decreases count
  {
    if count == 0 then []
    else LoadChunk(base, off, dst, spare) + AddrLoads(base, off + 1, dst + 1, count - 1, AddRINext(off, spare))
  }

  lemma LoadChunkRun(P: seq<Instr>, s: State, base: int, off: int, dst: int, spare: int)
    requires At(P, s.pc, LoadChunk(base, off, dst, spare)) && base != spare && dst != spare
    ensures Run(P, s, |LoadChunk(base, off, dst, spare)|) ==
      Some(State(s.pc + |LoadChunk(base, off, dst, spare)|,
        (if off == 0 then s.regs else s.regs[spare := Reg(s, base) + off])[dst := Word(s, Reg(s, base) + off)],
        s.mem))
  {
    var A := AddRICode(base, off, spare);
    var w := AddRIReg(base, off, spare);
    AtSplit(P, s.pc, A, [Get(dst, w)]);
    AddRIRun(P, s, base, off, spare);
    var s1 := State(s.pc + |A|, if off == 0 then s.regs else s.regs[spare := Reg(s, base) + off], s.mem);
    assert P[s1.pc + 0] == [Get(dst, w)][0];
    StepGet(P, s1);
    var s2 := State(s1.pc + 1, s1.regs[dst := Word(s, Reg(s, base) + off)], s.mem);
    RunCons(P, s1, s2, 0);
    RunThen(P, s, |A|, s1, 1, s2);
  }

  /** `n` steps lead from `s` to `t`, which has words `addr ..` loaded
      into registers `dst ..`, the same memory, and every other register
      below `lo` unchanged. */
  ghost predicate LoadRan(P: seq<Instr>, s: State, n: nat, t: State, addr: int, dst: int, count: nat, lo: int) {
    Run(P, s, n) == Some(t) && t.pc == s.pc + n && t.mem == s.mem && Loaded(s, t, addr, dst, count) &&
    forall x :: x < lo && !(dst <= x < dst + count) ==> Reg(t, x) == Reg(s, x)
  }

  /** A run loading the first word, then a run loading the rest. */
  lemma LoadRanCons(P: seq<Instr>, s: State, n1: nat, s2: State, n2: nat, t: State, addr: int, dst: int, count: nat, lo: int, lo2: int)
    requires count > 0 && dst + count <= lo <= lo2
    requires Run(P, s, n1) == Some(s2) && s2.pc == s.pc + n1 && s2.mem == s.mem
    requires Reg(s2, dst) == Word(s, addr)
    requires forall x :: x < lo && x != dst ==> Reg(s2, x) == Reg(s, x)
    requires LoadRan(P, s2, n2, t, addr + 1, dst + 1, count - 1, lo2)
    ensures LoadRan(P, s, n1 + n2, t, addr, dst, count, lo)
  {
    RunThen(P, s, n1, s2, n2, t);
    assert Reg(t, dst) == Reg(s2, dst);
    LoadedCons(s, s2, t, addr, dst, count);
    forall x | x < lo && !(dst <= x < dst + count) ensures Reg(t, x) == Reg(s, x) {
      assert Reg(t, x) == Reg(s2, x);
    }
  }

  /** The state after one load chunk. */
  function LoadChunkEnd(s: State, base: int, off: int, dst: int, spare: int): State {
    var a0 := Reg(s, base) + off;
    State(s.pc + |LoadChunk(base, off, dst, spare)|,
      (if off == 0 then s.regs else s.regs[spare := a0])[dst := Word(s, a0)], s.mem)
  }

  /** Registers `dst ..` receive words `base + off ..`, provided the target
      registers lie below the spare ones (a single-word call result, or the
      block emit_lvar reserves); memory is unchanged. */
  lemma {:induction false} AddrLoadsRun(P: seq<Instr>, s: State, base: int, off: int, dst: int, count: nat, spare: int)
    returns (t: State)
    requires At(P, s.pc, AddrLoads(base, off, dst, count, spare))
    requires base < spare && dst + count <= spare && !(dst <= base < dst + count)
    ensures LoadRan(P, s, |AddrLoads(base, off, dst, count, spare)|, t, Reg(s, base) + off, dst, count, spare)
    decreases count
  {
    if count > 0 {
      var C := LoadChunk(base, off, dst, spare);
      var rest := AddrLoads(base, off + 1, dst + 1, count - 1, AddRINext(off, spare));
      AtSplit(P, s.pc, C, rest);
      var s2 := LoadChunkEnd(s, base, off, dst, spare);
      t := AddrLoadsRun(P, s2, base, off + 1, dst + 1, count - 1, AddRINext(off, spare));
      AddrLoadsStep(P, s, base, off, dst, count, spare, t);
    } else {
      t := s;
      assert Run(P, s, 0) == Some(s);
    }
  }

  lemma AddrLoadsStep(P: seq<Instr>, s: State, base: int, off: int, dst: int, count: nat, spare: int, t: State)
    requires count > 0 && At(P, s.pc, LoadChunk(base, off, dst, spare))
    requires base < spare && dst + count <= spare && !(dst <= base < dst + count)
    requires var s2 := LoadChunkEnd(s, base, off, dst, spare);
      LoadRan(P, s2, |AddrLoads(base, off + 1, dst + 1, count - 1, AddRINext(off, spare))|, t,
        Reg(s2, base) + off + 1, dst + 1, count - 1, AddRINext(off, spare))
    ensures LoadRan(P, s, |AddrLoads(base, off, dst, count, spare)|, t, Reg(s, base) + off, dst, count, spare)
  {
    var C := LoadChunk(base, off, dst, spare);
    var rest := AddrLoads(base, off + 1, dst + 1, count - 1, AddRINext(off, spare));
    LoadChunkRun(P, s, base, off, dst, spare);
    var a0 := Reg(s, base) + off;
    var s2 := LoadChunkEnd(s, base, off, dst, spare);
    forall x | x < spare && x != dst ensures Reg(s2, x) == Reg(s, x) {
    }
    assert Reg(s2, base) == Reg(s, base);
    assert |AddrLoads(base, off, dst, count, spare)| == |C| + |rest|;
    LoadRanCons(P, s, |C|, s2, |rest|, t, a0, dst, count, spare, AddRINext(off, spare));
  }

  // ---------------------------------------------------------------------
  // Arithmetic (emit_binop)
  // ---------------------------------------------------------------------

  /** The opcode emit_binop uses for an arithmetic or bitwise operator. */
  function AluFor(op: BinOp): AluOp
    requires op in {Plus, Minus, Times, Divide, Modulo, BitOr, BitAnd, BitXor, Sal, Sar, Shl, Shr}
  {
    match op
    case Plus => Add
    case Minus => Sub
    case Times => Mul
    case Divide => Div
    case Modulo => Mod
    case BitOr => BOr
    case BitAnd => BAnd
    case BitXor => BXor
    case Sal => BShl
    case Shl => BShl
    case _ => BShr
  }

  /** `+`, `-` and `*` compute the sum, difference and product. */
  lemma ArithRun(P: seq<Instr>, s: State, op: BinOp, ret: int, l: int, r: int)
    requires op in {Plus, Minus, Times}
    requires 0 <= s.pc < |P| && P[s.pc] == Alu(AluFor(op), ret, l, r)
    ensures Step(P, s) == Some(State(s.pc + 1, s.regs[ret :=
      if op == Plus then Reg(s, l) + Reg(s, r)
      else if op == Minus then Reg(s, l) - Reg(s, r)
      else Reg(s, l) * Reg(s, r)], s.mem))
  {
    StepAlu(P, s);
  }

  /** `/`: a division, followed for integer types by
      `r0 <- int 1; r0 <- mod ret r0; ret <- sub ret r0`, which drops the
      fraction the VM's numeric division leaves. */
  function DivCode(ret: int, l: int, r: int, isInt: bool): seq<Instr> {
    [Alu(Div, ret, l, r)] +
    (if isInt then [IntI(0, 1), Alu(Mod, 0, ret, 0), Alu(Sub, ret, ret, 0)] else [])
  }

  /** When the quotient is exact both forms leave it in `ret`. */
  lemma DivRun(P: seq<Instr>, s: State, ret: int, l: int, r: int, isInt: bool)
    requires At(P, s.pc, DivCode(ret, l, r, isInt)) && ret != 0
    requires Reg(s, r) != 0 && Reg(s, l) % Reg(s, r) == 0
    ensures var n := |DivCode(ret, l, r, isInt)|;
      Run(P, s, n).Some? && Run(P, s, n).value.pc == s.pc + n &&
      Reg(Run(P, s, n).value, ret) == Reg(s, l) / Reg(s, r) &&
      Run(P, s, n).value.mem == s.mem
  {
    var T := DivCode(ret, l, r, isInt);
    var q := Reg(s, l) / Reg(s, r);
    assert P[s.pc + 0] == T[0];
    StepDiv(P, s);
    var s1 := State(s.pc + 1, s.regs[ret := q], s.mem);
    if isInt {
      assert P[s.pc + 1] == T[1] && P[s.pc + 2] == T[2] && P[s.pc + 3] == T[3];
      StepConst(P, s1);
      var s2 := State(s.pc + 2, s1.regs[0 := 1], s.mem);
      StepModOne(P, s2);
      var s3 := State(s.pc + 3, s1.regs[0 := 0], s.mem);
      assert s2.regs[0 := 0] == s3.regs;
      StepAlu(P, s3);
      var t := State(s.pc + 4, s3.regs[ret := q - 0], s.mem);
      RunCons(P, s3, t, 0);
      RunCons(P, s2, s3, 1);
      RunCons(P, s1, s2, 2);
      RunCons(P, s, s1, 3);
    } else {
      RunCons(P, s, s1, 0);
    }
  }

  // ---------------------------------------------------------------------
  // Pointer arithmetic (emit_binop, pointer and array left operands)
  // ---------------------------------------------------------------------

  /** `p + n` and `p - n` for an integer `n`: `emit_mul_ri(rhs, size)`
      into registers from `rreg + 1`, then `rreg <- add lhs scaled` (or
      `sub`). */
  function PtrOffsetCode(op: AluOp, lhs: int, rhs: int, size: int, rreg: int): seq<Instr> {
    MulRICode(rhs, size, rreg + 1) + [Alu(op, rreg, lhs, MulRIReg(rhs, size, rreg + 1))]
  }

  /** The scaled pointer sum or difference lands in `rreg`. */
  lemma PtrOffsetRun(P: seq<Instr>, s: State, op: AluOp, lhs: int, rhs: int, size: int, rreg: int)
    requires op == Add || op == Sub
    requires At(P, s.pc, PtrOffsetCode(op, lhs, rhs, size, rreg))
    requires rreg + 1 != rhs && rreg + 1 != lhs
    ensures var n := |PtrOffsetCode(op, lhs, rhs, size, rreg)|;
      Run(P, s, n).Some? && Run(P, s, n).value.pc == s.pc + n &&
      Reg(Run(P, s, n).value, rreg) ==
        (if op == Sub then Reg(s, lhs) - Reg(s, rhs) * size else Reg(s, lhs) + Reg(s, rhs) * size) &&
      Run(P, s, n).value.mem == s.mem
  {
    var M := MulRICode(rhs, size, rreg + 1);
    var w := MulRIReg(rhs, size, rreg + 1);
    var last := Alu(op, rreg, lhs, w);
    AtSplit(P, s.pc, M, [last]);
    MulRIRun(P, s, rhs, size, rreg + 1);
    var s1 := State(s.pc + |M|, if size == 1 then s.regs else s.regs[rreg + 1 := Reg(s, rhs) * size], s.mem);
    var v := if op == Sub then Reg(s, lhs) - Reg(s, rhs) * size else Reg(s, lhs) + Reg(s, rhs) * size;
    assert P[s1.pc + 0] == [last][0];
    PtrOffsetLast(P, s1, op, rreg, lhs, w, Reg(s, lhs), Reg(s, rhs) * size, v);
    var t := State(s1.pc + 1, s1.regs[rreg := v], s.mem);
    RunThen(P, s, |M|, s1, 1, t);
  }

  lemma PtrOffsetLast(P: seq<Instr>, s: State, op: AluOp, rreg: int, lhs: int, w: int, a: int, b: int, v: int)
    requires (op == Add || op == Sub) && 0 <= s.pc < |P| && P[s.pc] == Alu(op, rreg, lhs, w)
    requires Reg(s, lhs) == a && Reg(s, w) == b && v == (if op == Sub then a - b else a + b)
    ensures Run(P, s, 1) == Some(State(s.pc + 1, s.regs[rreg := v], s.mem))
  {
    StepAlu(P, s);
    RunCons(P, s, State(s.pc + 1, s.regs[rreg := v], s.mem), 0);
  }

  /** `p - q` for two pointers: the raw difference, divided by the pointee
      size when that is not 1. */
  function PtrDiffCode(lhs: int, rhs: int, size: int, rreg: int): seq<Instr> {
    [Alu(Sub, rreg, lhs, rhs)] + (if size == 1 then [] else [IntI(0, size), Alu(Div, rreg, rreg, 0)])
  }

  /** The number of elements between the two pointers lands in `rreg`, when
      the byte distance is a whole number of elements. */
  lemma PtrDiffRun(P: seq<Instr>, s: State, lhs: int, rhs: int, size: int, rreg: int)
    requires At(P, s.pc, PtrDiffCode(lhs, rhs, size, rreg)) && rreg != 0
    requires size != 0 && (Reg(s, lhs) - Reg(s, rhs)) % size == 0
    ensures var n := |PtrDiffCode(lhs, rhs, size, rreg)|;
      Run(P, s, n).Some? && Run(P, s, n).value.pc == s.pc + n &&
      Reg(Run(P, s, n).value, rreg) == (Reg(s, lhs) - Reg(s, rhs)) / size &&
      Run(P, s, n).value.mem == s.mem
  {
    var T := PtrDiffCode(lhs, rhs, size, rreg);
    var d := Reg(s, lhs) - Reg(s, rhs);
    assert P[s.pc + 0] == T[0];
    StepAlu(P, s);
    var s1 := State(s.pc + 1, s.regs[rreg := d], s.mem);
    if size == 1 {
      RunCons(P, s, s1, 0);
    } else {
      assert P[s.pc + 1] == T[1] && P[s.pc + 2] == T[2];
      StepConst(P, s1);
      var s2 := State(s.pc + 2, s1.regs[0 := size], s.mem);
      StepDiv(P, s2);
      var t := State(s.pc + 3, s2.regs[rreg := d / size], s.mem);
      RunCons(P, s2, t, 0);
      RunCons(P, s1, s2, 1);
      RunCons(P, s, s1, 2);
    }
  }

  /** The in-place postfix add: `ret <- get r1 addr`, for pointers
      `r0 <- int size; add <- mul add r0`, then `r0 <- add ret add;
      set r1 addr r0`. */
  function IpAddCode(addr: int, add: int, ret: int, isPtr: bool, size: int): seq<Instr> {
    [Get(ret, addr)] +
    (if isPtr then [IntI(0, size), Alu(Mul, add, add, 0)] else []) +
    [Alu(Add, 0, ret, add), Set(addr, 0)]
  }

  /** The result is the old word; the word becomes the old value plus the
      addend, scaled by the pointee size for pointers. */
  lemma IpAddRun(P: seq<Instr>, s: State, addr: int, add: int, ret: int, isPtr: bool, size: int)
    requires At(P, s.pc, IpAddCode(addr, add, ret, isPtr, size))
    requires 0 != addr && 0 != add && 0 != ret && addr != ret && add != ret && add != addr
    ensures var n := |IpAddCode(addr, add, ret, isPtr, size)|;
      var a := Reg(s, addr);
      var step := if isPtr then Reg(s, add) * size else Reg(s, add);
      Run(P, s, n).Some? && Run(P, s, n).value.pc == s.pc + n &&
      Reg(Run(P, s, n).value, ret) == Word(s, a) &&
      Run(P, s, n).value.mem == s.mem[a := Word(s, a) + step]
  {
    var T := IpAddCode(addr, add, ret, isPtr, size);
    var a := Reg(s, addr);
    var old0 := Word(s, a);
    var step := if isPtr then Reg(s, add) * size else Reg(s, add);
    assert P[s.pc + 0] == T[0];
    StepGet(P, s);
    var s1 := State(s.pc + 1, s.regs[ret := old0], s.mem);
    var k := |T| - 2;
    var s3 := IpAddScaled(P, s, s1, addr, add, ret, isPtr, size);
    assert P[s3.pc] == T[k] && P[s3.pc + 1] == T[k + 1];
    var t := State(s3.pc + 2, s3.regs[0 := old0 + step], s.mem[a := old0 + step]);
    IpAddStoreRun(P, s3, addr, add, ret);
    RunThen(P, s1, k - 1, s3, 2, t);
    RunCons(P, s, s1, k + 1);
    assert Run(P, s, |T|) == Some(t);
  }

  /** The middle of the in-place add, after the load into `ret`: for a
      pointer the addend is scaled by the pointee size, otherwise nothing
      runs. */
  lemma IpAddScaled(P: seq<Instr>, s: State, s1: State, addr: int, add: int, ret: int, isPtr: bool, size: int)
    returns (s3: State)
    requires At(P, s.pc, IpAddCode(addr, add, ret, isPtr, size))
    requires 0 != addr && 0 != add && 0 != ret && addr != ret && add != ret && add != addr
    requires s1 == State(s.pc + 1, s.regs[ret := Word(s, Reg(s, addr))], s.mem)
    ensures var k := |IpAddCode(addr, add, ret, isPtr, size)| - 2;
      s3.pc == s.pc + k && Run(P, s1, k - 1) == Some(s3) && s3.mem == s.mem &&
      Reg(s3, ret) == Word(s, Reg(s, addr)) && Reg(s3, addr) == Reg(s, addr) &&
      Reg(s3, add) == (if isPtr then Reg(s, add) * size else Reg(s, add))
  {
    var T := IpAddCode(addr, add, ret, isPtr, size);
    if isPtr {
      assert P[s.pc + 1] == T[1] && P[s.pc + 2] == T[2];
      IpAddScaleRun(P, s1, add, size);
      s3 := State(s.pc + 3, s1.regs[0 := size][add := Reg(s, add) * size], s.mem);
    } else {
      s3 := s1;
    }
  }

  /** The scaling of the addend: `r0 <- int size; add <- mul add r0`. */
  lemma IpAddScaleRun(P: seq<Instr>, s: State, add: int, size: int)
    requires 0 <= s.pc && s.pc + 2 <= |P| && add != 0
    requires P[s.pc] == IntI(0, size) && P[s.pc + 1] == Alu(Mul, add, add, 0)
    ensures Run(P, s, 2) == Some(State(s.pc + 2, s.regs[0 := size][add := Reg(s, add) * size], s.mem))
  {
    StepConst(P, s);
    var s1 := State(s.pc + 1, s.regs[0 := size], s.mem);
    StepAlu(P, s1);
    var t := State(s.pc + 2, s1.regs[add := Reg(s, add) * size], s.mem);
    RunCons(P, s1, t, 0);
    RunCons(P, s, s1, 1);
  }

  /** The store of the sum: `r0 <- add ret add; set r1 addr r0`. */
  lemma IpAddStoreRun(P: seq<Instr>, s: State, addr: int, add: int, ret: int)
    requires 0 <= s.pc && s.pc + 2 <= |P| && addr != 0
    requires P[s.pc] == Alu(Add, 0, ret, add) && P[s.pc + 1] == Set(addr, 0)
    ensures Run(P, s, 2) == Some(State(s.pc + 2, s.regs[0 := Reg(s, ret) + Reg(s, add)],
      s.mem[Reg(s, addr) := Reg(s, ret) + Reg(s, add)]))
  {
    StepAlu(P, s);
    var v := Reg(s, ret) + Reg(s, add);
    var s1 := State(s.pc + 1, s.regs[0 := v], s.mem);
    StepSet(P, s1);
    var t := State(s.pc + 2, s1.regs, s.mem[Reg(s, addr) := v]);
    RunCons(P, s1, t, 0);
    RunCons(P, s, s1, 1);
  }

  // ---------------------------------------------------------------------
  // Calls (emit_pre_call, emit_post_call) and frames
  // ---------------------------------------------------------------------

  /** `r0 <- int stackn; reg <- add r2 r0; r0 <- int 1; set r1 r0 reg`. */
  function PreCallCode(stackn: int, reg: int): seq<Instr> {
    [IntI(0, stackn), Alu(Add, reg, 2, 0), IntI(0, 1), Set(0, reg)]
  }

  /** The callee's frame pointer, kept in word 1, is the caller's frame
      pointer (r2) plus the caller's frame size: the new frame starts just
      past the caller's locals, where emit_args put the arguments. */
  lemma PreCallRun(P: seq<Instr>, s: State, stackn: int, reg: int)
    requires At(P, s.pc, PreCallCode(stackn, reg)) && reg != 0 && reg != 2
    ensures Run(P, s, 4) == Some(State(s.pc + 4,
      s.regs[0 := 1][reg := Reg(s, 2) + stackn], s.mem[1 := Reg(s, 2) + stackn]))
  {
    var k := s.pc;
    var T := PreCallCode(stackn, reg);
    assert P[k + 0] == T[0] && P[k + 1] == T[1] && P[k + 2] == T[2] && P[k + 3] == T[3];
    var f := Reg(s, 2) + stackn;
    StepConst(P, s);
    var s1 := State(k + 1, s.regs[0 := stackn], s.mem);
    StepAlu(P, s1);
    var s2 := State(k + 2, s1.regs[reg := f], s.mem);
    StepConst(P, s2);
    var s3 := State(k + 3, s.regs[0 := 1][reg := f], s.mem);
    assert s2.regs[0 := 1] == s3.regs;
    StepSet(P, s3);
    var t := State(k + 4, s3.regs, s.mem[1 := f]);
    RunCons(P, s3, t, 0);
    RunCons(P, s2, s3, 1);
    RunCons(P, s1, s2, 2);
    RunCons(P, s, s1, 3);
  }

  /** `set r1 r0 r2` after the call: with r0 still 1 it restores the
      caller's frame pointer in word 1. */
  lemma PostCallRun(P: seq<Instr>, s: State)
    requires 0 <= s.pc < |P| && P[s.pc] == Set(0, 2) && Reg(s, 0) == 1
    ensures Step(P, s) == Some(State(s.pc + 1, s.regs, s.mem[1 := Reg(s, 2)]))
  {
    StepSet(P, s);
  }

  /** The start of every function: `r0 <- int 1; r2 <- get r1 r0`. */
  function FrameCode(): seq<Instr> {
    [IntI(0, 1), Get(2, 0)]
  }

  /** The function reads its frame pointer from word 1 into r2. */
  lemma FrameRun(P: seq<Instr>, s: State)
    requires At(P, s.pc, FrameCode())
    ensures Run(P, s, 2) == Some(State(s.pc + 2, s.regs[0 := 1][2 := Word(s, 1)], s.mem))
  {
    var T := FrameCode();
    assert P[s.pc + 0] == T[0] && P[s.pc + 1] == T[1];
    StepConst(P, s);
    var s1 := State(s.pc + 1, s.regs[0 := 1], s.mem);
    StepGet(P, s1);
    var t := State(s.pc + 2, s1.regs[2 := Word(s, 1)], s.mem);
    RunCons(P, s1, t, 0);
    RunCons(P, s, s1, 1);
  }

  // ---------------------------------------------------------------------
  // Constant pokes (the `__entry_init` block of `_start`)
  // ---------------------------------------------------------------------

  /** One queued word: an address and the constant it receives. */
  datatype Poke = Poke(addr: int, val: int)

  /** `r0 <- int addr; r2 <- int val; set r1 r0 r2` per poke. */
  function PokesCode(ps: seq<Poke>): seq<Instr>
    decreases |ps|
  {
    if |ps| == 0 then []
    else [IntI(0, ps[0].addr), IntI(2, ps[0].val), Set(0, 2)] + PokesCode(ps[1..])
  }

  /** Memory after the pokes, in order (a later poke wins). */
  function Poked(m: map<int, int>, ps: seq<Poke>): map<int, int>
    decreases |ps|
  {
    if |ps| == 0 then m else Poked(m[ps[0].addr := ps[0].val], ps[1..])
  }

  /** The last poke to an address decides its word; other words keep
      their value. */
  lemma {:induction false} PokedAt(m: map<int, int>, ps: seq<Poke>, a: int)
    ensures a in Poked(m, ps) <==> a in m || exists i :: 0 <= i < |ps| && ps[i].addr == a
    ensures (forall i :: 0 <= i < |ps| ==> ps[i].addr != a) ==> (a in m ==> Poked(m, ps)[a] == m[a])
    ensures |ps| > 0 && ps[|ps| - 1].addr == a ==> Poked(m, ps)[a] == ps[|ps| - 1].val
    decreases |ps|
  {
    if |ps| > 0 {
      var m1 := m[ps[0].addr := ps[0].val];
      PokedAt(m1, ps[1..], a);
      if a in Poked(m, ps) && !(a in m) && ps[0].addr != a {
        var i :| 0 <= i < |ps[1..]| && ps[1..][i].addr == a;
        assert ps[i + 1].addr == a;
      }
      if exists i :: 0 <= i < |ps| && ps[i].addr == a {
        var i :| 0 <= i < |ps| && ps[i].addr == a;
        if i > 0 { assert ps[1..][i - 1].addr == a; }
      }
      if |ps| > 1 { assert ps[1..][|ps[1..]| - 1] == ps[|ps| - 1]; }
    }
  }

  /** Running the pokes writes exactly `Poked`; only r0 and r2 change. */
  lemma {:induction false} PokesRun(P: seq<Instr>, s: State, ps: seq<Poke>)
    requires At(P, s.pc, PokesCode(ps))
    ensures var n := |PokesCode(ps)|;
      Run(P, s, n).Some? && Run(P, s, n).value.pc == s.pc + n &&
      Run(P, s, n).value.mem == Poked(s.mem, ps) &&
      forall x :: x != 0 && x != 2 ==> Reg(Run(P, s, n).value, x) == Reg(s, x)
    decreases |ps|
  {
    if |ps| > 0 {
      var C := [IntI(0, ps[0].addr), IntI(2, ps[0].val), Set(0, 2)];
      var rest := PokesCode(ps[1..]);
      AtSplit(P, s.pc, C, rest);
      assert P[s.pc + 0] == C[0] && P[s.pc + 1] == C[1] && P[s.pc + 2] == C[2];
      StepConst(P, s);
      var s1 := State(s.pc + 1, s.regs[0 := ps[0].addr], s.mem);
      StepConst(P, s1);
      var s2 := State(s.pc + 2, s1.regs[2 := ps[0].val], s.mem);
      StepSet(P, s2);
      var s3 := State(s.pc + 3, s2.regs, s.mem[ps[0].addr := ps[0].val]);
      RunCons(P, s2, s3, 0);
      RunCons(P, s1, s2, 1);
      RunCons(P, s, s1, 2);
      PokesRun(P, s3, ps[1..]);
      var t := Run(P, s3, |rest|).value;
      RunThen(P, s, 3, s3, |rest|, t);
      assert Run(P, s, |PokesCode(ps)|) == Some(t);
      forall x | x != 0 && x != 2 ensures Reg(t, x) == Reg(s, x) {
        assert Reg(t, x) == Reg(s3, x);
      }
    }
  }
}
