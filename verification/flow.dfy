/** The branching shapes of both generators: `&&`, `||`, `if` and the
    conditional operator. Each is a layout function putting the code of
    the operands between fixed labels, and a lemma saying where control
    goes and what ends up in the result register, given what the operand
    code does (which the lemma takes as hypotheses, since operands are
    arbitrary expressions). */
module Flow {

  import opened Wrappers
  import opened Machine
  import opened Patterns

  /** `l` is defined nowhere in `S`. */
  ghost predicate Undefined(S: seq<Instr>, l: Label) {
    forall i :: 0 <= i < |S| ==> S[i] != Lab(l)
  }

  /** A label defined once, after code that does not define it, is found
      where it is defined. */
  lemma FindAfter(P: seq<Instr>, k: int, A: seq<Instr>, l: Label, B: seq<Instr>)
    requires At(P, k, A + [Lab(l)] + B) && NoDefBefore(P, k, l) && Undefined(A, l)
    ensures Find(P, l) == k + |A|
  {
    var T := A + [Lab(l)] + B;
    forall i | 0 <= i < |A| ensures T[i] != Lab(l) {
      assert T[i] == A[i];
    }
    assert T[|A|] == Lab(l);
    FindInside(P, k, T, |A|, l);
  }

  lemma UndefinedCat(A: seq<Instr>, B: seq<Instr>, l: Label)
    requires Undefined(A, l) && Undefined(B, l)
    ensures Undefined(A + B, l)
  {
    forall i | 0 <= i < |A + B| ensures (A + B)[i] != Lab(l) {
      if i < |A| { assert (A + B)[i] == A[i]; } else { assert (A + B)[i] == B[i - |A|]; }
    }
  }

  /** `@x; ret <- int v; jump end` leaves through `@end` with `ret` set. */
  lemma SetJumpRun(P: seq<Instr>, x: State, ret: int, v: int, end: Label)
    requires 0 <= x.pc && x.pc + 3 <= |P| && P[x.pc].Lab?
    requires P[x.pc + 1] == IntI(ret, v) && P[x.pc + 2] == Jump(end)
    requires 0 <= Find(P, end) && Find(P, end) + 1 <= |P|
    ensures Run(P, x, 4) == Some(State(Find(P, end) + 1, x.regs[ret := v], x.mem))
  {
    StepLab(P, x);
    var x1 := x.(pc := x.pc + 1);
    StepConst(P, x1);
    var x2 := State(x.pc + 2, x.regs[ret := v], x.mem);
    JumpPastRun(P, x2, end);
    RunCons(P, x1, x2, 2);
    RunCons(P, x, x1, 3);
  }

  /** `jump end` and then past `@end`. */
  lemma JumpPastRun(P: seq<Instr>, x: State, end: Label)
    requires 0 <= x.pc < |P| && P[x.pc] == Jump(end) && 0 <= Find(P, end)
    ensures Run(P, x, 2) == Some(State(Find(P, end) + 1, x.regs, x.mem))
  {
    StepJump(P, x);
    var x1 := x.(pc := Find(P, end));
    StepLab(P, x1);
    var t := x1.(pc := Find(P, end) + 1);
    RunCons(P, x1, t, 0);
    RunCons(P, x, x1, 1);
  }

  /** `@x; ret <- int v; @end` falls through with `ret` set. */
  lemma SetFallRun(P: seq<Instr>, x: State, ret: int, v: int)
    requires 0 <= x.pc && x.pc + 3 <= |P| && P[x.pc].Lab?
    requires P[x.pc + 1] == IntI(ret, v) && P[x.pc + 2].Lab?
    ensures Run(P, x, 3) == Some(State(x.pc + 3, x.regs[ret := v], x.mem))
  {
    StepLab(P, x);
    var x1 := x.(pc := x.pc + 1);
    StepConst(P, x1);
    var x2 := State(x.pc + 2, x.regs[ret := v], x.mem);
    StepLab(P, x2);
    var t := x2.(pc := x.pc + 3);
    RunCons(P, x2, t, 0);
    RunCons(P, x1, x2, 1);
    RunCons(P, x, x1, 2);
  }

  lemma StepLabReaches(P: seq<Instr>, x: State)
    requires 0 <= x.pc < |P| && P[x.pc].Lab?
    ensures Reaches(P, x, x.(pc := x.pc + 1))
  {
    StepLab(P, x);
    RunCons(P, x, x.(pc := x.pc + 1), 0);
    assert Run(P, x, 1) == Some(x.(pc := x.pc + 1));
  }

  lemma RunReaches(P: seq<Instr>, x: State, n: nat, y: State)
    requires Run(P, x, n) == Some(y)
    ensures Reaches(P, x, y)
  {
  }

  /** The four labels of a short-circuit shape: fresh before `k`, not
      defined by the operand code, pairwise distinct. */
  ghost predicate Fresh4(P: seq<Instr>, k: int, L: seq<Instr>, R: seq<Instr>, a: Label, b: Label, c: Label, d: Label) {
    NoDefBefore(P, k, a) && NoDefBefore(P, k, b) && NoDefBefore(P, k, c) && NoDefBefore(P, k, d) &&
    Undefined(L, a) && Undefined(L, b) && Undefined(L, c) && Undefined(L, d) &&
    Undefined(R, a) && Undefined(R, b) && Undefined(R, c) && Undefined(R, d) &&
    a != b && a != c && a != d && b != c && b != d && c != d
  }

  // ---------------------------------------------------------------------
  // && (src/gen.c emit_binop, OP_LOGAND)
  // ---------------------------------------------------------------------

  /** `L(f0, t1); @f0; ret <- int 0; jump end; @t1; R(f0, t2); @t2;
      ret <- int 1; @end`, where `L` and `R` are the operands' branch code. */
  function AndCode(L: seq<Instr>, R: seq<Instr>, ret: int, end: Label, f0: Label, t1: Label, t2: Label): seq<Instr> {
    L + [Lab(f0), IntI(ret, 0), Jump(end), Lab(t1)] + R + [Lab(t2), IntI(ret, 1), Lab(end)]
  }

  lemma AndFinds(P: seq<Instr>, k: int, L: seq<Instr>, R: seq<Instr>, ret: int, end: Label, f0: Label, t1: Label, t2: Label)
    requires At(P, k, AndCode(L, R, ret, end, f0, t1, t2)) && Fresh4(P, k, L, R, end, f0, t1, t2)
    ensures Find(P, f0) == k + |L| && Find(P, t1) == k + |L| + 3
    ensures Find(P, t2) == k + |L| + 4 + |R| && Find(P, end) == k + |L| + |R| + 6
  {
    AndFindLeft(P, k, L, R, ret, end, f0, t1, t2);
    AndFindRight(P, k, L, R, ret, end, f0, t1, t2);
  }

  lemma AndFindLeft(P: seq<Instr>, k: int, L: seq<Instr>, R: seq<Instr>, ret: int, end: Label, f0: Label, t1: Label, t2: Label)
    requires At(P, k, AndCode(L, R, ret, end, f0, t1, t2))
    requires NoDefBefore(P, k, f0) && NoDefBefore(P, k, t1) && Undefined(L, f0) && Undefined(L, t1) && f0 != t1
    ensures Find(P, f0) == k + |L| && Find(P, t1) == k + |L| + 3
  {
    var T := AndCode(L, R, ret, end, f0, t1, t2);
    var M1 := [Lab(f0), IntI(ret, 0), Jump(end)];
    var M2 := [Lab(t2), IntI(ret, 1)];
    assert T == L + [Lab(f0)] + ([IntI(ret, 0), Jump(end), Lab(t1)] + R + M2 + [Lab(end)]);
    FindAfter(P, k, L, f0, [IntI(ret, 0), Jump(end), Lab(t1)] + R + M2 + [Lab(end)]);
    assert Undefined(M1, t1);
    UndefinedCat(L, M1, t1);
    assert T == (L + M1) + [Lab(t1)] + (R + M2 + [Lab(end)]);
    FindAfter(P, k, L + M1, t1, R + M2 + [Lab(end)]);
  }

  lemma AndFindRight(P: seq<Instr>, k: int, L: seq<Instr>, R: seq<Instr>, ret: int, end: Label, f0: Label, t1: Label, t2: Label)
    requires At(P, k, AndCode(L, R, ret, end, f0, t1, t2)) && Fresh4(P, k, L, R, end, f0, t1, t2)
    ensures Find(P, t2) == k + |L| + 4 + |R| && Find(P, end) == k + |L| + |R| + 6
  {
    var T := AndCode(L, R, ret, end, f0, t1, t2);
    var M := [Lab(f0), IntI(ret, 0), Jump(end), Lab(t1)];
    var M2 := [Lab(t2), IntI(ret, 1)];
    var A := L + M + R;
    assert T == A + M2 + [Lab(end)];
    assert Undefined(M, t2) && Undefined(M, end) && Undefined(M2, end);
    UndefinedCat(L, M, t2);
    UndefinedCat(L + M, R, t2);
    assert T == A + [Lab(t2)] + [IntI(ret, 1), Lab(end)];
    FindAfter(P, k, A, t2, [IntI(ret, 1), Lab(end)]);
    UndefinedCat(L, M, end);
    UndefinedCat(L + M, R, end);
    UndefinedCat(A, M2, end);
    assert T == (A + M2) + [Lab(end)] + [];
    FindAfter(P, k, A + M2, end, []);
  }

  /** Where each instruction of the `&&` shape sits. */
  lemma AndShape(P: seq<Instr>, k: int, L: seq<Instr>, R: seq<Instr>, ret: int, end: Label, f0: Label, t1: Label, t2: Label)
    requires At(P, k, AndCode(L, R, ret, end, f0, t1, t2))
    ensures |AndCode(L, R, ret, end, f0, t1, t2)| == |L| + |R| + 7
    ensures P[k + |L|] == Lab(f0) && P[k + |L| + 1] == IntI(ret, 0) && P[k + |L| + 2] == Jump(end)
    ensures P[k + |L| + 3] == Lab(t1) && P[k + |L| + 4 + |R|] == Lab(t2)
    ensures P[k + |L| + 5 + |R|] == IntI(ret, 1) && P[k + |L| + 6 + |R|] == Lab(end)
  {
    var T := AndCode(L, R, ret, end, f0, t1, t2);
    assert P[k + |L|] == T[|L|] && P[k + |L| + 1] == T[|L| + 1] && P[k + |L| + 2] == T[|L| + 2];
    assert P[k + |L| + 3] == T[|L| + 3];
    assert P[k + |L| + 4 + |R|] == T[|L| + 4 + |R|];
    assert P[k + |L| + 5 + |R|] == T[|L| + |R| + 5] && P[k + |L| + 6 + |R|] == T[|L| + |R| + 6];
  }

  /** Passing a label and then running on. */
  lemma Via(P: seq<Instr>, s: State, a: State, b: State)
    requires Reaches(P, s, a) && 0 <= a.pc < |P| && P[a.pc].Lab?
    requires Reaches(P, a.(pc := a.pc + 1), b)
    ensures Reaches(P, s, b)
  {
    StepLabReaches(P, a);
    ReachesTrans(P, s, a, a.(pc := a.pc + 1));
    ReachesTrans(P, s, a.(pc := a.pc + 1), b);
  }

  /** Leaving through `@x; ret <- int 0; jump end`. */
  lemma ExitFalse(P: seq<Instr>, s: State, x: State, ret: int, end: Label)
    requires Reaches(P, s, x)
    requires 0 <= x.pc && x.pc + 3 <= |P| && P[x.pc].Lab?
    requires P[x.pc + 1] == IntI(ret, 0) && P[x.pc + 2] == Jump(end)
    requires 0 <= Find(P, end) && Find(P, end) + 1 <= |P|
    ensures Reaches(P, s, State(Find(P, end) + 1, x.regs[ret := 0], x.mem))
  {
    SetJumpRun(P, x, ret, 0, end);
    RunReaches(P, x, 4, State(Find(P, end) + 1, x.regs[ret := 0], x.mem));
    ReachesTrans(P, s, x, State(Find(P, end) + 1, x.regs[ret := 0], x.mem));
  }

  /** Leaving through `@x; ret <- int 1; @end`. */
  lemma ExitTrue(P: seq<Instr>, s: State, x: State, ret: int)
    requires Reaches(P, s, x)
    requires 0 <= x.pc && x.pc + 3 <= |P| && P[x.pc].Lab?
    requires P[x.pc + 1] == IntI(ret, 1) && P[x.pc + 2].Lab?
    ensures Reaches(P, s, State(x.pc + 3, x.regs[ret := 1], x.mem))
  {
    SetFallRun(P, x, ret, 1);
    RunReaches(P, x, 3, State(x.pc + 3, x.regs[ret := 1], x.mem));
    ReachesTrans(P, s, x, State(x.pc + 3, x.regs[ret := 1], x.mem));
  }

  /** `&&` leaves 1 in `ret` exactly when both operands are true, and the
      right operand's code runs only when the left one is true. The
      hypotheses say what the operand code does: the left branch code
      reaches `@t1` (true) or `@f0` (false); when it was true, the right
      branch code, started just past `@t1`, reaches `@t2` or `@f0`. */
  lemma AndRun(P: seq<Instr>, k: int, L: seq<Instr>, R: seq<Instr>, ret: int, end: Label, f0: Label, t1: Label, t2: Label,
               s: State, a: State, lv: bool, b: State, rv: bool)
    requires At(P, k, AndCode(L, R, ret, end, f0, t1, t2)) && Fresh4(P, k, L, R, end, f0, t1, t2)
    requires Reaches(P, s, a) && a.pc == Find(P, if lv then t1 else f0)
    requires lv ==> Reaches(P, a.(pc := k + |L| + 4), b) && b.pc == Find(P, if rv then t2 else f0)
    ensures var c := if lv then b else a;
      Reaches(P, s, State(k + |AndCode(L, R, ret, end, f0, t1, t2)|, c.regs[ret := if lv && rv then 1 else 0], c.mem))
  {
    AndFinds(P, k, L, R, ret, end, f0, t1, t2);
    AndShape(P, k, L, R, ret, end, f0, t1, t2);
    if lv {
      Via(P, s, a, b);
      if rv { ExitTrue(P, s, b, ret); } else { ExitFalse(P, s, b, ret, end); }
    } else {
      ExitFalse(P, s, a, ret, end);
    }
  }

  // ---------------------------------------------------------------------
  // || (src/gen.c emit_binop, OP_LOGOR)
  // ---------------------------------------------------------------------

  /** `L(f1, t1); @f2; ret <- int 0; jump end; @f1; R(f2, t1); @t1;
      ret <- int 1; @end`: the `&&` shape with its labels in other roles. */
  function OrCode(L: seq<Instr>, R: seq<Instr>, ret: int, end: Label, f1: Label, f2: Label, t1: Label): seq<Instr> {
    AndCode(L, R, ret, end, f2, f1, t1)
  }

  /** `||` leaves 1 in `ret` exactly when either operand is true, and the
      right operand's code runs only when the left one is false. */
  lemma OrRun(P: seq<Instr>, k: int, L: seq<Instr>, R: seq<Instr>, ret: int, end: Label, f1: Label, f2: Label, t1: Label,
              s: State, a: State, lv: bool, b: State, rv: bool)
    requires At(P, k, OrCode(L, R, ret, end, f1, f2, t1)) && Fresh4(P, k, L, R, end, f2, f1, t1)
    requires Reaches(P, s, a) && a.pc == Find(P, if lv then t1 else f1)
    requires !lv ==> Reaches(P, a.(pc := k + |L| + 4), b) && b.pc == Find(P, if rv then t1 else f2)
    ensures var c := if lv then a else b;
      Reaches(P, s, State(k + |OrCode(L, R, ret, end, f1, f2, t1)|, c.regs[ret := if lv || rv then 1 else 0], c.mem))
  {
    AndFinds(P, k, L, R, ret, end, f2, f1, t1);
    AndShape(P, k, L, R, ret, end, f2, f1, t1);
    if lv {
      ExitTrue(P, s, a, ret);
    } else {
      Via(P, s, a, b);
      if rv { ExitTrue(P, s, b, ret); } else { ExitFalse(P, s, b, ret, end); }
    }
  }

  // ---------------------------------------------------------------------
  // if statements (src/gen.c emit_if)
  // ---------------------------------------------------------------------

  /** Three labels fresh before `k`, defined by none of three pieces of
      code, pairwise distinct. */
  ghost predicate Fresh3In(P: seq<Instr>, k: int, A: seq<Instr>, B: seq<Instr>, C: seq<Instr>, x: Label, y: Label, z: Label) {
    NoDefBefore(P, k, x) && NoDefBefore(P, k, y) && NoDefBefore(P, k, z) &&
    Undefined(A, x) && Undefined(A, y) && Undefined(A, z) &&
    Undefined(B, x) && Undefined(B, y) && Undefined(B, z) &&
    Undefined(C, x) && Undefined(C, y) && Undefined(C, z) &&
    x != y && y != z && x != z
  }

  function OrEmpty(o: Option<seq<Instr>>): seq<Instr> {
    if o.Some? then o.value else []
  }

  /** `B(zero, nonzero); @nonzero; Then` followed, with an else arm, by
      `jump end; @zero; Else; @end` and, without one, by `@zero`. `B` is
      the branch code for the condition; an absent then arm is empty. */
  function IfCode(B: seq<Instr>, zero: Label, nonzero: Label, Then: seq<Instr>, Else: Option<seq<Instr>>, end: Label): seq<Instr> {
    B + [Lab(nonzero)] + Then +
    (if Else.Some? then [Jump(end), Lab(zero)] + Else.value + [Lab(end)] else [Lab(zero)])
  }

  /** Where the labels of an `if` are. */
  lemma IfFinds(P: seq<Instr>, k: int, B: seq<Instr>, zero: Label, nonzero: Label, Then: seq<Instr>, Else: Option<seq<Instr>>, end: Label)
    requires At(P, k, IfCode(B, zero, nonzero, Then, Else, end))
    requires Fresh3In(P, k, B, Then, OrEmpty(Else), zero, nonzero, end)
    ensures Find(P, nonzero) == k + |B|
    ensures Else.Some? ==> Find(P, zero) == k + |B| + |Then| + 2 && Find(P, end) == k + |B| + |Then| + 3 + |Else.value|
    ensures Else.None? ==> Find(P, zero) == k + |B| + |Then| + 1
  {
    IfFindNonzero(P, k, B, zero, nonzero, Then, Else, end);
    IfFindZero(P, k, B, zero, nonzero, Then, Else, end);
    if Else.Some? {
      IfFindEnd(P, k, B, zero, nonzero, Then, Else.value, end);
    }
  }

  lemma IfFindNonzero(P: seq<Instr>, k: int, B: seq<Instr>, zero: Label, nonzero: Label, Then: seq<Instr>, Else: Option<seq<Instr>>, end: Label)
    requires At(P, k, IfCode(B, zero, nonzero, Then, Else, end))
    requires NoDefBefore(P, k, nonzero) && Undefined(B, nonzero)
    ensures Find(P, nonzero) == k + |B|
  {
    var R := if Else.Some? then [Jump(end), Lab(zero)] + Else.value + [Lab(end)] else [Lab(zero)];
    assert IfCode(B, zero, nonzero, Then, Else, end) == B + [Lab(nonzero)] + (Then + R);
    FindAfter(P, k, B, nonzero, Then + R);
  }

  lemma IfFindZero(P: seq<Instr>, k: int, B: seq<Instr>, zero: Label, nonzero: Label, Then: seq<Instr>, Else: Option<seq<Instr>>, end: Label)
    requires At(P, k, IfCode(B, zero, nonzero, Then, Else, end))
    requires NoDefBefore(P, k, zero) && Undefined(B, zero) && Undefined(Then, zero) && zero != nonzero
    ensures Else.Some? ==> Find(P, zero) == k + |B| + |Then| + 2
    ensures Else.None? ==> Find(P, zero) == k + |B| + |Then| + 1
  {
    var T := IfCode(B, zero, nonzero, Then, Else, end);
    var A := B + [Lab(nonzero)] + Then;
    assert Undefined([Lab(nonzero)], zero);
    UndefinedCat(B, [Lab(nonzero)], zero);
    UndefinedCat(B + [Lab(nonzero)], Then, zero);
    if Else.Some? {
      assert Undefined([Jump(end)], zero);
      UndefinedCat(A, [Jump(end)], zero);
      assert T == (A + [Jump(end)]) + [Lab(zero)] + (Else.value + [Lab(end)]);
      FindAfter(P, k, A + [Jump(end)], zero, Else.value + [Lab(end)]);
    } else {
      assert T == A + [Lab(zero)] + [];
      FindAfter(P, k, A, zero, []);
    }
  }

  lemma IfFindEnd(P: seq<Instr>, k: int, B: seq<Instr>, zero: Label, nonzero: Label, Then: seq<Instr>, Else: seq<Instr>, end: Label)
    requires At(P, k, IfCode(B, zero, nonzero, Then, Some(Else), end))
    requires NoDefBefore(P, k, end) && Undefined(B, end) && Undefined(Then, end) && Undefined(Else, end)
    requires end != nonzero && end != zero
    ensures Find(P, end) == k + |B| + |Then| + 3 + |Else|
  {
    var T := IfCode(B, zero, nonzero, Then, Some(Else), end);
    var A := B + [Lab(nonzero)] + Then + [Jump(end), Lab(zero)];
    assert Undefined([Lab(nonzero)] + Then + [Jump(end), Lab(zero)], end) by {
      assert Undefined([Lab(nonzero)], end) && Undefined([Jump(end), Lab(zero)], end);
      UndefinedCat([Lab(nonzero)], Then, end);
      UndefinedCat([Lab(nonzero)] + Then, [Jump(end), Lab(zero)], end);
    }
    UndefinedCat(B, [Lab(nonzero)] + Then + [Jump(end), Lab(zero)], end);
    assert A == B + ([Lab(nonzero)] + Then + [Jump(end), Lab(zero)]);
    UndefinedCat(A, Else, end);
    assert T == (A + Else) + [Lab(end)] + [];
    FindAfter(P, k, A + Else, end, []);
  }

  lemma IfShape(P: seq<Instr>, k: int, B: seq<Instr>, zero: Label, nonzero: Label, Then: seq<Instr>, Else: Option<seq<Instr>>, end: Label)
    requires At(P, k, IfCode(B, zero, nonzero, Then, Else, end))
    ensures Else.Some? ==> |IfCode(B, zero, nonzero, Then, Else, end)| == |B| + |Then| + |Else.value| + 4
    ensures Else.None? ==> |IfCode(B, zero, nonzero, Then, Else, end)| == |B| + |Then| + 2
    ensures P[k + |B|] == Lab(nonzero)
    ensures Else.Some? ==> P[k + |B| + 1 + |Then|] == Jump(end) && P[k + |B| + 2 + |Then|] == Lab(zero)
    ensures Else.Some? ==> P[k + |B| + 3 + |Then| + |Else.value|] == Lab(end)
    ensures Else.None? ==> P[k + |B| + 1 + |Then|] == Lab(zero)
  {
    var T := IfCode(B, zero, nonzero, Then, Else, end);
    assert P[k + |B|] == T[|B|];
    assert P[k + |B| + 1 + |Then|] == T[|B| + 1 + |Then|];
    if Else.Some? {
      assert P[k + |B| + 2 + |Then|] == T[|B| + 2 + |Then|];
      assert P[k + |B| + 3 + |Then| + |Else.value|] == T[|B| + 3 + |Then| + |Else.value|];
    }
  }

  /** Jumping to a label and passing it. */
  lemma JumpOut(P: seq<Instr>, s: State, x: State, end: Label)
    requires Reaches(P, s, x) && 0 <= x.pc < |P| && P[x.pc] == Jump(end)
    requires 0 <= Find(P, end)
    ensures Reaches(P, s, x.(pc := Find(P, end) + 1))
  {
    StepJump(P, x);
    var y := x.(pc := Find(P, end));
    StepLab(P, y);
    RunCons(P, y, y.(pc := Find(P, end) + 1), 0);
    RunCons(P, x, y, 1);
    RunReaches(P, x, 2, y.(pc := Find(P, end) + 1));
    ReachesTrans(P, s, x, y.(pc := Find(P, end) + 1));
  }

  lemma PassLabel(P: seq<Instr>, s: State, x: State)
    requires Reaches(P, s, x) && 0 <= x.pc < |P| && P[x.pc].Lab?
    ensures Reaches(P, s, x.(pc := x.pc + 1))
  {
    StepLabReaches(P, x);
    ReachesTrans(P, s, x, x.(pc := x.pc + 1));
  }

  /** An `if` runs exactly one arm, chosen by the condition, and then
      continues after the whole statement. The hypotheses say what the
      condition code and the arms do: the condition code reaches
      `@nonzero` when the condition is true and `@zero` otherwise; the
      arm that is run, started just past its label, ends at its last line
      in state `u`. Without an else arm a false condition leaves the state
      as the condition code left it. */
  lemma IfRun(P: seq<Instr>, k: int, B: seq<Instr>, zero: Label, nonzero: Label, Then: seq<Instr>, Else: Option<seq<Instr>>, end: Label,
              s: State, a: State, cv: bool, u: State)
    requires At(P, k, IfCode(B, zero, nonzero, Then, Else, end))
    requires Fresh3In(P, k, B, Then, OrEmpty(Else), zero, nonzero, end)
    requires Reaches(P, s, a) && a.pc == Find(P, if cv then nonzero else zero)
    requires cv ==> Reaches(P, a.(pc := k + |B| + 1), u) && u.pc == k + |B| + 1 + |Then|
    requires !cv && Else.Some? ==>
      Reaches(P, a.(pc := k + |B| + |Then| + 3), u) && u.pc == k + |B| + |Then| + 3 + |Else.value|
    ensures Reaches(P, s, (if !cv && Else.None? then a else u).(pc := k + |IfCode(B, zero, nonzero, Then, Else, end)|))
  {
    IfFinds(P, k, B, zero, nonzero, Then, Else, end);
    IfShape(P, k, B, zero, nonzero, Then, Else, end);
    var n := |IfCode(B, zero, nonzero, Then, Else, end)|;
    if cv {
      IfRunThen(P, k, B, nonzero, Then, Else.Some?, end, n, s, a, u);
    } else if Else.Some? {
      Via(P, s, a, u);
      PassLabel(P, s, u);
    } else {
      PassLabel(P, s, a);
    }
  }

  /** The then arm of an `if`, leaving by the jump to `@end` when there is
      an else arm and by falling through `@zero` when there is none. */
  lemma IfRunThen(P: seq<Instr>, k: int, B: seq<Instr>, nonzero: Label, Then: seq<Instr>, hasElse: bool, end: Label, n: int,
                  s: State, a: State, u: State)
    requires 0 <= k + |B| && k + |B| + 1 + |Then| < |P| && P[k + |B|] == Lab(nonzero)
    requires Reaches(P, s, a) && a.pc == k + |B|
    requires Reaches(P, a.(pc := k + |B| + 1), u) && u.pc == k + |B| + 1 + |Then|
    requires hasElse ==> P[u.pc] == Jump(end) && 0 <= Find(P, end) && Find(P, end) + 1 == k + n
    requires !hasElse ==> P[u.pc].Lab? && u.pc + 1 == k + n
    ensures Reaches(P, s, u.(pc := k + n))
  {
    Via(P, s, a, u);
    if hasElse { JumpOut(P, s, u, end); } else { PassLabel(P, s, u); }
  }

  // ---------------------------------------------------------------------
  // The conditional operator (src/gen.c emit_ternary)
  // ---------------------------------------------------------------------

  /** An arm of a conditional expression: its code and the register that
      holds its value. */
  datatype Arm = Arm(code: seq<Instr>, reg: int)

  /** The arm code followed by the copy into the result register. */
  function ArmCode(arm: Option<Arm>, out: int): seq<Instr> {
    if arm.Some? then arm.value.code + [Mov(out, arm.value.reg)] else []
  }

  /** `C; r0 <- int 0; beq nth r0 nz ez; @nz; Then; out <- reg rt;
      jump end; @ez; Else; out <- reg re; @end`: the `if` layout around
      the condition's truth test, each arm ending with its copy into
      `out`. */
  function TernaryCode(C: seq<Instr>, nth: int, out: int, ez: Label, nz: Label, Then: Option<Arm>, Else: Option<Arm>, end: Label): seq<Instr> {
    IfCode(C + TruthTest(nth, ez, nz), ez, nz, ArmCode(Then, out),
      if Else.Some? then Some(ArmCode(Else, out)) else None, end)
  }

  /** `Arm`'s copy step. */
  lemma MovRun(P: seq<Instr>, s: State, x: State, out: int, r: int)
    requires Reaches(P, s, x) && 0 <= x.pc < |P| && P[x.pc] == Mov(out, r)
    ensures Reaches(P, s, State(x.pc + 1, x.regs[out := Reg(x, r)], x.mem))
  {
    StepMov(P, x);
    var y := State(x.pc + 1, x.regs[out := Reg(x, r)], x.mem);
    RunCons(P, x, y, 0);
    RunReaches(P, x, 1, y);
    ReachesTrans(P, s, x, y);
  }

  /** The truth test of a value already computed into `nth`. */
  lemma TestReaches(P: seq<Instr>, s: State, c: State, nth: int, zero: Label, nonzero: Label)
    requires Reaches(P, s, c) && At(P, c.pc, TruthTest(nth, zero, nonzero))
    requires 0 <= Find(P, zero) && 0 <= Find(P, nonzero)
    ensures Reaches(P, s, State(Find(P, if Tested(c, nth) then nonzero else zero), c.regs[0 := 0], c.mem))
  {
    TruthTestRun(P, c, nth, zero, nonzero);
    RunReaches(P, c, 2, State(Find(P, if Tested(c, nth) then nonzero else zero), c.regs[0 := 0], c.mem));
    ReachesTrans(P, s, c, State(Find(P, if Tested(c, nth) then nonzero else zero), c.regs[0 := 0], c.mem));
  }

  /** Where the pieces of a two-armed conditional sit. */
  lemma TernaryShape(P: seq<Instr>, k: int, C: seq<Instr>, nth: int, out: int, ez: Label, nz: Label, Then: Arm, Else: Arm, end: Label)
    requires At(P, k, TernaryCode(C, nth, out, ez, nz, Some(Then), Some(Else), end))
    ensures At(P, k + |C|, TruthTest(nth, ez, nz))
    ensures P[k + |C| + 3 + |Then.code|] == Mov(out, Then.reg)
    ensures P[k + |C| + |Then.code| + 6 + |Else.code|] == Mov(out, Else.reg)
  {
    var B := C + TruthTest(nth, ez, nz);
    var TC := ArmCode(Some(Then), out);
    var EC := ArmCode(Some(Else), out);
    var T := IfCode(B, ez, nz, TC, Some(EC), end);
    assert T == C + TruthTest(nth, ez, nz) + ([Lab(nz)] + TC + ([Jump(end), Lab(ez)] + EC + [Lab(end)]));
    AtSplit(P, k, C + TruthTest(nth, ez, nz), [Lab(nz)] + TC + ([Jump(end), Lab(ez)] + EC + [Lab(end)]));
    AtSplit(P, k, C, TruthTest(nth, ez, nz));
    assert P[k + |B| + 1 + |Then.code|] == T[|B| + 1 + |Then.code|];
    assert P[k + |B| + |TC| + 3 + |Else.code|] == T[|B| + |TC| + 3 + |Else.code|];
  }

  lemma TernaryFresh(P: seq<Instr>, k: int, C: seq<Instr>, nth: int, TC: seq<Instr>, EC: seq<Instr>, ez: Label, nz: Label, end: Label)
    requires Fresh3In(P, k, C, TC, EC, ez, nz, end)
    ensures Fresh3In(P, k, C + TruthTest(nth, ez, nz), TC, OrEmpty(Some(EC)), ez, nz, end)
  {
    assert Undefined(TruthTest(nth, ez, nz), ez) && Undefined(TruthTest(nth, ez, nz), nz) && Undefined(TruthTest(nth, ez, nz), end);
    UndefinedCat(C, TruthTest(nth, ez, nz), ez);
    UndefinedCat(C, TruthTest(nth, ez, nz), nz);
    UndefinedCat(C, TruthTest(nth, ez, nz), end);
  }

  /** With both arms present the conditional operator leaves in `out` the
      value of the arm chosen by the truth test: the then arm's when the
      condition is non-zero and not held in r0 (`Tested`). `c` is the
      state after the condition's code; the chosen arm's code, started
      with `r0` cleared, ends in `u`. */
  lemma TernaryRun(P: seq<Instr>, k: int, C: seq<Instr>, nth: int, out: int, ez: Label, nz: Label, Then: Arm, Else: Arm, end: Label,
                   s: State, c: State, u: State)
    requires At(P, k, TernaryCode(C, nth, out, ez, nz, Some(Then), Some(Else), end))
    requires Fresh3In(P, k, C, Then.code + [Mov(out, Then.reg)], Else.code + [Mov(out, Else.reg)], ez, nz, end)
    requires Reaches(P, s, c) && c.pc == k + |C|
    requires Tested(c, nth) ==>
      Reaches(P, State(k + |C| + 3, c.regs[0 := 0], c.mem), u) && u.pc == k + |C| + 3 + |Then.code|
    requires !Tested(c, nth) ==>
      Reaches(P, State(k + |C| + |Then.code| + 6, c.regs[0 := 0], c.mem), u) &&
      u.pc == k + |C| + |Then.code| + 6 + |Else.code|
    ensures Reaches(P, s, State(k + |TernaryCode(C, nth, out, ez, nz, Some(Then), Some(Else), end)|,
      u.regs[out := Reg(u, if Tested(c, nth) then Then.reg else Else.reg)], u.mem))
  {
    var B := C + TruthTest(nth, ez, nz);
    var TC := ArmCode(Some(Then), out);
    var EC := ArmCode(Some(Else), out);
    TernaryFresh(P, k, C, nth, TC, EC, ez, nz, end);
    IfFinds(P, k, B, ez, nz, TC, Some(EC), end);
    TernaryShape(P, k, C, nth, out, ez, nz, Then, Else, end);
    TestReaches(P, s, c, nth, ez, nz);
    var cv := Tested(c, nth);
    var a := State(Find(P, if cv then nz else ez), c.regs[0 := 0], c.mem);
    var r := if cv then Then.reg else Else.reg;
    var start := if cv then k + |B| + 1 else k + |B| + |TC| + 3;
    assert a.(pc := start) == State(if cv then k + |C| + 3 else k + |C| + |Then.code| + 6, c.regs[0 := 0], c.mem);
    MovRun(P, a.(pc := start), u, out, r);
    IfRun(P, k, B, ez, nz, TC, Some(EC), end, s, a, cv, State(u.pc + 1, u.regs[out := Reg(u, r)], u.mem));
  }

  // ---------------------------------------------------------------------
  // The older generator (gen.c at the top of the repository)
  // ---------------------------------------------------------------------

  /** Its `<`: `ublt l r iff ift; @iff; ret <- uint 0; jump end; @ift;
      ret <- uint 1; @end`. */
  function OldLessCode(l: int, r: int, ret: int, ift: Label, iff: Label, end: Label): seq<Instr> {
    [Ublt(l, r, iff, ift)] + Join(iff, UIntI(ret, 0), ift, UIntI(ret, 1), end)
  }

  /** The older `<` compares the operands as unsigned 64-bit words and
      leaves 1 exactly when the left one is below the right one. */
  lemma OldLessRun(P: seq<Instr>, s: State, l: int, r: int, ret: int, ift: Label, iff: Label, end: Label)
    requires At(P, s.pc, OldLessCode(l, r, ret, ift, iff, end)) && Fresh3(P, s.pc, iff, ift, end)
    ensures Reaches(P, s, State(s.pc + 7, s.regs[ret := if U64(Reg(s, l)) < U64(Reg(s, r)) then 1 else 0], s.mem))
  {
    var T := OldLessCode(l, r, ret, ift, iff, end);
    assert P[s.pc + 0] == T[0];
    JoinRun(P, s, Ublt(l, r, iff, ift), iff, 0, ift, 1, end, ret, UIntI(ret, 0), UIntI(ret, 1), U64(Reg(s, l)) < U64(Reg(s, r)));
  }

  /** Its conditional operator as written: `C; ubb nth ez nz`, then, with a
      then arm, `@nz; Then; out <- reg rt`, and, with an else arm,
      `jump end; @ez; Else; @end; out <- reg re` (else `@ez`). The copy of
      the else value sits after `@end`, so it runs on both paths. */
  function OldTernaryCode(C: seq<Instr>, nth: int, out: int, ez: Label, nz: Label, Then: Option<Arm>, Else: Option<Arm>, end: Label): seq<Instr> {
    C + [Ubb(nth, ez, nz)] +
    (if Then.Some? then [Lab(nz)] + Then.value.code + [Mov(out, Then.value.reg)] else []) +
    (if Else.Some? then [Jump(end), Lab(ez)] + Else.value.code + [Lab(end), Mov(out, Else.value.reg)] else [Lab(ez)])
  }

  /** The same with the else arm's copy moved before `@end`, as the then
      arm's is; with the then arm absent `@nz` is still defined. */
  function OldTernaryFixedCode(C: seq<Instr>, nth: int, out: int, ez: Label, nz: Label, Then: Option<Arm>, Else: Option<Arm>, end: Label): seq<Instr> {
    IfCode(C + [Ubb(nth, ez, nz)], ez, nz, ArmCode(Then, out), if Else.Some? then Some(ArmCode(Else, out)) else None, end)
  }

  /** With both arms, the as-written code is the `if` layout followed by
      the misplaced copy. */
  lemma OldTernaryLayout(C: seq<Instr>, nth: int, out: int, ez: Label, nz: Label, Then: Arm, Else: Arm, end: Label)
    ensures OldTernaryCode(C, nth, out, ez, nz, Some(Then), Some(Else), end) ==
      IfCode(C + [Ubb(nth, ez, nz)], ez, nz, ArmCode(Some(Then), out), Some(Else.code), end) + [Mov(out, Else.reg)]
  {
  }

  lemma UbbReaches(P: seq<Instr>, s: State, c: State, nth: int, ez: Label, nz: Label)
    requires Reaches(P, s, c) && 0 <= c.pc < |P| && P[c.pc] == Ubb(nth, ez, nz)
    requires 0 <= Find(P, ez) && 0 <= Find(P, nz)
    ensures Reaches(P, s, c.(pc := Find(P, if Reg(c, nth) != 0 then nz else ez)))
  {
    var a := c.(pc := Find(P, if Reg(c, nth) != 0 then nz else ez));
    RunCons(P, c, a, 0);
    RunReaches(P, c, 1, a);
    ReachesTrans(P, s, c, a);
  }

  lemma OldFresh(P: seq<Instr>, k: int, C: seq<Instr>, nth: int, TC: seq<Instr>, EC: seq<Instr>, ez: Label, nz: Label, end: Label)
    requires Fresh3In(P, k, C, TC, EC, ez, nz, end)
    ensures Fresh3In(P, k, C + [Ubb(nth, ez, nz)], TC, OrEmpty(Some(EC)), ez, nz, end)
  {
    assert Undefined([Ubb(nth, ez, nz)], ez) && Undefined([Ubb(nth, ez, nz)], nz) && Undefined([Ubb(nth, ez, nz)], end);
    UndefinedCat(C, [Ubb(nth, ez, nz)], ez);
    UndefinedCat(C, [Ubb(nth, ez, nz)], nz);
    UndefinedCat(C, [Ubb(nth, ez, nz)], end);
  }

  /** The `if` layout after `C; ubb nth ez nz` with both arms: the arm
      the condition picks runs from its first line to `u`, and control
      then continues after the whole layout. */
  lemma UbbIfRun(P: seq<Instr>, k: int, C: seq<Instr>, nth: int, ez: Label, nz: Label, TC: seq<Instr>, EC: seq<Instr>, end: Label,
                 s: State, c: State, u: State)
    requires At(P, k, IfCode(C + [Ubb(nth, ez, nz)], ez, nz, TC, Some(EC), end))
    requires Fresh3In(P, k, C, TC, EC, ez, nz, end)
    requires Reaches(P, s, c) && c.pc == k + |C|
    requires Reg(c, nth) != 0 ==> Reaches(P, c.(pc := k + |C| + 2), u) && u.pc == k + |C| + 2 + |TC|
    requires Reg(c, nth) == 0 ==> Reaches(P, c.(pc := k + |C| + |TC| + 4), u) && u.pc == k + |C| + |TC| + 4 + |EC|
    ensures Reaches(P, s, u.(pc := k + |IfCode(C + [Ubb(nth, ez, nz)], ez, nz, TC, Some(EC), end)|))
  {
    var B := C + [Ubb(nth, ez, nz)];
    var I := IfCode(B, ez, nz, TC, Some(EC), end);
    OldFresh(P, k, C, nth, TC, EC, ez, nz, end);
    IfFinds(P, k, B, ez, nz, TC, Some(EC), end);
    assert P[k + |C|] == I[|C|];
    UbbReaches(P, s, c, nth, ez, nz);
    var cv := Reg(c, nth) != 0;
    var a := c.(pc := Find(P, if cv then nz else ez));
    assert a.(pc := if cv then k + |B| + 1 else k + |B| + |TC| + 3) ==
      c.(pc := if cv then k + |C| + 2 else k + |C| + |TC| + 4);
    IfRun(P, k, B, ez, nz, TC, Some(EC), end, s, a, cv, u);
  }

  /** The older conditional operator as written: whichever arm the
      condition picks, `out` ends up holding the else arm's register, so on
      the true path the result is not the then arm's value. `u` is the
      state after the chosen arm's code (the then arm's including its
      copy into `out`). */
  lemma OldTernaryRun(P: seq<Instr>, k: int, C: seq<Instr>, nth: int, out: int, ez: Label, nz: Label, Then: Arm, Else: Arm, end: Label,
                      s: State, c: State, u: State)
    requires At(P, k, OldTernaryCode(C, nth, out, ez, nz, Some(Then), Some(Else), end))
    requires Fresh3In(P, k, C, Then.code + [Mov(out, Then.reg)], Else.code, ez, nz, end)
    requires Reaches(P, s, c) && c.pc == k + |C|
    requires Reg(c, nth) != 0 ==>
      Reaches(P, c.(pc := k + |C| + 2), u) && u.pc == k + |C| + 3 + |Then.code|
    requires Reg(c, nth) == 0 ==>
      Reaches(P, c.(pc := k + |C| + |Then.code| + 5), u) && u.pc == k + |C| + |Then.code| + 5 + |Else.code|
    ensures Reaches(P, s, State(k + |OldTernaryCode(C, nth, out, ez, nz, Some(Then), Some(Else), end)|,
      u.regs[out := Reg(u, Else.reg)], u.mem))
  {
    var TC := ArmCode(Some(Then), out);
    var I := IfCode(C + [Ubb(nth, ez, nz)], ez, nz, TC, Some(Else.code), end);
    OldTernaryLayout(C, nth, out, ez, nz, Then, Else, end);
    AtSplit(P, k, I, [Mov(out, Else.reg)]);
    UbbIfRun(P, k, C, nth, ez, nz, TC, Else.code, end, s, c, u);
    assert P[k + |I| + 0] == [Mov(out, Else.reg)][0];
    MovRun(P, s, u.(pc := k + |I|), out, Else.reg);
  }

  /** With the copy moved before `@end`, `out` holds the chosen arm's value. */
  lemma OldTernaryFixedRun(P: seq<Instr>, k: int, C: seq<Instr>, nth: int, out: int, ez: Label, nz: Label, Then: Arm, Else: Arm, end: Label,
                           s: State, c: State, u: State)
    requires At(P, k, OldTernaryFixedCode(C, nth, out, ez, nz, Some(Then), Some(Else), end))
    requires Fresh3In(P, k, C, Then.code + [Mov(out, Then.reg)], Else.code + [Mov(out, Else.reg)], ez, nz, end)
    requires Reaches(P, s, c) && c.pc == k + |C|
    requires Reg(c, nth) != 0 ==>
      Reaches(P, c.(pc := k + |C| + 2), u) && u.pc == k + |C| + 2 + |Then.code|
    requires Reg(c, nth) == 0 ==>
      Reaches(P, c.(pc := k + |C| + |Then.code| + 5), u) && u.pc == k + |C| + |Then.code| + 5 + |Else.code|
    ensures Reaches(P, s, State(k + |OldTernaryFixedCode(C, nth, out, ez, nz, Some(Then), Some(Else), end)|,
      u.regs[out := Reg(u, if Reg(c, nth) != 0 then Then.reg else Else.reg)], u.mem))
  {
    var B := C + [Ubb(nth, ez, nz)];
    var TC := ArmCode(Some(Then), out);
    var EC := ArmCode(Some(Else), out);
    var T := IfCode(B, ez, nz, TC, Some(EC), end);
    var cv := Reg(c, nth) != 0;
    var r := if cv then Then.reg else Else.reg;
    var start := if cv then k + |C| + 2 else k + |C| + |Then.code| + 5;
    assert P[u.pc] == Mov(out, r) by {
      if cv {
        assert P[k + |B| + 1 + |Then.code|] == T[|B| + 1 + |Then.code|];
      } else {
        assert P[k + |B| + |TC| + 3 + |Else.code|] == T[|B| + |TC| + 3 + |Else.code|];
      }
    }
    MovRun(P, c.(pc := start), u, out, r);
    UbbIfRun(P, k, C, nth, ez, nz, TC, EC, end, s, c, State(u.pc + 1, u.regs[out := Reg(u, r)], u.mem));
  }

  /** Outside the program the machine does not move. */
  lemma HaltedRun(P: seq<Instr>, t: State, n: nat, u: State)
    requires !(0 <= t.pc < |P|) && Run(P, t, n) == Some(u)
    ensures u == t
  {
  }

  /** A run that has stopped outside the program after `a` steps ends in
      the same state after any `b >= a` steps it takes. */
  lemma HaltedAfter(P: seq<Instr>, s: State, a: nat, b: nat, t1: State, t2: State)
    requires a <= b && Run(P, s, a) == Some(t1) && Run(P, s, b) == Some(t2)
    requires !(0 <= t1.pc < |P|)
    ensures t1 == t2
  {
    RunAdd(P, s, a, b - a);
    HaltedRun(P, t1, b - a, t2);
  }

  /** The machine stops for good outside the program, so a run that ends
      there has a single possible end state. */
  lemma HaltedUnique(P: seq<Instr>, s: State, t1: State, t2: State)
    requires Reaches(P, s, t1) && Reaches(P, s, t2)
    requires !(0 <= t1.pc < |P|) && !(0 <= t2.pc < |P|)
    ensures t1 == t2
  {
    var a: nat :| Run(P, s, a) == Some(t1);
    var b: nat :| Run(P, s, b) == Some(t2);
    if a <= b {
      HaltedAfter(P, s, a, b, t1, t2);
    } else {
      HaltedAfter(P, s, b, a, t2, t1);
    }
  }

  /** `1 ? 1 : 2` compiled by the older generator, with the condition in
      r3, the arms in r5 and r6 and the result in r4. */
  function OneOrTwo(fixed: bool): seq<Instr> {
    var C := [UIntI(3, 1)];
    var Then := Some(Arm([UIntI(5, 1)], 5));
    var Else := Some(Arm([UIntI(6, 2)], 6));
    if fixed then OldTernaryFixedCode(C, 3, 4, Local("f", 0), Local("f", 1), Then, Else, Local("f", 2))
    else OldTernaryCode(C, 3, 4, Local("f", 0), Local("f", 1), Then, Else, Local("f", 2))
  }

  /** The as-written `1 ? 1 : 2`, line by line. */
  lemma OneOrTwoLines(ez: Label, nz: Label, end: Label)
    requires ez == Local("f", 0) && nz == Local("f", 1) && end == Local("f", 2)
    ensures OneOrTwo(false) ==
      [UIntI(3, 1), Ubb(3, ez, nz), Lab(nz), UIntI(5, 1), Mov(4, 5), Jump(end), Lab(ez), UIntI(6, 2), Lab(end), Mov(4, 6)]
    ensures OneOrTwo(true) ==
      [UIntI(3, 1), Ubb(3, ez, nz), Lab(nz), UIntI(5, 1), Mov(4, 5), Jump(end), Lab(ez), UIntI(6, 2), Mov(4, 6), Lab(end)]
  {
  }

  /** Both versions of `1 ? 1 : 2` start by taking the then arm. */
  lemma OneOrTwoHead(P: seq<Instr>, ez: Label, nz: Label, s0: State) returns (s5: State)
    requires 5 <= |P| && s0.pc == 0
    requires P[0] == UIntI(3, 1) && P[1] == Ubb(3, ez, nz) && P[2] == Lab(nz) && P[3] == UIntI(5, 1) && P[4] == Mov(4, 5)
    ensures Run(P, s0, 5) == Some(s5) && s5.pc == 5 && Reg(s5, 4) == 1 && s5.regs == s0.regs[3 := 1][5 := 1][4 := 1]
  {
    var s1 := State(1, s0.regs[3 := 1], s0.mem);
    var s2 := s1.(pc := 2);
    var s3 := s1.(pc := 3);
    var s4 := State(4, s3.regs[5 := 1], s3.mem);
    s5 := State(5, s4.regs[4 := Reg(s4, 5)], s4.mem);
    StepConst(P, s0);
    FindAt(P, nz, 2);
    StepTo(P, s1, nz);
    StepLab(P, s2);
    StepConst(P, s3);
    StepMov(P, s4);
    RunCons(P, s4, s5, 0);
    RunCons(P, s3, s4, 1);
    RunCons(P, s2, s3, 2);
    RunCons(P, s1, s2, 3);
    RunCons(P, s0, s1, 4);
  }

  /** How the as-written `1 ? 1 : 2` runs from any state. */
  lemma OneOrTwoWalk(P: seq<Instr>, ez: Label, nz: Label, end: Label, s0: State) returns (w: State)
    requires |P| == 10 && P[0] == UIntI(3, 1) && P[1] == Ubb(3, ez, nz) && P[2] == Lab(nz) && P[3] == UIntI(5, 1) && P[4] == Mov(4, 5)
    requires P[5] == Jump(end) && P[8] == Lab(end) && P[9] == Mov(4, 6)
    requires forall i :: 0 <= i < 8 ==> P[i] != Lab(end)
    requires s0.pc == 0
    ensures Run(P, s0, 8) == Some(w) && w.pc == |P| && Reg(w, 4) == Reg(s0, 6)
  {
    var s5 := OneOrTwoHead(P, ez, nz, s0);
    var s8 := s5.(pc := 8);
    var s9 := s5.(pc := 9);
    w := State(10, s9.regs[4 := Reg(s9, 6)], s9.mem);
    FindAt(P, end, 8);
    StepJump(P, s5);
    StepLab(P, s8);
    StepMov(P, s9);
    RunCons(P, s9, w, 0);
    RunCons(P, s8, s9, 1);
    RunCons(P, s5, s8, 2);
    RunThen(P, s0, 5, s5, 3, w);
  }

  /** How the corrected `1 ? 1 : 2` runs from any state. */
  lemma OneOrTwoFixedWalk(P: seq<Instr>, ez: Label, nz: Label, end: Label, s0: State) returns (w: State)
    requires |P| == 10 && P[0] == UIntI(3, 1) && P[1] == Ubb(3, ez, nz) && P[2] == Lab(nz) && P[3] == UIntI(5, 1) && P[4] == Mov(4, 5)
    requires P[5] == Jump(end) && P[9] == Lab(end)
    requires forall i :: 0 <= i < 9 ==> P[i] != Lab(end)
    requires s0.pc == 0
    ensures Run(P, s0, 7) == Some(w) && w.pc == |P| && Reg(w, 4) == 1
  {
    var s5 := OneOrTwoHead(P, ez, nz, s0);
    var s9 := s5.(pc := 9);
    w := s5.(pc := 10);
    FindAt(P, end, 9);
    StepJump(P, s5);
    StepLab(P, s9);
    RunCons(P, s9, w, 0);
    RunCons(P, s5, s9, 1);
    RunThen(P, s0, 5, s5, 2, w);
  }

  /** As written, `1 ? 1 : 2` runs to the end in 8 steps and finishes with
      0 in its result register: the never-computed else register is copied
      over the then arm's 1. Every run that halts ends that way. */
  lemma OldTernaryCounterexample()
    ensures var P := OneOrTwo(false);
      var r := Run(P, State(0, map[], map[]), 8);
      r.Some? && r.value.pc == |P| && Reg(r.value, 4) == 0
    ensures forall t :: Reaches(OneOrTwo(false), State(0, map[], map[]), t) && t.pc == |OneOrTwo(false)| ==> Reg(t, 4) == 0
  {
    var ez, nz, end := Local("f", 0), Local("f", 1), Local("f", 2);
    OneOrTwoLines(ez, nz, end);
    var P := OneOrTwo(false);
    var s0 := State(0, map[], map[]);
    var w := OneOrTwoWalk(P, ez, nz, end, s0);
    forall t | Reaches(P, s0, t) && t.pc == |P| ensures Reg(t, 4) == 0 {
      HaltedUnique(P, s0, t, w);
    }
  }

  /** Corrected, `1 ? 1 : 2` runs to the end in 7 steps and finishes with
      1, as does every run that halts. */
  lemma OldTernaryFixedExample()
    ensures var P := OneOrTwo(true);
      var r := Run(P, State(0, map[], map[]), 7);
      r.Some? && r.value.pc == |P| && Reg(r.value, 4) == 1
    ensures forall t :: Reaches(OneOrTwo(true), State(0, map[], map[]), t) && t.pc == |OneOrTwo(true)| ==> Reg(t, 4) == 1
  {
    var ez, nz, end := Local("f", 0), Local("f", 1), Local("f", 2);
    OneOrTwoLines(ez, nz, end);
    var P := OneOrTwo(true);
    var s0 := State(0, map[], map[]);
    var w := OneOrTwoFixedWalk(P, ez, nz, end, s0);
    forall t | Reaches(P, s0, t) && t.pc == |P| ensures Reg(t, 4) == 1 {
      HaltedUnique(P, s0, t, w);
    }
  }
}
