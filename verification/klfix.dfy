/** The fixnum arithmetic and comparison primitives of test/kl.c
    (test/kl.c:1281-1430). Their argument lists are taken as the
    sequence of objects they hold; a fixnum carries its value, any other
    object is a type error. A VM error (vmtype, vmoverflow, vmerror3)
    becomes a Failure naming the kind of error. */
module KlFix {
  import opened Wrappers
  import opened KlNum

  datatype Obj = Fix(v: nat) | Other

  /** Fixnums are cells: their values are at most FIXLIM. */
  predicate Cells(xs: seq<Obj>) {
    forall k :: 0 <= k < |xs| ==> (xs[k].Fix? ==> xs[k].v <= FixLim)
  }

  predicate AllFix(xs: seq<Obj>) {
    forall k :: 0 <= k < |xs| ==> xs[k].Fix?
  }

  /** add1 (test/kl.c:1281-1289). */
  function Add1(x: Obj): (r: Result<nat>)
    requires x.Fix? ==> x.v <= FixLim
    ensures r.Success? <==> x.Fix? && x.v < FixLim
    ensures r.Success? ==> r.value == x.v + 1 <= FixLim
    ensures r.Failure? ==> r.error == if x.Fix? then "overflow" else "type"
  {
    if !x.Fix? then Failure("type")
    else if x.v == FixLim then Failure("overflow")
    else Success(x.v + 1)
  }

  /** sub1 (test/kl.c:1291-1299). */
  function Sub1(x: Obj): (r: Result<nat>)
    ensures r.Success? <==> x.Fix? && x.v > 0
    ensures r.Success? ==> r.value + 1 == x.v
    ensures r.Failure? ==> r.error == if x.Fix? then "overflow" else "type"
  {
    if !x.Fix? then Failure("type")
    else if x.v == 0 then Failure("overflow")
    else Success(x.v - 1)
  }

  /** add1 and sub1 undo each other. */
  lemma Add1Sub1(n: nat)
    requires n < FixLim
    ensures Sub1(Fix(Add1(Fix(n)).value)) == Success(n)
    ensures n > 0 ==> Add1(Fix(Sub1(Fix(n)).value)) == Success(n)
  {
  }

  function Sum(xs: seq<Obj>): nat
    requires AllFix(xs)
  {
    if |xs| == 0 then 0 else Sum(xs[..|xs| - 1]) + xs[|xs| - 1].v
  }

  /** plus as a left fold: the running total from 0, checked before each
      addition against FIXLIM. */
  function PlusOf(xs: seq<Obj>): Result<nat>
    requires Cells(xs)
  {
    if |xs| == 0 then Success(0)
    else match PlusOf(xs[..|xs| - 1])
      case Failure(e) => Failure(e)
      case Success(v) =>
        var x := xs[|xs| - 1];
        if !x.Fix? then Failure("type")
        else if v > FixLim - x.v then Failure("overflow")
        else Success(v + x.v)
  }

  /** plus (test/kl.c:1301-1313). */
  method Plus(xs: seq<Obj>) returns (r: Result<nat>)
    requires Cells(xs)
    ensures r == PlusOf(xs)
  {
    var v := 0;
    for i := 0 to |xs|
      invariant PlusOf(xs[..i]) == Success(v)
    {
      assert xs[..i + 1][..i] == xs[..i];
      var x := xs[i];
      if !x.Fix? {
        PlusFails(xs, i + 1);
        return Failure("type");
      }
      var u := x.v;
      if v > FixLim - u {
        PlusFails(xs, i + 1);
        return Failure("overflow");
      }
      v := v + u;
    }
    assert xs[..|xs|] == xs;
    r := Success(v);
  }

  lemma {:induction false} PlusFails(xs: seq<Obj>, i: nat)
    requires Cells(xs) && i <= |xs| && PlusOf(xs[..i]).Failure?
    ensures PlusOf(xs) == PlusOf(xs[..i])
    decreases |xs| - i
  {
    if i < |xs| {
      assert xs[..i + 1][..i] == xs[..i];
      PlusFails(xs, i + 1);
    } else {
      assert xs[..i] == xs;
    }
  }

  /** plus succeeds exactly on fixnums whose sum is at most FIXLIM, and
      yields the sum. */
  lemma {:induction false} PlusMeaning(xs: seq<Obj>)
    requires Cells(xs)
    ensures PlusOf(xs).Success? <==> AllFix(xs) && Sum(xs) <= FixLim
    ensures PlusOf(xs).Success? ==> PlusOf(xs).value == Sum(xs)
  {
    if |xs| > 0 {
      var init := xs[..|xs| - 1];
      PlusMeaning(init);
      if !AllFix(init) {
        assert !AllFix(xs) by {
          var k :| 0 <= k < |init| && !init[k].Fix?;
          assert xs[k] == init[k];
        }
      }
    }
  }

  function Product(xs: seq<Obj>): nat
    requires AllFix(xs)
  {
    if |xs| == 0 then 1 else Product(xs[..|xs| - 1]) * xs[|xs| - 1].v
  }

  /** times as a left fold: the running product from 1; a step overflows
      when `FIXLIM / v < u` for nonzero `v` and `u`. */
  function TimesOf(xs: seq<Obj>): Result<nat>
    requires Cells(xs)
  {
    if |xs| == 0 then Success(1)
    else match TimesOf(xs[..|xs| - 1])
      case Failure(e) => Failure(e)
      case Success(v) =>
        var x := xs[|xs| - 1];
        if !x.Fix? then Failure("type")
        else if v != 0 && x.v != 0 && FixLim / v < x.v then Failure("overflow")
        else Success(v * x.v)
  }

  /** times (test/kl.c:1315-1327). */
  method Times(xs: seq<Obj>) returns (r: Result<nat>)
    requires Cells(xs)
    ensures r == TimesOf(xs)
  {
    var v := 1;
    for i := 0 to |xs|
      invariant TimesOf(xs[..i]) == Success(v)
    {
      assert xs[..i + 1][..i] == xs[..i];
      var x := xs[i];
      if !x.Fix? {
        TimesFails(xs, i + 1);
        return Failure("type");
      }
      var u := x.v;
      if v != 0 && u != 0 && FixLim / v < u {
        TimesFails(xs, i + 1);
        return Failure("overflow");
      }
      v := v * u;
    }
    assert xs[..|xs|] == xs;
    r := Success(v);
  }

  lemma {:induction false} TimesFails(xs: seq<Obj>, i: nat)
    requires Cells(xs) && i <= |xs| && TimesOf(xs[..i]).Failure?
    ensures TimesOf(xs) == TimesOf(xs[..i])
    decreases |xs| - i
  {
    if i < |xs| {
      assert xs[..i + 1][..i] == xs[..i];
      TimesFails(xs, i + 1);
    } else {
      assert xs[..i] == xs;
    }
  }

  /** Every partial product, from the left, is at most FIXLIM. */
  predicate ProductsBounded(xs: seq<Obj>)
    requires AllFix(xs)
  {
    forall i :: 0 <= i <= |xs| ==> Product(xs[..i]) <= FixLim
  }

  /** times succeeds exactly on fixnums none of whose partial products
      exceeds FIXLIM, and yields the product; the division test is the
      overflow test of the product. */
  lemma {:induction false} TimesMeaning(xs: seq<Obj>)
    requires Cells(xs)
    ensures TimesOf(xs).Success? <==> AllFix(xs) && ProductsBounded(xs)
    ensures TimesOf(xs).Success? ==> TimesOf(xs).value == Product(xs)
  {
    if |xs| == 0 {
      assert xs[..0] == xs;
    } else {
      var init := xs[..|xs| - 1];
      TimesMeaning(init);
      if !AllFix(init) {
        assert !AllFix(xs) by {
          var k :| 0 <= k < |init| && !init[k].Fix?;
          assert xs[k] == init[k];
        }
      } else if AllFix(xs) {
        assert forall i :: 0 <= i <= |init| ==> xs[..i] == init[..i];
        assert xs[..|xs|] == xs;
        assert ProductsBounded(xs) <==> ProductsBounded(init) && Product(xs) <= FixLim by {
          assert forall i :: 0 <= i <= |init| ==> Product(xs[..i]) == Product(init[..i]);
        }
        var v, u := Product(init), xs[|xs| - 1].v;
        if v != 0 && u != 0 {
          DivBound(FixLim, v, u);
        }
      }
    }
  }

  /** difference as a left fold from the first argument, overflowing
      when the running value would go below 0. */
  function DifferenceOf(xs: seq<Obj>): Result<nat>
    requires Cells(xs) && |xs| >= 1
  {
    if |xs| == 1 then (if xs[0].Fix? then Success(xs[0].v) else Failure("type"))
    else match DifferenceOf(xs[..|xs| - 1])
      case Failure(e) => Failure(e)
      case Success(v) =>
        var x := xs[|xs| - 1];
        if !x.Fix? then Failure("type")
        else if v < x.v then Failure("overflow")
        else Success(v - x.v)
  }

  /** difference (test/kl.c:1329-1342). The argument count is checked by
      the caller: there is at least one. */
  method Difference(xs: seq<Obj>) returns (r: Result<nat>)
    requires Cells(xs) && |xs| >= 1
    ensures r == DifferenceOf(xs)
  {
    if !xs[0].Fix? {
      DifferenceFails(xs, 1);
      return Failure("type");
    }
    var v := xs[0].v;
    for i := 1 to |xs|
      invariant DifferenceOf(xs[..i]) == Success(v)
    {
      assert xs[..i + 1][..i] == xs[..i];
      var x := xs[i];
      if !x.Fix? {
        DifferenceFails(xs, i + 1);
        return Failure("type");
      }
      var u := x.v;
      if v < u {
        DifferenceFails(xs, i + 1);
        return Failure("overflow");
      }
      v := v - u;
    }
    assert xs[..|xs|] == xs;
    r := Success(v);
  }

  lemma {:induction false} DifferenceFails(xs: seq<Obj>, i: nat)
    requires Cells(xs) && 1 <= i <= |xs| && DifferenceOf(xs[..i]).Failure?
    ensures DifferenceOf(xs) == DifferenceOf(xs[..i])
    decreases |xs| - i
  {
    if i < |xs| {
      assert xs[..i + 1][..i] == xs[..i];
      DifferenceFails(xs, i + 1);
    } else {
      assert xs[..i] == xs;
    }
  }

  /** difference succeeds exactly on fixnums whose first is at least the
      sum of the rest, and yields the first less that sum. */
  lemma {:induction false} DifferenceMeaning(xs: seq<Obj>)
    requires Cells(xs) && |xs| >= 1
    ensures DifferenceOf(xs).Success? <==> AllFix(xs) && Sum(xs[1..]) <= xs[0].v
    ensures DifferenceOf(xs).Success? ==> DifferenceOf(xs).value == xs[0].v - Sum(xs[1..])
  {
    if |xs| > 1 {
      var init := xs[..|xs| - 1];
      DifferenceMeaning(init);
      assert init[1..] == xs[1..][..|xs| - 2];
      if !AllFix(init) {
        assert !AllFix(xs) by {
          var k :| 0 <= k < |init| && !init[k].Fix?;
          assert xs[k] == init[k];
        }
      }
    }
  }

  /** divide (test/kl.c:1344-1351): the quotient, truncated. */
  function Divide(x: Obj, y: Obj): (r: Result<nat>)
    ensures r.Success? <==> x.Fix? && y.Fix? && y.v != 0
    ensures r.Failure? ==> r.error == if x.Fix? && y.Fix? then "divide by zero" else "type"
  {
    if !x.Fix? || !y.Fix? then Failure("type")
    else if y.v == 0 then Failure("divide by zero")
    else Success(x.v / y.v)
  }

  /** rem (test/kl.c:1353-1360): the remainder. */
  function Rem(x: Obj, y: Obj): (r: Result<nat>)
    ensures r.Success? <==> x.Fix? && y.Fix? && y.v != 0
    ensures r.Failure? ==> r.error == if x.Fix? && y.Fix? then "divide by zero" else "type"
  {
    if !x.Fix? || !y.Fix? then Failure("type")
    else if y.v == 0 then Failure("divide by zero")
    else Success(x.v % y.v)
  }

  /** divide and rem split a fixnum: quotient times divisor plus
      remainder, with the remainder below the divisor. */
  lemma DivideRem(x: nat, y: nat)
    requires y != 0
    ensures Divide(Fix(x), Fix(y)).value * y + Rem(Fix(x), Fix(y)).value == x
    ensures Rem(Fix(x), Fix(y)).value < y
  {
  }

  /** The five comparisons: eqv, lessp, greaterp, not-lessp and
      not-greaterp, each a test of adjacent arguments. */
  datatype Rel = Eqv | Less | Greater | NotLess | NotGreater

  predicate Holds(rel: Rel, a: nat, b: nat) {
    match rel
    case Eqv => a == b
    case Less => a < b
    case Greater => a > b
    case NotLess => a >= b
    case NotGreater => a <= b
  }

  /** A comparison as a left fold: it stops with false at the first
      adjacent pair that fails, before looking at what follows. */
  function ChainOf(rel: Rel, xs: seq<Obj>): Result<bool>
    requires |xs| >= 1
  {
    if |xs| == 1 then (if xs[0].Fix? then Success(true) else Failure("type"))
    else match ChainOf(rel, xs[..|xs| - 1])
      case Failure(e) => Failure(e)
      case Success(ok) =>
        if !ok then Success(false)
        else if !xs[|xs| - 1].Fix? then Failure("type")
        else Success(Holds(rel, xs[|xs| - 2].v, xs[|xs| - 1].v))
  }

  /** eqv, lessp, greaterp, not_lessp and not_greaterp
      (test/kl.c:1362-1430); true is `t`, false NIL. The argument count
      is checked by the caller: there is at least one. */
  method Chain(rel: Rel, xs: seq<Obj>) returns (r: Result<bool>)
    requires |xs| >= 1
    ensures r == ChainOf(rel, xs)
  {
    if !xs[0].Fix? {
      ChainStops(rel, xs, 1);
      return Failure("type");
    }
    var v := xs[0].v;
    for i := 1 to |xs|
      invariant ChainOf(rel, xs[..i]) == Success(true) && xs[i - 1] == Fix(v)
    {
      assert xs[..i + 1][..i] == xs[..i];
      var x := xs[i];
      if !x.Fix? {
        ChainStops(rel, xs, i + 1);
        return Failure("type");
      }
      if !Holds(rel, v, x.v) {
        ChainStops(rel, xs, i + 1);
        return Success(false);
      }
      v := x.v;
    }
    assert xs[..|xs|] == xs;
    r := Success(true);
  }

  /** Once the fold has stopped, the rest of the list is not looked at. */
  lemma {:induction false} ChainStops(rel: Rel, xs: seq<Obj>, i: nat)
    requires 1 <= i <= |xs| && ChainOf(rel, xs[..i]) != Success(true)
    ensures ChainOf(rel, xs) == ChainOf(rel, xs[..i])
    decreases |xs| - i
  {
    if i < |xs| {
      assert xs[..i + 1][..i] == xs[..i];
      ChainStops(rel, xs, i + 1);
    } else {
      assert xs[..i] == xs;
    }
  }

  /** On fixnums a comparison is true exactly when every adjacent pair
      is related: all equal, strictly increasing, strictly decreasing,
      non-increasing or non-decreasing. */
  lemma {:induction false} ChainMeaning(rel: Rel, xs: seq<Obj>)
    requires |xs| >= 1 && AllFix(xs)
    ensures ChainOf(rel, xs) == Success(forall k :: 0 < k < |xs| ==> Holds(rel, xs[k - 1].v, xs[k].v))
  {
    if |xs| > 1 {
      var init := xs[..|xs| - 1];
      ChainMeaning(rel, init);
      assert forall k :: 0 <= k < |init| ==> init[k] == xs[k];
    }
  }
}
