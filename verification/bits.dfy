/** The shift and bitwise helpers of the C runtime (rt/bits.c): library
    functions a program may call. The compiler does not call them (it
    emits the VM's own shift and bitwise instructions), and main's runtime
    list does not compile the file. C `int` is modelled unbounded; C
    division and remainder truncate toward zero. */
module Bits {

  /** 2 to the power `n`. */
  function Pow2(n: nat): (r: nat)
    ensures r >= 1
  {
    if n == 0 then 1 else 2 * Pow2(n - 1)
  }

  /** C's `/` for a positive divisor: the quotient truncated toward zero. */
  function CDiv(a: int, b: int): int
    requires b > 0
  {
    if a >= 0 then a / b else -((-a) / b)
  }

  /** C's `%` for a positive divisor: the remainder that goes with CDiv,
      which has the sign of `a`. */
  function CRem(a: int, b: int): (r: int)
    requires b > 0
    ensures -b < r < b && (a >= 0 ==> r >= 0) && (a <= 0 ==> r <= 0)
  {
    a - b * CDiv(a, b)
  }

  /** __minivm_bits_shl (rt/bits.c:2-8): doubling `val` once per bit. */
  method Shl(val: int, bits: int) returns (r: int)
    ensures r == if bits > 0 then val * Pow2(bits) else val
  {
    r := val;
    var b := bits;
    while b > 0
      invariant (bits <= 0 && b == bits && r == val) || (0 <= b <= bits && r == val * Pow2(bits - b))
    {
      b := b - 1;
      r := r + r;
      assert r == val * Pow2(bits - b) by {
        assert Pow2(bits - b) == 2 * Pow2(bits - b - 1);
      }
    }
  }

  /** __minivm_bits_shr (rt/bits.c:10-12): division by `shl(1, bits)`. */
  method Shr(val: int, bits: int) returns (r: int)
    ensures r == CDiv(val, if bits > 0 then Pow2(bits) else 1)
  {
    var d := Shl(1, bits);
    r := CDiv(val, d);
  }

  /** Shifting a non-negative value left and then right by the same
      count gives it back. */
  lemma ShiftRoundTrip(val: nat, bits: nat)
    ensures CDiv(val * Pow2(bits), Pow2(bits)) == val
  {
    DivUnique(val * Pow2(bits), Pow2(bits), val, 0);
  }

  /** Division is determined by any quotient and remainder in range. */
  lemma DivUnique(a: int, d: int, q: int, r: int)
    requires d > 0 && a == d * q + r && 0 <= r < d
    ensures a / d == q && a % d == r
  {
    var q0, r0 := a / d, a % d;
    var k := q0 - q;
    assert d * k == r - r0 by {
      assert d * q0 == d * q + d * k;
    }
  }

  // ----------------------------------------------------- xor / or / and

  /** Which of the three loops: the test combining the two operand bits. */
  datatype BitOp = Xor | Or | And

  function Apply(op: BitOp, x: bool, y: bool): bool {
    match op
    case Xor => x != y
    case Or => x || y
    case And => x && y
  }

  /** The reference: the bitwise operation on non-negative numbers, bit
      by bit from the least significant. */
  function Bitwise(op: BitOp, a: nat, b: nat): nat
    decreases a + b
  {
    if a == 0 && b == 0 then 0
    else (if Apply(op, a % 2 == 1, b % 2 == 1) then 1 else 0) + 2 * Bitwise(op, a / 2, b / 2)
  }

  /** The test of the loops as written: the remainder by `bit` compared
      with twice `bit`. */
  predicate AsWrittenTest(op: BitOp, lhs: int, rhs: int, bit: int)
    requires bit > 0
  {
    Apply(op, CRem(lhs, bit) > bit + bit, CRem(rhs, bit) > bit + bit)
  }

  /** The loop of __minivm_bits_xor, _or and _and (rt/bits.c:14-57), as
      written: since `lhs % bit` is below `bit`, which is below
      `nextbit`, the test never holds and nothing is ever added. */
  method BitsAsWritten(op: BitOp, lhs: int, rhs: int) returns (r: int)
    ensures r == 0
  {
    r := 0;
    var bit := 1;
    while true
      invariant bit >= 1 && r == 0
      decreases if bit <= lhs || bit <= rhs then (if lhs < rhs then rhs else lhs) - bit + 1 else 0
    {
      var nextbit := bit + bit;
      if bit > lhs && bit > rhs {
        return r;
      }
      if AsWrittenTest(op, lhs, rhs, bit) {
        r := r + bit;
      }
      bit := nextbit;
    }
  }

  /** xor of 1 and 2 is 3, yet the loop as written returns 0. */
  lemma XorOfOneAndTwo()
    ensures Bitwise(Xor, 1, 2) == 3
    ensures !AsWrittenTest(Xor, 1, 2, 1) && !AsWrittenTest(Xor, 1, 2, 2)
  {
    assert Bitwise(Xor, 0, 1) == 1 by {
      assert Bitwise(Xor, 0, 0) == 0;
    }
  }

  /** The bit the loop adds at the current position, from the current
      quotients of the operands by `bit`. */
  function Digit(op: BitOp, x: nat, y: nat): nat {
    if Apply(op, x % 2 == 1, y % 2 == 1) then 1 else 0
  }

  /** With `lhs == bit * x + lr` and `lr < bit`, doubling `bit` halves
      the quotient and adds the dropped bit to the remainder. */
  lemma NextQuotient(lhs: nat, bit: nat, x: nat, lr: nat)
    requires bit >= 1 && lhs == bit * x + lr && lr < bit
    ensures lhs == (2 * bit) * (x / 2) + (lr + bit * (x % 2)) && lr + bit * (x % 2) < 2 * bit
  {
    assert bit * x == (2 * bit) * (x / 2) + bit * (x % 2) by {
      assert x == 2 * (x / 2) + x % 2;
    }
    assert bit * (x % 2) <= bit;
  }

  /** Once `bit` exceeds `lhs`, the quotient is 0. */
  lemma ZeroQuotient(lhs: nat, bit: nat, x: nat, lr: nat)
    requires bit > lhs && lhs == bit * x + lr
    ensures x == 0
  {
  }

  /** Distributing a product over a digit and a doubled rest. */
  lemma MulSplit(bit: int, D: int, B: int)
    ensures bit * (D + 2 * B) == bit * D + (2 * bit) * B
  {
  }

  /** One round of the corrected loop keeps its running-total invariant. */
  lemma FixedRound(op: BitOp, x: nat, y: nat, bit: nat, r: int, total: int)
    requires r + bit * Bitwise(op, x, y) == total
    ensures r + bit * Digit(op, x, y) + (2 * bit) * Bitwise(op, x / 2, y / 2) == total
  {
    var D, B := Digit(op, x, y), Bitwise(op, x / 2, y / 2);
    var W := Bitwise(op, x, y);
    assert W == D + 2 * B by {
      if x == 0 && y == 0 {
        assert D == 0 && B == 0;
      }
    }
    MulSplit(bit, D, B);
  }

  /** The invariant of the corrected loop: `x` and `y` are the operands
      divided by `bit`, and `r` holds the result's bits below `bit`. */
  ghost predicate FixedInv(op: BitOp, lhs: nat, rhs: nat, bit: int, x: nat, y: nat, lr: nat, rr: nat, r: int) {
    bit >= 1 && lhs == bit * x + lr && lr < bit && rhs == bit * y + rr && rr < bit &&
    r + bit * Bitwise(op, x, y) == Bitwise(op, lhs, rhs)
  }

  /** One round of the corrected loop: the test reads the quotients, and
      the invariant holds again for twice `bit`. */
  lemma FixedLoopRound(op: BitOp, lhs: nat, rhs: nat, bit: int, x: nat, y: nat, lr: nat, rr: nat, r: int)
    requires FixedInv(op, lhs, rhs, bit, x, y, lr, rr, r)
    ensures lhs / bit == x && rhs / bit == y
    ensures FixedInv(op, lhs, rhs, 2 * bit, x / 2, y / 2, lr + bit * (x % 2), rr + bit * (y % 2),
                     r + (if Apply(op, x % 2 == 1, y % 2 == 1) then bit else 0))
  {
    DivUnique(lhs, bit, x, lr);
    DivUnique(rhs, bit, y, rr);
    FixedRound(op, x, y, bit, r, Bitwise(op, lhs, rhs));
    NextQuotient(lhs, bit, x, lr);
    NextQuotient(rhs, bit, y, rr);
  }

  /** The loop with the test the helpers evidently mean: is bit `bit`
      set in each operand. */
  method BitsFixed(op: BitOp, lhs: int, rhs: int) returns (r: int)
    requires lhs >= 0 && rhs >= 0
    ensures r == Bitwise(op, lhs, rhs)
  {
    r := 0;
    var bit := 1;
    ghost var x: nat, y: nat, lr: nat, rr: nat := lhs, rhs, 0, 0;
    while true
      invariant FixedInv(op, lhs, rhs, bit, x, y, lr, rr, r)
      decreases if bit <= lhs || bit <= rhs then (if lhs < rhs then rhs else lhs) - bit + 1 else 0
    {
      var nextbit := bit + bit;
      if bit > lhs && bit > rhs {
        ZeroQuotient(lhs, bit, x, lr);
        ZeroQuotient(rhs, bit, y, rr);
        return r;
      }
      FixedLoopRound(op, lhs, rhs, bit, x, y, lr, rr, r);
      if Apply(op, (lhs / bit) % 2 == 1, (rhs / bit) % 2 == 1) {
        r := r + bit;
      }
      x, y, lr, rr := x / 2, y / 2, lr + bit * (x % 2), rr + bit * (y % 2);
      bit := nextbit;
    }
  }

  /** The three operations relate as in a binary adder: xor plus twice
      and is the sum, and or is xor plus and. */
  lemma {:induction false} AdderIdentity(a: nat, b: nat)
    ensures Bitwise(Xor, a, b) + 2 * Bitwise(And, a, b) == a + b
    ensures Bitwise(Or, a, b) == Bitwise(Xor, a, b) + Bitwise(And, a, b)
    decreases a + b
  {
    if a != 0 || b != 0 {
      AdderIdentity(a / 2, b / 2);
    }
  }
}
