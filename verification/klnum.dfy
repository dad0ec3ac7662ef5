/** The number and byte-word helpers of the Lisp system in test/kl.c,
    in the 16-bit configuration MiniVM builds (test/kl.c:7-9, 31-41):
    cells are unsigned 16-bit words, fixnums range over 0..FIXLIM, and
    byte vectors hold words as two bytes, low byte first. */
module KlNum {
  import opened Wrappers
  import opened Stdio

  /** WORDSIZE, WORDMASK and FIXLIM (test/kl.c:33-37). */
  const WordSize := 2
  const WordMask := 0xffff
  const FixLim := 65535

  /** `word(b, i)` (test/kl.c:316): the low byte at `i`, the high byte
      after it; with byte-sized cells the `|` of the source adds. */
  function Word(b: seq<int>, i: nat): int
    requires i + 1 < |b|
  {
    b[i] + 256 * b[i + 1]
  }

  /** The two bytes of `w` recombine to `w` masked to a word. */
  lemma ByteSplit(w: nat)
    ensures w % 256 + 256 * ((w / 256) % 256) == w % 0x10000
  {
    var q, r := w / 0x10000, w % 0x10000;
    var a, c := r / 256, r % 256;
    assert w == 256 * (256 * q + a) + c;
    assert w / 256 == 256 * q + a && w % 256 == c;
    assert (w / 256) % 256 == a;
  }

  /** putword (test/kl.c:318-321): the low and high byte of `w` at `i`
      and `i + 1` (`w & 255` and `(w >> 8) & 255`), and no other byte;
      reading the word back gives `w & WORDMASK`. */
  method PutWord(b: array<int>, i: nat, w: nat)
    requires i + 1 < b.Length
    modifies b
    ensures b[..] == old(b[..])[i := w % 256][i + 1 := (w / 256) % 256]
    ensures Word(b[..], i) == w % (WordMask + 1)
  {
    b[i] := w % 256;
    b[i + 1] := (w / 256) % 256;
    ByteSplit(w);
  }

  /** The number of decimal digits of a cell is at most five. */
  lemma {:induction false} DigitsOfCell(n: nat)
    requires n <= FixLim
    ensures |Digits(n)| <= 5
  {
    if n >= 10 {
      DigitsWithin(n / 10, 4);
    }
  }

  function Pow10(k: nat): nat {
    if k == 0 then 1 else 10 * Pow10(k - 1)
  }

  lemma {:induction false} DigitsWithin(n: nat, k: nat)
    requires n < Pow10(k)
    ensures |Digits(n)| <= if k == 0 then 1 else k
  {
    if n >= 10 {
      assert k >= 2 && n / 10 < Pow10(k - 1);
      DigitsWithin(n / 10, k - 1);
    }
  }

  /** The digits of `n`, split at the last one. */
  lemma LastDigit(n: nat)
    ensures Digits(n) == (if n / 10 > 0 then Digits(n / 10) else []) + [n % 10 + '0' as int]
  {
  }

  /** ntoa (test/kl.c:278-290): the digits of `n` are written backwards
      from the end of the 20-character buffer, before a terminator, and
      the result points to the first of them; "0" for 0. */
  method Ntoa(buf: array<int>, n: nat) returns (p: nat)
    requires buf.Length == 20 && n <= FixLim
    modifies buf
    ensures 14 <= p < 19 && buf[p..19] == Digits(n) && buf[19] == 0
    ensures buf[..p] == old(buf[..p])
  {
    var q := 19;
    p := q;
    buf[p] := 0;
    var v: nat := n;
    ghost var D := Digits(n);
    DigitsOfCell(n);
    while v != 0 || p == q
      invariant 14 <= p <= q && buf[q] == 0 && q - p <= |D|
      invariant p == q ==> v == n
      invariant p < q ==> v == 0 || Pending(v) == D[..|D| - (q - p)]
      invariant p < q ==> (v == 0 <==> q - p == |D|)
      invariant forall k :: p <= k < q ==> buf[k] == D[|D| - q + k]
      invariant buf[..p] == old(buf[..p])
      decreases p
    {
      NtoaStep(n, v, q - p, p == q);
      p := p - 1;
      buf[p] := v % 10 + '0' as int;
      v := v / 10;
    }
    assert buf[p..19] == D;
  }

  /** The digits of `v` still to be written: none once `v` is 0. */
  function Pending(v: nat): seq<int> {
    if v > 0 then Digits(v) else []
  }

  /** One round of ntoa, with `j` digits written: the last digit of `v`
      is the digit of `n` just before them, and the digits of `v / 10`
      remain; on the first round nothing is written and `v` is `n`. */
  lemma NtoaStep(n: nat, v: nat, j: nat, first: bool)
    requires first ==> v == n && j == 0
    requires !first ==> v != 0 && j <= |Digits(n)| && Pending(v) == Digits(n)[..|Digits(n)| - j]
    ensures j < |Digits(n)| && Digits(n)[|Digits(n)| - j - 1] == v % 10 + '0' as int
    ensures v / 10 == 0 || Pending(v / 10) == Digits(n)[..|Digits(n)| - j - 1]
    ensures v / 10 == 0 <==> j + 1 == |Digits(n)|
  {
    LastDigit(v);
    var D := Digits(n);
    assert Digits(v) == Pending(v / 10) + [v % 10 + '0' as int];
    assert Digits(v) == D[..|D| - j];
  }

  /** The step of aton for one more digit: the overflow tests as written,
      `FIXLIM / v < 10` before multiplying and `v > FIXLIM - u` before
      adding, with `u` the character less '0' as a cell. */
  function AtonStep(v: nat, c: int): Result<nat> {
    var u := (c - '0' as int) % 0x10000;
    if v != 0 && FixLim / v < 10 then Failure("overflow")
    else if v * 10 > FixLim - u then Failure("overflow")
    else Success(v * 10 + u)
  }

  /** aton over the characters of `s` before the terminator, digit by
      digit from the left. */
  function AtonOf(s: seq<int>): Result<nat>
    decreases |s|
  {
    if |s| == 0 then Success(0)
    else match AtonOf(s[..|s| - 1])
      case Failure(e) => Failure(e)
      case Success(v) => AtonStep(v, s[|s| - 1])
  }

  /** aton (test/kl.c:861-876): the value of a digit string, or an
      overflow error as soon as it would exceed FIXLIM. */
  method Aton(s: seq<int>) returns (r: Result<nat>)
    ensures r == AtonOf(s)
  {
    var v := 0;
    var i := 0;
    while i < |s|
      invariant 0 <= i <= |s| && AtonOf(s[..i]) == Success(v)
    {
      AtonOfNext(s, i);
      var c := s[i];
      var u := (c - '0' as int) % 0x10000;
      if v != 0 && FixLim / v < 10 {
        AtonFails(s, i + 1);
        return Failure("overflow");
      }
      v := v * 10;
      if v > FixLim - u {
        AtonFails(s, i + 1);
        return Failure("overflow");
      }
      v := v + u;
      i := i + 1;
    }
    assert s[..i] == s;
    r := Success(v);
  }

  /** aton over one more character. */
  lemma AtonOfNext(s: seq<int>, i: nat)
    requires i < |s| && AtonOf(s[..i]).Success?
    ensures AtonOf(s[..i + 1]) == AtonStep(AtonOf(s[..i]).value, s[i])
  {
    assert s[..i + 1][..i] == s[..i];
  }

  /** Once a prefix overflows, so does the whole string. */
  lemma {:induction false} AtonFails(s: seq<int>, i: nat)
    requires i <= |s| && AtonOf(s[..i]).Failure?
    ensures AtonOf(s) == AtonOf(s[..i])
    decreases |s| - i
  {
    if i < |s| {
      assert s[..i + 1][..i] == s[..i];
      AtonFails(s, i + 1);
    } else {
      assert s[..i] == s;
    }
  }

  predicate Digital(s: seq<int>) {
    forall k :: 0 <= k < |s| ==> '0' as int <= s[k] <= '9' as int
  }

  /** The value of digit strings only grows as digits are added. */
  lemma {:induction false} ValuePrefix(s: seq<int>, i: nat)
    requires Digital(s) && i <= |s|
    ensures 0 <= Value(s[..i]) <= Value(s)
    decreases |s| - i
  {
    if i < |s| {
      ValuePrefix(s, i + 1);
      assert s[..i + 1][..i] == s[..i];
      ValueNonNegative(s[..i]);
    } else {
      assert s[..i] == s;
      ValueNonNegative(s);
    }
  }

  lemma {:induction false} ValueNonNegative(s: seq<int>)
    requires Digital(s)
    ensures Value(s) >= 0
    decreases |s|
  {
    if |s| > 0 {
      ValueNonNegative(s[..|s| - 1]);
    }
  }

  /** A digit string is accepted exactly when its value is at most
      FIXLIM, and then aton yields that value. */
  lemma {:induction false} AtonDigits(s: seq<int>)
    requires Digital(s)
    ensures AtonOf(s).Success? <==> Value(s) <= FixLim
    ensures AtonOf(s).Success? ==> AtonOf(s).value == Value(s)
    decreases |s|
  {
    if |s| > 0 {
      var init := s[..|s| - 1];
      AtonDigits(init);
      ValueNonNegative(init);
      var d := s[|s| - 1] - '0' as int;
      assert Value(s) == 10 * Value(init) + d;
      if AtonOf(init).Success? {
        AtonDigitStep(Value(init), d);
      }
    }
  }

  /** One digit `d` after an accepted value `v`: the two overflow tests
      together refuse exactly the results above FIXLIM. */
  lemma AtonDigitStep(v: nat, d: int)
    requires v <= FixLim && 0 <= d <= 9
    ensures AtonStep(v, d + '0' as int).Success? <==> 10 * v + d <= FixLim
    ensures AtonStep(v, d + '0' as int).Success? ==> AtonStep(v, d + '0' as int).value == 10 * v + d
  {
    assert (d + '0' as int - '0' as int) % 0x10000 == d;
    if v != 0 {
      DivBound(FixLim, v, 10);
    }
  }

  /** `a / b < k` exactly when `a < b * k`. */
  lemma DivBound(a: nat, b: nat, k: nat)
    requires b > 0
    ensures a / b < k <==> a < b * k
  {
    var q, r := a / b, a % b;
    assert a == b * q + r && 0 <= r < b;
    if q < k {
      MulMono(b, q + 1, k);
      assert b * (q + 1) == b * q + b;
    } else {
      MulMono(b, k, q);
    }
  }

  /** Multiplying by a natural number keeps order. */
  lemma {:induction false} MulMono(b: nat, x: nat, y: nat)
    requires x <= y
    ensures b * x <= b * y
    decreases y - x
  {
    if x < y {
      MulMono(b, x, y - 1);
      assert b * y == b * (y - 1) + b;
    }
  }

  /** Printing a fixnum and reading it back gives it again. */
  lemma NtoaAtonRoundTrip(n: nat)
    requires n <= FixLim
    ensures AtonOf(Digits(n)) == Success(n)
  {
    DigitsValue(n);
    AtonDigits(Digits(n));
  }

  /** One more than FIXLIM is refused. */
  lemma AtonOverflow()
    ensures AtonOf(Digits(FixLim + 1)).Failure?
  {
    DigitsValue(FixLim + 1);
    AtonDigits(Digits(FixLim + 1));
  }
}
