/** Console output of the C runtime (rt/src/stdio.c): integer and string
    printing and a small printf, all built on putchar. The characters
    putchar is given are collected in a log. */
module Stdio {
  import opened Wrappers
  import opened CStrings
  import opened Stdarg

  /** The decimal digits of `n`, most significant first, as characters;
      the recursion of __minivm_putui. */
  function Digits(n: nat): (s: seq<int>)
    ensures |s| >= 1
    ensures forall k :: 0 <= k < |s| ==> '0' as int <= s[k] <= '9' as int
    ensures n != 0 ==> s[0] != '0' as int
    ensures n == 0 ==> s == ['0' as int]
  {
    if n >= 10 then Digits(n / 10) + [n % 10 + '0' as int] else [n % 10 + '0' as int]
  }

  /** The number a string of decimal digit characters denotes. */
  function Value(s: seq<int>): int {
    if |s| == 0 then 0 else 10 * Value(s[..|s| - 1]) + (s[|s| - 1] - '0' as int)
  }

  /** Reading back the printed digits gives the number. */
  lemma {:induction false} DigitsValue(n: nat)
    ensures Value(Digits(n)) == n
  {
    if n >= 10 {
      DigitsValue(n / 10);
      var s := Digits(n);
      assert s[..|s| - 1] == Digits(n / 10);
    }
  }

  /** What __minivm_putsi prints: a minus sign before the digits of the
      magnitude when `n` is negative. */
  function SignedDigits(n: int): seq<int> {
    if n < 0 then ['-' as int] + Digits(-n) else Digits(n)
  }

  /** The output of printf and the final argument cursor, walking the
      format from index `i` with the cursor at `ap`; None where the walk
      would leave memory or print a string that has no terminator. A
      '%' before the terminator prints '?', and the walk goes on after
      the terminator. */
  ghost function Format(m: seq<int>, i: int, ap: int): Option<(seq<int>, int)>
    requires 0 <= i
    decreases |m| - i
  {
    if i >= |m| then None
    else if m[i] == 0 then Some(([], ap))
    else if m[i] != '%' as int then
      match Format(m, i + 1, ap)
      case None => None
      case Some(rest) => Some(([m[i]] + rest.0, rest.1))
    else if i + 1 >= |m| then None
    else if m[i + 1] == 'd' as int || m[i + 1] == 'i' as int then
      if !(0 <= ap < |m|) then None
      else
        match Format(m, i + 2, ap + 1)
        case None => None
        case Some(rest) => Some((SignedDigits(m[ap]) + rest.0, rest.1))
    else if m[i + 1] == 's' as int then
      if !(0 <= ap < |m|) || !Terminated(m, m[ap]) then None
      else
        match Format(m, i + 2, ap + 1)
        case None => None
        case Some(rest) => Some((Str(m, m[ap]) + rest.0, rest.1))
    else
      match Format(m, i + 2, ap)
      case None => None
      case Some(rest) => Some((['?' as int] + rest.0, rest.1))
  }

  /** A format of plain characters is printed verbatim and consumes no
      argument. */
  lemma {:induction false} PlainFormat(m: seq<int>, i: nat, ap: int)
    requires Terminated(m, i)
    requires forall k :: i <= k < i + Length(m, i) ==> m[k] != '%' as int
    ensures Format(m, i, ap) == Some((Str(m, i), ap))
    decreases |m| - i
  {
    if m[i] == 0 {
      assert Length(m, i) == 0;
      assert Str(m, i) == [];
    } else {
      assert Length(m, i) > 0 && m[i] != '%' as int;
      assert Terminated(m, i + 1) && Length(m, i + 1) == Length(m, i) - 1 by {
        LengthUnique(m, i + 1, Length(m, i) - 1);
      }
      PlainFormat(m, i + 1, ap);
      assert Str(m, i) == [m[i]] + Str(m, i + 1);
    }
  }

  /** The walk past an ordinary character prints it. */
  lemma FormatChar(m: seq<int>, i: nat, ap: int)
    requires Format(m, i, ap).Some? && m[i] != 0 && m[i] != '%' as int
    ensures Format(m, i + 1, ap).Some?
    ensures Format(m, i, ap).value.0 == [m[i]] + Format(m, i + 1, ap).value.0
  {
  }

  /** The walk past `%d` or `%i` prints the argument at the cursor
      signed and moves the cursor on. */
  lemma FormatInt(m: seq<int>, i: nat, ap: int)
    requires Format(m, i, ap).Some? && m[i] == '%' as int
    requires m[i + 1] == 'd' as int || m[i + 1] == 'i' as int
    ensures 0 <= ap < |m| && Format(m, i + 2, ap + 1).Some?
    ensures Format(m, i, ap).value.0 == SignedDigits(m[ap]) + Format(m, i + 2, ap + 1).value.0
  {
  }

  /** The walk past `%s` prints the string the argument at the cursor
      points to and moves the cursor on. */
  lemma FormatString(m: seq<int>, i: nat, ap: int)
    requires Format(m, i, ap).Some? && m[i] == '%' as int && m[i + 1] == 's' as int
    ensures 0 <= ap < |m| && Terminated(m, m[ap]) && Format(m, i + 2, ap + 1).Some?
    ensures Format(m, i, ap).value.0 == Str(m, m[ap]) + Format(m, i + 2, ap + 1).value.0
  {
  }

  /** The walk past '%' and any other character prints '?'. */
  lemma FormatOther(m: seq<int>, i: nat, ap: int)
    requires Format(m, i, ap).Some? && m[i] == '%' as int
    requires m[i + 1] != 'd' as int && m[i + 1] != 'i' as int && m[i + 1] != 's' as int
    ensures Format(m, i + 2, ap).Some?
    ensures Format(m, i, ap).value.0 == ['?' as int] + Format(m, i + 2, ap).value.0
  {
  }

  /** The console: `text` is everything handed to putchar so far. */
  class Console {
    var text: seq<int>

    constructor ()
      ensures text == []
    {
      text := [];
    }

    /** putchar, an external routine of the virtual machine, appends one
        character. */
    method Putchar(c: int)
      modifies this
      ensures text == old(text) + [c]
    {
      text := text + [c];
    }

    /** __minivm_putui (rt/src/stdio.c:8-13): the digits of `n`. */
    method Putui(n: nat)
      modifies this
      ensures text == old(text) + Digits(n)
      decreases n
    {
      if n >= 10 {
        Putui(n / 10);
      }
      Putchar(n % 10 + '0' as int);
    }

    /** __minivm_putsi (rt/src/stdio.c:15-22): a sign and the digits. */
    method Putsi(n: int)
      modifies this
      ensures text == old(text) + SignedDigits(n)
    {
      if n < 0 {
        Putchar('-' as int);
        Putui(-n);
      } else {
        Putui(n);
      }
    }

    /** __minivm_puts (rt/src/stdio.c:24-33): every character before the
        terminator, and not the terminator. */
    method Puts(mem: array<int>, p: int)
      requires Terminated(mem[..], p)
      modifies this
      ensures text == old(text) + Str(mem[..], p)
    {
      var q := p;
      while true
        invariant p <= q <= p + Length(mem[..], p)
        invariant text == old(text) + mem[p..q]
        decreases p + Length(mem[..], p) - q
      {
        var chr := mem[q];
        if chr == 0 {
          break;
        }
        Putchar(chr);
        q := q + 1;
      }
    }

    /** printf (rt/src/stdio.c:35-54): the format is the word at address
        `strAddr`, where the named parameter lies, and the arguments
        follow it. */
    method Printf(mem: array<int>, strAddr: int) returns (r: int)
      requires 0 <= strAddr < mem.Length && mem[strAddr] >= 0
      requires Format(mem[..], mem[strAddr], strAddr + 1).Some?
      modifies this
      ensures r == 0
      ensures text == old(text) + Format(mem[..], mem[strAddr], strAddr + 1).value.0
    {
      ghost var total := Format(mem[..], mem[strAddr], strAddr + 1).value.0;
      var ap := new VaList();
      ap.Start(strAddr, 1);
      var i := mem[strAddr];
      while mem[i] != 0
        invariant 0 <= i && Format(mem[..], i, ap.ptr).Some?
        invariant text + Format(mem[..], i, ap.ptr).value.0 == old(text) + total
        decreases mem.Length - i
      {
        i := PrintfRound(mem, i, ap);
      }
      var _ := ap.End();
      r := 0;
    }

    /** One round of printf's loop: a character printed as it is, or a
        conversion after '%'; `j` is where the next round starts. */
    method PrintfRound(mem: array<int>, i: nat, ap: VaList) returns (j: nat)
      requires Format(mem[..], i, ap.ptr).Some? && mem[i] != 0
      modifies this, ap
      ensures i < j && Format(mem[..], j, ap.ptr).Some?
      ensures text + Format(mem[..], j, ap.ptr).value.0 == old(text) + Format(mem[..], i, old(ap.ptr)).value.0
    {
      if mem[i] == '%' as int {
        j := PrintfConversion(mem, i, ap);
      } else {
        ghost var m := mem[..];
        FormatChar(m, i, ap.ptr);
        Putchar(mem[i]);
        j := i + 1;
        ghost var rest := Format(m, j, ap.ptr).value.0;
        assert text + rest == old(text) + ([mem[i]] + rest);
      }
    }

    /** The conversion after a '%': `%d` and `%i` print an int argument
        signed, `%s` a string argument, and any other character '?'
        without consuming an argument. */
    method PrintfConversion(mem: array<int>, i: nat, ap: VaList) returns (j: nat)
      requires Format(mem[..], i, ap.ptr).Some? && mem[i] == '%' as int
      modifies this, ap
      ensures j == i + 2 && Format(mem[..], j, ap.ptr).Some?
      ensures text + Format(mem[..], j, ap.ptr).value.0 == old(text) + Format(mem[..], i, old(ap.ptr)).value.0
    {
      var c := mem[i + 1];
      j := i + 2;
      if c == 'd' as int || c == 'i' as int {
        PrintfInt(mem, i, ap);
      } else if c == 's' as int {
        PrintfString(mem, i, ap);
      } else {
        ghost var m := mem[..];
        FormatOther(m, i, ap.ptr);
        Putchar('?' as int);
        ghost var rest := Format(m, j, ap.ptr).value.0;
        assert text + rest == old(text) + (['?' as int] + rest);
      }
    }

    /** `%d` or `%i`: the next argument, printed signed. */
    method PrintfInt(mem: array<int>, i: nat, ap: VaList)
      requires Format(mem[..], i, ap.ptr).Some? && mem[i] == '%' as int
      requires mem[i + 1] == 'd' as int || mem[i + 1] == 'i' as int
      modifies this, ap
      ensures Format(mem[..], i + 2, ap.ptr).Some?
      ensures text + Format(mem[..], i + 2, ap.ptr).value.0 == old(text) + Format(mem[..], i, old(ap.ptr)).value.0
    {
      ghost var m := mem[..];
      FormatInt(m, i, ap.ptr);
      var v := ap.Arg(mem, 1);
      Putsi(v);
      ghost var rest := Format(m, i + 2, ap.ptr).value.0;
      assert text + rest == old(text) + (SignedDigits(v) + rest);
    }

    /** `%s`: the string the next argument points to. */
    method PrintfString(mem: array<int>, i: nat, ap: VaList)
      requires Format(mem[..], i, ap.ptr).Some? && mem[i] == '%' as int && mem[i + 1] == 's' as int
      modifies this, ap
      ensures Format(mem[..], i + 2, ap.ptr).Some?
      ensures text + Format(mem[..], i + 2, ap.ptr).value.0 == old(text) + Format(mem[..], i, old(ap.ptr)).value.0
    {
      ghost var m := mem[..];
      FormatString(m, i, ap.ptr);
      var s := ap.Arg(mem, 1);
      Puts(mem, s);
      ghost var rest := Format(m, i + 2, ap.ptr).value.0;
      assert text + rest == old(text) + (Str(m, s) + rest);
    }
  }
}
