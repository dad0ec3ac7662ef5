/** The string and memory routines of the C runtime (rt/src/string.c).
    Memory is a word array: a pointer is an index into it, and a C string
    is the run of cells from that index up to the first NUL cell. */
module CStrings {
  import opened Wrappers

  /** A NUL cell occurs in `s` at or after index `i`. */
  ghost predicate Terminated(s: seq<int>, i: int) {
    0 <= i && exists k :: i <= k < |s| && s[k] == 0
  }

  /** The number of cells before the first NUL at or after `i`. */
  function Length(s: seq<int>, i: int): (n: nat)
    requires Terminated(s, i)
    ensures i + n < |s| && s[i + n] == 0
    ensures forall k :: i <= k < i + n ==> s[k] != 0
    decreases |s| - i
  {
    if s[i] == 0 then 0
    else
      assert Terminated(s, i + 1) by {
        var k :| i <= k < |s| && s[k] == 0;
        assert i + 1 <= k;
      }
      1 + Length(s, i + 1)
  }

  /** The contents of the C string at `i`, without its terminator. */
  function Str(s: seq<int>, i: int): seq<int>
    requires Terminated(s, i)
  {
    s[i..i + Length(s, i)]
  }

  /** Any position whose cell is NUL and all of whose predecessors from
      `i` are not is where the string ends. */
  lemma LengthUnique(s: seq<int>, i: int, n: nat)
    requires 0 <= i && i + n < |s| && s[i + n] == 0
    requires forall k :: i <= k < i + n ==> s[k] != 0
    ensures Terminated(s, i) && Length(s, i) == n
  {
    assert s[i + n] == 0;
  }

  /** Cells equal to a string and its terminator hold that same string. */
  lemma StrOfCopy(s: seq<int>, i: int, d: seq<int>, p: int)
    requires Terminated(s, i) && 0 <= p && p + Length(s, i) < |d|
    requires forall k :: p <= k <= p + Length(s, i) ==> d[k] == s[i + (k - p)]
    ensures Terminated(d, p) && Length(d, p) == Length(s, i) && Str(d, p) == Str(s, i)
  {
    var n := Length(s, i);
    assert d[p + n] == s[i + n];
    LengthUnique(d, p, n);
  }

  /** strlen: `n` counts the cells before the terminator
      (rt/src/string.c:36-42). */
  method Strlen(a: array<int>, p: int) returns (n: nat)
    requires Terminated(a[..], p)
    ensures n == Length(a[..], p)
  {
    n := 0;
    while a[p + n] != 0
      invariant n <= Length(a[..], p)
      invariant forall k :: p <= k < p + n ==> a[k] != 0
      decreases Length(a[..], p) - n
    {
      n := n + 1;
    }
  }

  // ---------------------------------------------------------------- strcmp

  /** Where the comparison loops of strcmp stop: the first offset at
      which `s` has its NUL or the two strings differ. */
  function Mismatch(s: seq<int>, i: int, t: seq<int>, j: int): (k: nat)
    requires Terminated(s, i) && Terminated(t, j)
    ensures k <= Length(s, i) && k <= Length(t, j)
    ensures forall m :: i <= m < i + k ==> s[m] == t[j + (m - i)]
    ensures s[i + k] == 0 || s[i + k] != t[j + k]
    decreases |s| - i
  {
    if s[i] == 0 || s[i] != t[j] then 0
    else
      assert Terminated(s, i + 1) && Terminated(t, j + 1) by {
        assert Length(s, i) > 0 && Length(t, j) > 0;
        assert s[i + 1 + (Length(s, i) - 1)] == 0 && t[j + 1 + (Length(t, j) - 1)] == 0;
      }
      1 + Mismatch(s, i + 1, t, j + 1)
  }

  /** What strcmp returns: the difference of the cells where the loop
      stopped. */
  function Compare(s: seq<int>, i: int, t: seq<int>, j: int): int
    requires Terminated(s, i) && Terminated(t, j)
  {
    var k := Mismatch(s, i, t, j);
    s[i + k] - t[j + k]
  }

  /** strcmp (rt/src/string.c:6-12): the loop advances while the first
      string has not ended and the two agree. */
  method Strcmp(a: array<int>, p: int, b: array<int>, q: int) returns (r: int)
    requires Terminated(a[..], p) && Terminated(b[..], q)
    ensures r == Compare(a[..], p, b[..], q)
  {
    var k := 0;
    while a[p + k] != 0 && a[p + k] == b[q + k]
      invariant k <= Mismatch(a[..], p, b[..], q)
      decreases Mismatch(a[..], p, b[..], q) - k
    {
      k := k + 1;
    }
    assert k == Mismatch(a[..], p, b[..], q) by {
      assert a[..][p + k] == a[p + k] && b[..][q + k] == b[q + k];
    }
    r := a[p + k] - b[q + k];
  }

  /** strcmp yields 0 exactly when the two strings are equal. */
  lemma CompareZeroIff(s: seq<int>, i: int, t: seq<int>, j: int)
    requires Terminated(s, i) && Terminated(t, j)
    ensures Compare(s, i, t, j) == 0 <==> Str(s, i) == Str(t, j)
  {
    var k := Mismatch(s, i, t, j);
    if Compare(s, i, t, j) == 0 {
      assert s[i + k] == 0 && t[j + k] == 0;
      assert Length(s, i) == k && Length(t, j) == k;
      assert forall m :: 0 <= m < k ==> Str(s, i)[m] == s[i + m] == t[j + m] == Str(t, j)[m];
    }
    if Str(s, i) == Str(t, j) {
      assert |Str(t, j)| == Length(s, i);
    }
  }

  /** Comparing the other way round stops at the same offset. */
  lemma {:induction false} MismatchSymmetric(s: seq<int>, i: int, t: seq<int>, j: int)
    requires Terminated(s, i) && Terminated(t, j)
    ensures Mismatch(s, i, t, j) == Mismatch(t, j, s, i)
    decreases |s| - i
  {
    if s[i] == 0 || s[i] != t[j] {
    } else {
      assert Terminated(s, i + 1) && Terminated(t, j + 1) by {
        assert s[i + 1 + (Length(s, i) - 1)] == 0 && t[j + 1 + (Length(t, j) - 1)] == 0;
      }
      MismatchSymmetric(s, i + 1, t, j + 1);
    }
  }

  /** strcmp is antisymmetric: swapping its arguments negates the result. */
  lemma CompareAntisymmetric(s: seq<int>, i: int, t: seq<int>, j: int)
    requires Terminated(s, i) && Terminated(t, j)
    ensures Compare(s, i, t, j) == -Compare(t, j, s, i)
  {
    MismatchSymmetric(s, i, t, j);
  }

  // --------------------------------------------------------------- strncmp

  /** What strncmp as written returns: the loop also stops after `max`
      equal cells, and the difference of the NEXT cells is returned. */
  function NCompareAsWritten(s: seq<int>, i: int, t: seq<int>, j: int, max: nat): int
    requires Terminated(s, i) && Terminated(t, j)
  {
    var k := if max < Mismatch(s, i, t, j) then max else Mismatch(s, i, t, j);
    s[i + k] - t[j + k]
  }

  /** strncmp (rt/src/string.c:14-20), as written. */
  method Strncmp(a: array<int>, p: int, b: array<int>, q: int, max: nat) returns (r: int)
    requires Terminated(a[..], p) && Terminated(b[..], q)
    ensures r == NCompareAsWritten(a[..], p, b[..], q, max)
  {
    var k := 0;
    var left := max;
    while left != 0 && a[p + k] != 0 && a[p + k] == b[q + k]
      invariant k <= Mismatch(a[..], p, b[..], q) && k + left == max
      decreases left
    {
      left := left - 1;
      k := k + 1;
    }
    r := a[p + k] - b[q + k];
  }

  /** "ab" and "ac" agree in their first character, yet strncmp as
      written with `max` 1 reports them different. */
  lemma StrncmpPastMax()
    ensures Terminated([97, 98, 0], 0) && Terminated([97, 99, 0], 0)
    ensures Str([97, 98, 0], 0)[..1] == Str([97, 99, 0], 0)[..1]
    ensures NCompareAsWritten([97, 98, 0], 0, [97, 99, 0], 0, 1) == -1
  {
    LengthUnique([97, 98, 0], 0, 2);
    LengthUnique([97, 99, 0], 0, 2);
    assert Mismatch([97, 98, 0], 0, [97, 99, 0], 0) == 1 by {
      assert Mismatch([97, 98, 0], 1, [97, 99, 0], 1) == 0;
    }
  }

  /** The bounded comparison section 7.24.4.4 of ISO C describes: after
      `max` equal cells the strings compare equal. */
  function NCompare(s: seq<int>, i: int, t: seq<int>, j: int, max: nat): int
    requires Terminated(s, i) && Terminated(t, j)
  {
    var k := Mismatch(s, i, t, j);
    if max <= k then 0 else s[i + k] - t[j + k]
  }

  /** The string `Str(s, i)` cut after at most `n` cells. */
  function Prefix(s: seq<int>, i: int, n: nat): seq<int>
    requires Terminated(s, i)
  {
    if n < Length(s, i) then Str(s, i)[..n] else Str(s, i)
  }

  /** The corrected strncmp yields 0 exactly when the strings agree in
      their first `max` cells. */
  lemma NCompareZeroIff(s: seq<int>, i: int, t: seq<int>, j: int, max: nat)
    requires Terminated(s, i) && Terminated(t, j)
    ensures NCompare(s, i, t, j, max) == 0 <==> Prefix(s, i, max) == Prefix(t, j, max)
  {
    var k := Mismatch(s, i, t, j);
    var a, b := Prefix(s, i, max), Prefix(t, j, max);
    if max <= k {
      assert |a| == max && |b| == max;
      assert forall m :: 0 <= m < max ==> a[m] == s[i + m] == t[j + m] == b[m];
    } else if s[i + k] == t[j + k] {
      assert s[i + k] == 0 && Length(s, i) == k && Length(t, j) == k;
      assert forall m :: 0 <= m < k ==> a[m] == s[i + m] == t[j + m] == b[m];
    } else if k < Length(s, i) && k < Length(t, j) {
      assert a[k] == s[i + k] && b[k] == t[j + k];
    } else if k == Length(s, i) {
      assert |a| == k && |b| > k;
    } else {
      assert |b| == k && |a| > k;
    }
  }

  /** strncmp with the loop's exit on an exhausted `max` returning 0. */
  method StrncmpFixed(a: array<int>, p: int, b: array<int>, q: int, max: nat) returns (r: int)
    requires Terminated(a[..], p) && Terminated(b[..], q)
    ensures r == NCompare(a[..], p, b[..], q, max)
  {
    var k := 0;
    while k != max && a[p + k] != 0 && a[p + k] == b[q + k]
      invariant k <= Mismatch(a[..], p, b[..], q) && k <= max
      decreases max - k
    {
      k := k + 1;
    }
    if k == max {
      r := 0;
    } else {
      r := a[p + k] - b[q + k];
    }
  }

  // ---------------------------------------------------------------- memcmp

  /** The conversion to uint8_t: reduction modulo 256. */
  function Byte(x: int): int {
    x % 256
  }

  /** What memcmp returns: -1 or 1 by the first differing byte, compared
      as unsigned values, and 0 when all `len` bytes agree. */
  function MemCompare(s: seq<int>, i: nat, t: seq<int>, j: nat, len: nat): (r: int)
    requires i + len <= |s| && j + len <= |t|
    ensures r in {-1, 0, 1}
    decreases len
  {
    if len == 0 then 0
    else if Byte(s[i]) < Byte(t[j]) then -1
    else if Byte(s[i]) > Byte(t[j]) then 1
    else MemCompare(s, i + 1, t, j + 1, len - 1)
  }

  /** memcmp yields 0 exactly when the `len` bytes agree, and swapping
      the arguments negates it. */
  lemma {:induction false} MemCompareProperties(s: seq<int>, i: nat, t: seq<int>, j: nat, len: nat)
    requires i + len <= |s| && j + len <= |t|
    ensures MemCompare(s, i, t, j, len) == 0 <==> forall m :: i <= m < i + len ==> Byte(s[m]) == Byte(t[j + (m - i)])
    ensures MemCompare(s, i, t, j, len) == -MemCompare(t, j, s, i, len)
    decreases len
  {
    if len > 0 {
      MemCompareProperties(s, i + 1, t, j + 1, len - 1);
    }
  }

  /** memcmp (rt/src/string.c:22-34). */
  method Memcmp(a: array<int>, p: nat, b: array<int>, q: nat, len: nat) returns (r: int)
    requires p + len <= a.Length && q + len <= b.Length
    ensures r == MemCompare(a[..], p, b[..], q, len)
  {
    var i := 0;
    while i < len
      invariant i <= len
      invariant MemCompare(a[..], p, b[..], q, len) == MemCompare(a[..], p + i, b[..], q + i, len - i)
    {
      if Byte(a[p + i]) < Byte(b[q + i]) {
        return -1;
      }
      if Byte(a[p + i]) > Byte(b[q + i]) {
        return 1;
      }
      i := i + 1;
    }
    r := 0;
  }

  // ------------------------------------------------------ memset / memcpy

  /** memset (rt/src/string.c:44-49): the first `n` cells from `p` take
      the byte value of `b`, nothing else changes. */
  method Memset(a: array<int>, p: nat, b: int, n: nat)
    requires p + n <= a.Length
    modifies a
    ensures forall k :: 0 <= k < a.Length ==> a[k] == if p <= k < p + n then Byte(b) else old(a[k])
  {
    var i := 0;
    while i < n
      invariant i <= n
      invariant forall k :: 0 <= k < a.Length ==> a[k] == if p <= k < p + i then Byte(b) else old(a[k])
    {
      a[p + i] := Byte(b);
      i := i + 1;
    }
  }

  /** memcpy (rt/src/string.c:58-65): `out[i] == in[i]` for every `i <
      n`, nothing else changes, and `dest` is returned. The regions may
      not overlap (section 7.24.2.1 of ISO C). */
  method Memcpy(dst: array<int>, p: nat, src: array<int>, q: nat, n: nat) returns (r: nat)
    requires p + n <= dst.Length && q + n <= src.Length
    requires src == dst ==> p + n <= q || q + n <= p
    modifies dst
    ensures r == p
    ensures forall k :: 0 <= k < dst.Length ==> dst[k] == if p <= k < p + n then old(src[q + (k - p)]) else old(dst[k])
  {
    var i := 0;
    while i < n
      invariant i <= n
      invariant forall k :: 0 <= k < dst.Length ==> dst[k] == if p <= k < p + i then old(src[q + (k - p)]) else old(dst[k])
      invariant forall m :: q + i <= m < q + n ==> src[m] == old(src[m])
    {
      dst[p + i] := src[q + i];
      i := i + 1;
    }
    r := p;
  }

  /** The size of the temporary memmove copies through. */
  const TmpSize := 4096

  /** memmove (rt/src/string.c:51-56): copying through a temporary makes
      overlapping regions safe, for as many cells as the temporary holds. */
  method Memmove(dst: array<int>, p: nat, src: array<int>, q: nat, n: nat) returns (r: nat)
    requires p + n <= dst.Length && q + n <= src.Length && n <= TmpSize
    modifies dst
    ensures r == p
    ensures forall k :: 0 <= k < dst.Length ==> dst[k] == if p <= k < p + n then old(src[q + (k - p)]) else old(dst[k])
  {
    var tmp := new int[TmpSize];
    var _ := Memcpy(tmp, 0, src, q, n);
    r := Memcpy(dst, p, tmp, 0, n);
  }

  // ------------------------------------------------------ strcpy / strncpy

  /** The offset of the first non-NUL cell among the `n` from `i`, or `n`
      when all of them are NUL. */
  function FirstNonzero(s: seq<int>, i: nat, n: nat): (k: nat)
    requires i + n <= |s|
    ensures k <= n && (k < n ==> s[i + k] != 0)
    ensures forall m :: i <= m < i + k ==> s[m] == 0
    decreases n
  {
    if n == 0 || s[i] != 0 then 0 else 1 + FirstNonzero(s, i + 1, n - 1)
  }

  /** strcpy (rt/src/string.c:67-78), as written: the loop leaves as soon
      as the cell it copied is NOT NUL, so it copies the leading NULs of
      `src` and its first non-NUL cell. */
  method StrcpyAsWritten(dst: array<int>, p: nat, src: array<int>, q: nat) returns (r: nat)
    requires dst != src && q <= src.Length
    requires q + FirstNonzero(src[..], q, src.Length - q) < src.Length
    requires p + FirstNonzero(src[..], q, src.Length - q) < dst.Length
    modifies dst
    ensures r == p
    ensures var z := FirstNonzero(src[..], q, src.Length - q);
      forall k :: 0 <= k < dst.Length ==> dst[k] == if p <= k <= p + z then src[q + (k - p)] else old(dst[k])
  {
    ghost var z := FirstNonzero(src[..], q, src.Length - q);
    var i := 0;
    while true
      invariant i <= z
      invariant forall k :: 0 <= k < dst.Length ==> dst[k] == if p <= k < p + i then src[q + (k - p)] else old(dst[k])
      decreases z - i
    {
      dst[p + i] := src[q + i];
      if src[q + i] != 0 {
        break;
      }
      i := i + 1;
    }
    r := p;
  }

  /** strcpy as written copies one cell of "ab" where the string and its
      terminator are three. */
  lemma StrcpyCopiesOneCell()
    ensures FirstNonzero([97, 98, 0], 0, 3) + 1 == 1
    ensures Terminated([97, 98, 0], 0) && Length([97, 98, 0], 0) + 1 == 3
  {
    LengthUnique([97, 98, 0], 0, 2);
  }

  /** strcpy with the exit test the right way round: the string and its
      terminator are copied, and `dest` is returned. */
  method Strcpy(dst: array<int>, p: nat, src: array<int>, q: nat) returns (r: nat)
    requires dst != src && Terminated(src[..], q)
    requires p + Length(src[..], q) < dst.Length
    modifies dst
    ensures r == p
    ensures forall k :: 0 <= k < dst.Length ==>
      dst[k] == if p <= k <= p + Length(src[..], q) then src[q + (k - p)] else old(dst[k])
  {
    ghost var n := Length(src[..], q);
    var i := 0;
    while true
      invariant i <= n
      invariant forall k :: 0 <= k < dst.Length ==> dst[k] == if p <= k < p + i then src[q + (k - p)] else old(dst[k])
      decreases n - i
    {
      dst[p + i] := src[q + i];
      if src[q + i] == 0 {
        break;
      }
      i := i + 1;
    }
    r := p;
  }

  /** After the corrected strcpy, `dest` holds the string `src` held. */
  lemma StrcpyResult(d: seq<int>, p: nat, s: seq<int>, q: nat)
    requires Terminated(s, q) && p + Length(s, q) < |d|
    requires forall k :: p <= k <= p + Length(s, q) ==> d[k] == s[q + (k - p)]
    ensures Terminated(d, p) && Str(d, p) == Str(s, q)
  {
    StrOfCopy(s, q, d, p);
  }

  /** The number of cells strncpy copies: `n` at most. */
  function Min(a: nat, b: nat): nat {
    if a < b then a else b
  }

  /** strncpy (rt/src/string.c:80-91), as written: at most `n` cells,
      and the same inverted exit test as strcpy. */
  method StrncpyAsWritten(dst: array<int>, p: nat, src: array<int>, q: nat, n: nat) returns (r: nat)
    requires dst != src && q <= src.Length
    requires var c := Min(n, FirstNonzero(src[..], q, src.Length - q) + 1);
      q + c <= src.Length && p + c <= dst.Length
    modifies dst
    ensures r == p
    ensures var c := Min(n, FirstNonzero(src[..], q, src.Length - q) + 1);
      forall k :: 0 <= k < dst.Length ==> dst[k] == if p <= k < p + c then src[q + (k - p)] else old(dst[k])
  {
    ghost var z := FirstNonzero(src[..], q, src.Length - q);
    ghost var c := Min(n, z + 1);
    var i := 0;
    while i < n
      invariant i <= c && i <= z
      invariant forall k :: 0 <= k < dst.Length ==> dst[k] == if p <= k < p + i then src[q + (k - p)] else old(dst[k])
    {
      dst[p + i] := src[q + i];
      if src[q + i] != 0 {
        i := i + 1;
        break;
      }
      i := i + 1;
    }
    r := p;
  }

  /** strncpy with the exit test the right way round: the string and its
      terminator, cut after `n` cells. */
  method Strncpy(dst: array<int>, p: nat, src: array<int>, q: nat, n: nat) returns (r: nat)
    requires dst != src && Terminated(src[..], q)
    requires p + Min(n, Length(src[..], q) + 1) <= dst.Length
    modifies dst
    ensures r == p
    ensures forall k :: 0 <= k < dst.Length ==>
      dst[k] == if p <= k < p + Min(n, Length(src[..], q) + 1) then src[q + (k - p)] else old(dst[k])
  {
    ghost var c := Min(n, Length(src[..], q) + 1);
    var i := 0;
    while i < n
      invariant i <= c && i <= Length(src[..], q)
      invariant forall k :: 0 <= k < dst.Length ==> dst[k] == if p <= k < p + i then src[q + (k - p)] else old(dst[k])
    {
      dst[p + i] := src[q + i];
      if src[q + i] == 0 {
        i := i + 1;
        break;
      }
      i := i + 1;
    }
    r := p;
  }

  /** strncpy as written copies a single cell of "ab" with `n` 3; the
      corrected one copies all three. */
  lemma StrncpyCopiesOneCell()
    ensures Min(3, FirstNonzero([97, 98, 0], 0, 3) + 1) == 1
    ensures Terminated([97, 98, 0], 0) && Min(3, Length([97, 98, 0], 0) + 1) == 3
  {
    LengthUnique([97, 98, 0], 0, 2);
  }

  // ---------------------------------------------------------------- strcat

  /** `d` with the `c` cells from `at` replaced by the `c` cells of `s`
      from `q`. */
  function Overwrite(d: seq<int>, at: nat, s: seq<int>, q: nat, c: nat): (e: seq<int>)
    requires at + c <= |d| && q + c <= |s|
    ensures |e| == |d|
  {
    d[..at] + s[q..q + c] + d[at + c..]
  }

  /** strcat (rt/src/string.c:93-96), as written: strlen of `dest`, then
      the runtime's own strcpy from the terminator on, which stops after
      the first non-NUL cell of `src`. */
  method StrcatAsWritten(dst: array<int>, p: nat, src: array<int>, q: nat) returns (r: nat)
    requires dst != src && Terminated(dst[..], p) && q <= src.Length
    requires q + FirstNonzero(src[..], q, src.Length - q) < src.Length
    requires p + Length(dst[..], p) + FirstNonzero(src[..], q, src.Length - q) < dst.Length
    modifies dst
    ensures r == p
    ensures dst[..] == Overwrite(old(dst[..]), p + old(Length(dst[..], p)), src[..], q, FirstNonzero(src[..], q, src.Length - q) + 1)
  {
    ghost var d0 := dst[..];
    var l := Strlen(dst, p);
    var _ := StrcpyAsWritten(dst, p + l, src, q);
    r := p;
    ghost var z := FirstNonzero(src[..], q, src.Length - q);
    assert forall k :: 0 <= k < dst.Length ==> dst[..][k] == Overwrite(d0, p + l, src[..], q, z + 1)[k];
  }

  /** `strcat("x", "ab")` as written, over a buffer that held `"x\0c"`:
      only the 'a' is appended, over the terminator, so the result reads
      "xac" where the concatenation is "xab". */
  lemma StrcatAppendsOneCell()
    ensures FirstNonzero([97, 98, 0], 0, 3) == 0
    ensures Terminated([120, 0, 99, 0], 0) && Length([120, 0, 99, 0], 0) == 1
    ensures Overwrite([120, 0, 99, 0], 1, [97, 98, 0], 0, 1) == [120, 97, 99, 0]
    ensures Terminated([120, 97, 99, 0], 0) && Str([120, 97, 99, 0], 0) == [120, 97, 99]
    ensures Terminated([97, 98, 0], 0) && Str([120, 0, 99, 0], 0) + Str([97, 98, 0], 0) == [120, 97, 98]
  {
    LengthUnique([120, 0, 99, 0], 0, 1);
    LengthUnique([120, 97, 99, 0], 0, 3);
    LengthUnique([97, 98, 0], 0, 2);
    assert [120, 0, 99, 0][..1] + [97, 98, 0][0..1] + [120, 0, 99, 0][2..] == [120, 97, 99, 0];
  }

  /** strcat built on the corrected strcpy: the result is the
      concatenation. */
  method Strcat(dst: array<int>, p: nat, src: array<int>, q: nat) returns (r: nat)
    requires dst != src && Terminated(dst[..], p) && Terminated(src[..], q)
    requires p + Length(dst[..], p) + Length(src[..], q) < dst.Length
    modifies dst
    ensures r == p
    ensures Terminated(dst[..], p)
    ensures Str(dst[..], p) == old(Str(dst[..], p)) + Str(src[..], q)
    ensures forall k :: 0 <= k < dst.Length && !(p <= k <= p + old(Length(dst[..], p)) + Length(src[..], q)) ==> dst[k] == old(dst[k])
  {
    ghost var d0 := dst[..];
    var l := Strlen(dst, p);
    var _ := Strcpy(dst, p + l, src, q);
    r := p;
    Concatenated(d0, dst[..], p, src[..], q);
  }

  /** Cells holding the string at `p` of `d0` and then, from its
      terminator on, the string `s` holds at `q` with its own terminator,
      hold the concatenation of the two. */
  lemma Concatenated(d0: seq<int>, d: seq<int>, p: nat, s: seq<int>, q: nat)
    requires Terminated(d0, p) && Terminated(s, q) && |d| == |d0|
    requires p + Length(d0, p) + Length(s, q) < |d|
    requires forall k :: p <= k < p + Length(d0, p) ==> d[k] == d0[k]
    requires forall k :: p + Length(d0, p) <= k <= p + Length(d0, p) + Length(s, q) ==>
      d[k] == s[q + (k - (p + Length(d0, p)))]
    ensures Terminated(d, p) && Str(d, p) == Str(d0, p) + Str(s, q)
  {
    var l1, l2 := Length(d0, p), Length(s, q);
    assert d[p + l1 + l2] == s[q + l2];
    LengthUnique(d, p, l1 + l2);
    assert forall m :: 0 <= m < l1 + l2 ==> Str(d, p)[m] == (Str(d0, p) + Str(s, q))[m] by {
      forall m | 0 <= m < l1 + l2
        ensures Str(d, p)[m] == (Str(d0, p) + Str(s, q))[m]
      {
        if m < l1 {
          assert d[p + m] == d0[p + m];
        } else {
          assert d[p + m] == s[q + (m - l1)];
        }
      }
    }
  }

  // ---------------------------------------------------------------- strchr

  /** The offset of the first cell equal to `c` from `i`, when one is
      there. */
  function IndexOf(s: seq<int>, i: nat, c: int): (k: nat)
    requires exists k :: i <= k < |s| && s[k] == c
    ensures i + k < |s| && s[i + k] == c
    ensures forall m :: i <= m < i + k ==> s[m] != c
    decreases |s| - i
  {
    if s[i] == c then 0
    else
      assert exists k :: i + 1 <= k < |s| && s[k] == c by {
        var k :| i <= k < |s| && s[k] == c;
        assert i + 1 <= k;
      }
      1 + IndexOf(s, i + 1, c)
  }

  /** strchr (rt/src/string.c:98-105), as written: the loop tests the
      first cell of the string on every round instead of the i-th, so an
      empty string yields null, and otherwise the scan goes on past the
      terminator until it meets `c`. */
  method StrchrAsWritten(a: array<int>, p: nat, c: int) returns (r: Option<nat>)
    requires p < a.Length
    requires a[p] != 0 ==> exists k :: p <= k < a.Length && a[k] == c
    ensures a[p] == 0 ==> r == None
    ensures a[p] != 0 ==> r == Some(p + IndexOf(a[..], p, c))
  {
    var i := 0;
    while a[p] != 0
      invariant a[p] != 0 ==> i <= IndexOf(a[..], p, c)
      decreases if a[p] != 0 then IndexOf(a[..], p, c) - i else 0
    {
      if a[p + i] == c {
        return Some(p + i);
      }
      i := i + 1;
    }
    r := None;
  }

  /** On "a" followed by 'b' past the terminator, strchr as written finds
      the 'b'; on the empty string it misses the terminator itself, which
      section 7.24.5.2 of ISO C counts as part of the string. */
  lemma StrchrPastEnd()
    ensures [97, 0, 98][2] == 98 && IndexOf([97, 0, 98], 0, 98) == 2
    ensures Terminated([97, 0, 98], 0) && Length([97, 0, 98], 0) == 1
  {
    var s := [97, 0, 98];
    LengthUnique(s, 0, 1);
    assert s[2] == 98;
    assert IndexOf(s, 2, 98) == 0;
    assert IndexOf(s, 1, 98) == 1;
  }

  /** strchr scanning the string itself, terminator included: the first
      occurrence of `c`, or null when there is none. */
  method Strchr(a: array<int>, p: nat, c: int) returns (r: Option<nat>)
    requires Terminated(a[..], p)
    ensures r.Some? ==> p <= r.value <= p + Length(a[..], p) && a[r.value] == c
    ensures r.Some? ==> forall k :: p <= k < r.value ==> a[k] != c
    ensures r.None? <==> forall k :: p <= k <= p + Length(a[..], p) ==> a[k] != c
  {
    var i := 0;
    while true
      invariant i <= Length(a[..], p)
      invariant forall k :: p <= k < p + i ==> a[k] != c
      decreases Length(a[..], p) - i
    {
      if a[p + i] == c {
        return Some(p + i);
      }
      if a[p + i] == 0 {
        return None;
      }
      i := i + 1;
    }
  }
}
