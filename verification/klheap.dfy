/** The cell heap of test/kl.c: parallel arrays Car, Cdr and Tag indexed
    by cell, with NIL at 0, the free list's head in `Car[FRELIS]`, and
    the mark bit in the tag byte used by the collector. Lists are chains
    of Cdr links ending in NIL. */
module KlHeap {
  import opened KlSym
  import Externs

  /** NCELLS in the 16-bit configuration (test/kl.c:39). */
  const NCells := 65535

  /** NIL, FRELIS and LOWCORE (test/kl.c:101-115). */
  const Nil := 0
  const FreList := 1
  const LowCore := 14

  /** MARK (test/kl.c:134). */
  const Mark: bv8 := 0x80

  /** `xs` is the list that starts at cell `n` when following `next`:
      its cells in order, the last one's link NIL. */
  ghost predicate IsList(next: seq<int>, n: int, xs: seq<int>)
    decreases |xs|
  {
    if |xs| == 0 then n == Nil
    else n == xs[0] && 0 < n < |next| && IsList(next, next[n], xs[1..])
  }

  /** A list depends only on the links of its own cells. */
  lemma {:induction false} ListFrame(next: seq<int>, next': seq<int>, n: int, xs: seq<int>)
    requires IsList(next, n, xs) && |next'| == |next|
    requires forall k :: 0 <= k < |xs| ==> 0 <= xs[k] < |next| && next'[xs[k]] == next[xs[k]]
    ensures IsList(next', n, xs)
    decreases |xs|
  {
    if |xs| > 0 {
      ListFrame(next, next', next[n], xs[1..]);
    }
  }

  /** The cells of a list are cells of the heap other than NIL. */
  lemma {:induction false} ListCells(next: seq<int>, n: int, xs: seq<int>)
    requires IsList(next, n, xs)
    ensures forall k :: 0 <= k < |xs| ==> 0 < xs[k] < |next|
    decreases |xs|
  {
    if |xs| > 0 {
      ListCells(next, next[n], xs[1..]);
      assert forall k :: 1 <= k < |xs| ==> xs[k] == xs[1..][k - 1];
    }
  }

  /** A start cell determines its list. */
  lemma {:induction false} ListUnique(next: seq<int>, n: int, xs: seq<int>, ys: seq<int>)
    requires IsList(next, n, xs) && IsList(next, n, ys)
    ensures xs == ys
    decreases |xs|
  {
    if |xs| > 0 {
      ListUnique(next, next[n], xs[1..], ys[1..]);
    }
  }

  /** Every suffix of a list is the list from its first cell. */
  lemma {:induction false} ListSuffix(next: seq<int>, n: int, xs: seq<int>, j: nat)
    requires IsList(next, n, xs) && j < |xs|
    ensures IsList(next, xs[j], xs[j..])
    decreases j
  {
    if j > 0 {
      ListSuffix(next, next[n], xs[1..], j - 1);
      assert xs[1..][j - 1..] == xs[j..];
    }
  }

  /** A list that reaches NIL visits no cell twice. */
  lemma ListDistinct(next: seq<int>, n: int, xs: seq<int>)
    requires IsList(next, n, xs)
    ensures forall a, b :: 0 <= a < b < |xs| ==> xs[a] != xs[b]
  {
    forall a, b | 0 <= a < b < |xs|
      ensures xs[a] != xs[b]
    {
      if xs[a] == xs[b] {
        ListSuffix(next, n, xs, a);
        ListSuffix(next, n, xs, b);
        ListUnique(next, xs[a], xs[a..], xs[b..]);
      }
    }
  }

  /** A sequence backwards. */
  function Reverse(s: seq<int>): (r: seq<int>)
    ensures |r| == |s| && forall k :: 0 <= k < |s| ==> r[k] == s[|s| - 1 - k]
  {
    if |s| == 0 then [] else [s[|s| - 1]] + Reverse(s[..|s| - 1])
  }

  /** After taking the free list's first cell `n` and giving it the
      link `d`, the free list is the rest of the old one. */
  lemma FreeListAfterCons(next: seq<int>, fl: seq<int>, d: int)
    requires |fl| > 0 && IsList(next, fl[0], fl)
    ensures IsList(next[fl[0] := d], next[fl[0]], fl[1..])
  {
    ListDistinct(next, fl[0], fl);
    ListCells(next, fl[0], fl);
    ListFrame(next, next[fl[0] := d], next[fl[0]], fl[1..]);
  }

  /** The cells the sweep frees, as it links them: the unmarked cells
      from LOWCORE below `hi`, highest first. */
  function Swept(tag: seq<bv8>, hi: int): (r: seq<int>)
    requires hi <= |tag|
    ensures forall k :: 0 <= k < |r| ==> LowCore <= r[k] < hi && !Marked(tag[r[k]])
    ensures forall a, b :: 0 <= a < b < |r| ==> r[a] > r[b]
    decreases hi
  {
    if hi <= LowCore then []
    else (if Marked(tag[hi - 1]) then [] else [hi - 1]) + Swept(tag, hi - 1)
  }

  /** Every unmarked cell from LOWCORE below `hi` is swept. */
  lemma {:induction false} SweptComplete(tag: seq<bv8>, hi: int, j: int)
    requires hi <= |tag| && LowCore <= j < hi && !Marked(tag[j])
    ensures j in Swept(tag, hi)
    decreases hi
  {
    if j < hi - 1 {
      SweptComplete(tag, hi - 1, j);
    }
  }

  /** The mark bit of a tag. */
  predicate Marked(t: bv8) {
    t & Mark != 0
  }

  /** A tag with its mark bit cleared. */
  function Unmark(t: bv8): (r: bv8)
    ensures !Marked(r)
  {
    t & !Mark
  }

  /** Clearing the mark of an unmarked tag leaves it as it is. */
  lemma UnmarkFixes(t: bv8)
    requires !Marked(t)
    ensures Unmark(t) == t
  {
  }

  class Heap {
    const car: array<int>
    const cdr: array<int>
    const tag: array<bv8>

    ghost predicate Valid()
      reads this
    {
      car.Length == NCells && cdr.Length == NCells && tag.Length == NCells && car != cdr &&
      tag as object != car && tag as object != cdr
    }

    constructor ()
      ensures Valid() && fresh(car) && fresh(cdr) && fresh(tag)
    {
      car := new int[NCells];
      cdr := new int[NCells];
      tag := new bv8[NCells];
    }

    /** nrev (test/kl.c:570-581): the list from `n` reversed in place by
        rewriting the Cdr links of its cells and no others; the result is
        its old last cell. */
    method Nrev(n: int, ghost xs: seq<int>) returns (m: int)
      requires Valid() && IsList(cdr[..], n, xs)
      modifies cdr
      ensures IsList(cdr[..], m, Reverse(xs))
      ensures forall k :: 0 <= k < NCells && k !in xs ==> cdr[k] == old(cdr[k])
    {
      ListDistinct(cdr[..], n, xs);
      m := Nil;
      var p := n;
      ghost var i := 0;
      while p != Nil
        invariant 0 <= i <= |xs|
        invariant IsList(cdr[..], p, xs[i..]) && IsList(cdr[..], m, Reverse(xs[..i]))
        invariant forall k :: 0 <= k < NCells && k !in xs[..i] ==> cdr[k] == old(cdr[k])
        decreases |xs| - i
      {
        NrevStep(cdr[..], p, m, xs, i);
        var h := cdr[p];
        cdr[p] := m;
        m := p;
        p := h;
        i := i + 1;
      }
      assert xs[..i] == xs;
    }

    /** cons3 (test/kl.c:462-478), when the free list is not empty: its
        first cell gets `a`, `d` and the tag `t`, and the free list moves
        on to that cell's old link. */
    method Cons3(a: int, d: int, t: bv8) returns (n: int)
      requires Valid() && 0 < car[FreList] < NCells
      modifies car, cdr, tag
      ensures n == old(car[FreList])
      ensures car[..] == old(car[..])[FreList := old(cdr[n])][n := a]
      ensures cdr[..] == old(cdr[..])[n := d]
      ensures tag[..] == old(tag[..])[n := t]
    {
      n := car[FreList];
      ghost var c0, d0, t0 := car[..], cdr[..], tag[..];
      car[FreList] := cdr[car[FreList]];
      assert car[..] == c0[FreList := d0[n]];
      car[n] := a;
      assert car[..] == c0[FreList := d0[n]][n := a];
      cdr[n] := d;
      tag[n] := t;
    }

    /** The sweep of gc (test/kl.c:428-444), after marking: every unmarked
        cell from LOWCORE up is linked into a new free list, each in front
        of the ones before it, every marked one has its mark cleared, and
        the count of freed cells is returned. */
    method Sweep() returns (k: nat)
      requires Valid()
      modifies car, cdr, tag
      ensures IsList(cdr[..], car[FreList], Swept(old(tag[..]), NCells))
      ensures k == |Swept(old(tag[..]), NCells)|
      ensures car[..] == old(car[..])[FreList := car[FreList]]
      ensures forall j :: 0 <= j < NCells ==> tag[j] == if j < LowCore then old(tag[j]) else Unmark(old(tag[j]))
      ensures forall j :: 0 <= j < NCells && (j < LowCore || Marked(old(tag[j]))) ==> cdr[j] == old(cdr[j])
    {
      ghost var t0 := tag[..];
      ghost var c0 := cdr[..];
      var fre := Nil;
      k := 0;
      for i := LowCore to NCells
        invariant SweepInv(c0, cdr[..], tag[..], t0, fre, k, i)
        invariant car[..] == old(car[..])
      {
        fre, k := SweepCell(i, fre, k, c0, t0);
      }
      ghost var c, tg := cdr[..], tag[..];
      SweepEnd(c0, c, tg, t0, fre, k);
      car[FreList] := fre;
      forall j | 0 <= j < NCells
        ensures tag[j] == if j < LowCore then old(tag[j]) else Unmark(old(tag[j]))
        ensures j < LowCore || Marked(old(tag[j])) ==> cdr[j] == old(cdr[j])
      {
        assert tag[j] == tg[j] && cdr[j] == c[j] && old(tag[j]) == t0[j] && old(cdr[j]) == c0[j];
      }
    }

    /** One round of the sweep: cell `i` is linked in front of the new
        free list if unmarked, or has its mark cleared. */
    method SweepCell(i: int, fre: int, k: nat, ghost c0: seq<int>, ghost t0: seq<bv8>) returns (fre': int, k': nat)
      requires Valid() && SweepInv(c0, cdr[..], tag[..], t0, fre, k, i) && i < NCells
      modifies cdr, tag
      ensures SweepInv(c0, cdr[..], tag[..], t0, fre', k', i + 1)
    {
      if tag[i] & Mark == 0 {
        SweepFree(c0, cdr[..], tag[..], t0, fre, k, i);
        cdr[i] := fre;
        fre', k' := i, k + 1;
      } else {
        SweepKeep(c0, cdr[..], tag[..], t0, fre, k, i);
        tag[i] := tag[i] & !Mark;
        fre', k' := fre, k;
      }
    }

    /** symstr (test/kl.c:614-628): the name cells of symbol `sym`, each
        as two characters, into the `SYMLEN + 2` character buffer, then a
        terminator. */
    method Symstr(sym: int, buf: array<int>, ghost xs: seq<int>)
      requires Valid() && 0 <= sym < NCells && IsList(cdr[..], car[sym], xs)
      requires buf.Length == SymLen + 2 && 2 * |xs| < buf.Length && buf != car && buf != cdr
      modifies buf
      ensures buf[..2 * |xs| + 1] == Unpack(Cars(car[..], xs)) + [0]
    {
      var i := 0;
      var n := car[sym];
      ghost var j := 0;
      while n != Nil
        invariant 0 <= j <= |xs| && i == 2 * j
        invariant IsList(cdr[..], n, xs[j..])
        invariant buf[..i] == Unpack(Cars(car[..], xs[..j]))
        decreases |xs| - j
      {
        SymstrStep(car[..], cdr[..], xs, j, n);
        ghost var done := buf[..i];
        buf[i] := Externs.Char(car[n] / 256);
        buf[i + 1] := Externs.Char(car[n] % 256);
        assert buf[..i + 2] == done + [Externs.Char(car[n] / 256), Externs.Char(car[n] % 256)];
        i := i + 2;
        n := cdr[n];
        j := j + 1;
      }
      assert xs[..j] == xs;
      buf[i] := 0;
    }
  }

  /** The Car fields of a list's cells. */
  function Cars(car: seq<int>, xs: seq<int>): (r: seq<int>)
    ensures |r| == |xs| && forall k :: 0 <= k < |xs| && 0 <= xs[k] < |car| ==> r[k] == car[xs[k]]
  {
    seq(|xs|, k requires 0 <= k < |xs| => if 0 <= xs[k] < |car| then car[xs[k]] else 0)
  }

  lemma CarsAppend(car: seq<int>, a: seq<int>, b: seq<int>)
    ensures Cars(car, a + b) == Cars(car, a) + Cars(car, b)
  {
  }

  /** One round of nrev: the reversed part grows by the current cell and
      the rest loses it. */
  lemma NrevStep(next: seq<int>, p: int, m: int, xs: seq<int>, i: nat)
    requires i < |xs| && p != Nil
    requires forall a, b :: 0 <= a < b < |xs| ==> xs[a] != xs[b]
    requires IsList(next, p, xs[i..]) && IsList(next, m, Reverse(xs[..i]))
    ensures IsList(next[p := m], next[p], xs[i + 1..])
    ensures IsList(next[p := m], p, Reverse(xs[..i + 1]))
  {
    var next' := next[p := m];
    assert xs[i..][1..] == xs[i + 1..];
    ListCells(next, p, xs[i..]);
    ListCells(next, m, Reverse(xs[..i]));
    ListFrame(next, next', next[p], xs[i + 1..]);
    ListFrame(next, next', m, Reverse(xs[..i]));
    assert Reverse(xs[..i + 1]) == [p] + Reverse(xs[..i]) by {
      assert xs[..i + 1][..i] == xs[..i];
    }
  }

  /** What the sweep has done below `i`: the unmarked cells are linked
      into the list from `fre`, `k` counts them, the marked ones have
      their mark cleared, and no other link has changed. */
  ghost predicate SweepInv(c0: seq<int>, c: seq<int>, tg: seq<bv8>, t0: seq<bv8>, fre: int, k: int, i: int) {
    |c0| == NCells && |c| == NCells && |tg| == NCells && |t0| == NCells && LowCore <= i <= NCells &&
    IsList(c, fre, Swept(t0, i)) && k == |Swept(t0, i)| &&
    TagsCleared(tg, t0, i) && LinksKept(c0, c, t0, i)
  }

  /** The tags from LOWCORE below `i` have lost their mark; the others
      are as they were. */
  ghost predicate TagsCleared(tg: seq<bv8>, t0: seq<bv8>, i: int)
    requires |tg| == |t0| == NCells
  {
    forall j :: 0 <= j < NCells ==> tg[j] == if LowCore <= j < i then Unmark(t0[j]) else t0[j]
  }

  /** Only the links of the unmarked cells from LOWCORE below `i` have
      changed. */
  ghost predicate LinksKept(c0: seq<int>, c: seq<int>, t0: seq<bv8>, i: int)
    requires |c0| == |c| == |t0| == NCells
  {
    forall j :: 0 <= j < NCells && !(LowCore <= j < i && !Marked(t0[j])) ==> c[j] == c0[j]
  }

  /** Clearing the mark of cell `i` extends the cleared tags by one. */
  lemma TagsStep(tg: seq<bv8>, t0: seq<bv8>, i: int)
    requires |tg| == |t0| == NCells && LowCore <= i < NCells
    requires TagsCleared(tg, t0, i) && tg[i] == t0[i]
    ensures TagsCleared(tg[i := Unmark(tg[i])], t0, i + 1)
  {
  }

  /** An unmarked tag needs no clearing. */
  lemma TagsSkip(tg: seq<bv8>, t0: seq<bv8>, i: int)
    requires |tg| == |t0| == NCells && LowCore <= i < NCells
    requires TagsCleared(tg, t0, i) && tg[i] == t0[i] && !Marked(t0[i])
    ensures TagsCleared(tg, t0, i + 1)
  {
    UnmarkFixes(t0[i]);
  }

  /** A round changes at most the link of cell `i`, and only when it is
      unmarked. */
  lemma LinksStep(c0: seq<int>, c: seq<int>, c': seq<int>, t0: seq<bv8>, i: int)
    requires |c0| == |c| == |c'| == |t0| == NCells && LowCore <= i < NCells
    requires LinksKept(c0, c, t0, i)
    requires forall j :: 0 <= j < NCells && j != i ==> c'[j] == c[j]
    requires Marked(t0[i]) ==> c'[i] == c[i]
    ensures LinksKept(c0, c', t0, i + 1)
  {
  }

  /** A round of the sweep over an unmarked cell keeps its invariant. */
  lemma SweepFree(c0: seq<int>, c: seq<int>, tg: seq<bv8>, t0: seq<bv8>, fre: int, k: int, i: int)
    requires SweepInv(c0, c, tg, t0, fre, k, i) && i < NCells && !Marked(tg[i])
    ensures SweepInv(c0, c[i := fre], tg, t0, i, k + 1, i + 1)
  {
    SweepLink(c, fre, t0, i);
    TagsSkip(tg, t0, i);
    LinksStep(c0, c, c[i := fre], t0, i);
  }

  /** A round of the sweep over a marked cell keeps its invariant. */
  lemma SweepKeep(c0: seq<int>, c: seq<int>, tg: seq<bv8>, t0: seq<bv8>, fre: int, k: int, i: int)
    requires SweepInv(c0, c, tg, t0, fre, k, i) && i < NCells && Marked(tg[i])
    ensures SweepInv(c0, c, tg[i := Unmark(tg[i])], t0, fre, k, i + 1)
  {
    assert Swept(t0, i + 1) == Swept(t0, i);
    TagsStep(tg, t0, i);
    LinksStep(c0, c, c, t0, i);
  }

  /** The invariant at the end of the sweep, for every cell. */
  lemma SweepEnd(c0: seq<int>, c: seq<int>, tg: seq<bv8>, t0: seq<bv8>, fre: int, k: int)
    requires SweepInv(c0, c, tg, t0, fre, k, NCells)
    ensures IsList(c, fre, Swept(t0, NCells)) && k == |Swept(t0, NCells)|
    ensures forall j :: 0 <= j < NCells ==> tg[j] == if j < LowCore then t0[j] else Unmark(t0[j])
    ensures forall j :: 0 <= j < NCells && (j < LowCore || Marked(t0[j])) ==> c[j] == c0[j]
  {
  }

  /** One round of the sweep over an unmarked cell `i`: linking it in
      front of the list so far keeps a list, since every cell of that
      list is below `i`. */
  lemma SweepLink(next: seq<int>, fre: int, t0: seq<bv8>, i: int)
    requires LowCore <= i < |next| && i < |t0| && !Marked(t0[i])
    requires IsList(next, fre, Swept(t0, i))
    ensures Swept(t0, i + 1) == [i] + Swept(t0, i)
    ensures IsList(next[i := fre], i, Swept(t0, i + 1))
  {
    ListCells(next, fre, Swept(t0, i));
    ListFrame(next, next[i := fre], fre, Swept(t0, i));
    assert Swept(t0, i + 1) == [i] + Swept(t0, i);
  }

  /** One round of symstr: the characters of the next cell follow those
      of the cells before it. */
  lemma SymstrStep(car: seq<int>, next: seq<int>, xs: seq<int>, j: nat, n: int)
    requires j < |xs| && IsList(next, n, xs[j..]) && |car| == |next|
    ensures n == xs[j] && 0 < n < |car| && IsList(next, next[n], xs[j + 1..])
    ensures Unpack(Cars(car, xs[..j + 1])) == Unpack(Cars(car, xs[..j])) + [Externs.Char(car[n] / 256), Externs.Char(car[n] % 256)]
  {
    assert xs[j..][1..] == xs[j + 1..];
    assert xs[..j + 1] == xs[..j] + [n];
    CarsAppend(car, xs[..j], [n]);
    assert Cars(car, [n]) == [car[n]];
    UnpackAppend(Cars(car, xs[..j]), [car[n]]);
    assert Unpack([car[n]]) == [Externs.Char(car[n] / 256), Externs.Char(car[n] % 256)];
  }
}
