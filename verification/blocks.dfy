/** The layout a bump allocator produces: each block starts where the
    previous one ended. Both runtime allocators (rt/src/ta.c and
    rt/start.c) hand out memory this way. */
module Blocks {

  /** The sum of the sizes. */
  function Sum(sizes: seq<int>): int {
    if |sizes| == 0 then 0 else sizes[0] + Sum(sizes[1..])
  }

  /** Where each of a run of allocations of the given sizes starts, from
      a bump pointer at `base`. */
  function Starts(base: int, sizes: seq<int>): (r: seq<int>)
    ensures |r| == |sizes|
    ensures |sizes| > 0 ==> r[0] == base
    decreases |sizes|
  {
    if |sizes| == 0 then [] else [base] + Starts(base + sizes[0], sizes[1..])
  }

  /** Blocks of non-negative size are laid out in increasing order, each
      ends no later than the next begins, and all of them lie between
      `base` and the final bump pointer `base + Sum(sizes)`. */
  lemma {:induction false} StartsDisjoint(base: int, sizes: seq<int>)
    requires forall k :: 0 <= k < |sizes| ==> sizes[k] >= 0
    ensures var r := Starts(base, sizes);
      forall i, j :: 0 <= i < j < |sizes| ==> r[i] + sizes[i] <= r[j]
    ensures var r := Starts(base, sizes);
      forall i :: 0 <= i < |sizes| ==> base <= r[i] && r[i] + sizes[i] <= base + Sum(sizes)
    decreases |sizes|
  {
    if |sizes| > 0 {
      var tail := sizes[1..];
      StartsDisjoint(base + sizes[0], tail);
      var r := Starts(base, sizes);
      var t := Starts(base + sizes[0], tail);
      assert forall i :: 1 <= i < |sizes| ==> r[i] == t[i - 1];
    }
  }
}
