/** The start-up file of the C runtime (rt/start.c): a bump allocator
    whose pointer is kept in the virtual machine's memory at word
    MEM_START, reached through the machine's get and set externals. */
module Bump {
  import opened Blocks

  /** MEM_START (rt/start.c:2), `1 << 16`. */
  const MemStart := 0x1_0000

  /** The virtual machine's word memory. */
  class Runtime {
    const mem: array<int>

    constructor (size: nat)
      requires MemStart < size
      ensures fresh(mem) && mem.Length == size
    {
      mem := new int[size];
    }

    /** malloc (rt/start.c:7-11): the address stored at MEM_START is
        returned and the stored address moves on by `size`; no other
        word changes. */
    method Malloc(size: int) returns (r: int)
      requires MemStart < mem.Length
      modifies mem
      ensures r == old(mem[MemStart])
      ensures mem[..] == old(mem[..])[MemStart := r + size]
    {
      var where := mem[MemStart];
      mem[MemStart] := where + size;
      r := where;
    }

    /** free (rt/start.c:13-15): nothing is reclaimed. */
    method Free(alloc: int) {
    }

    /** _start (rt/start.c:18-21): the bump pointer is set to the word
        after MEM_START before main runs. */
    method Start()
      requires MemStart < mem.Length
      modifies mem
      ensures mem[..] == old(mem[..])[MemStart := MemStart + 1]
    {
      mem[MemStart] := MemStart + 1;
    }
  }

  /** A run of mallocs after _start: the addresses returned, in order. */
  function Allocations(sizes: seq<int>): (r: seq<int>)
    ensures |r| == |sizes|
  {
    Starts(MemStart + 1, sizes)
  }

  /** Allocations of non-negative size after _start lie above the word
      that holds the bump pointer, increase, and do not overlap. */
  lemma AllocationsDisjoint(sizes: seq<int>)
    requires forall k :: 0 <= k < |sizes| ==> sizes[k] >= 0
    ensures var a := Allocations(sizes);
      forall i :: 0 <= i < |sizes| ==> MemStart < a[i]
    ensures var a := Allocations(sizes);
      forall i, j :: 0 <= i < j < |sizes| ==> a[i] + sizes[i] <= a[j]
  {
    StartsDisjoint(MemStart + 1, sizes);
  }

  /** A negative size moves the pointer back, so the next block overlaps
      the last: after mallocs of 4 and -2 the third starts inside the
      first. */
  lemma NegativeSizeOverlaps()
    ensures var a := Allocations([4, -2, 1]); a[0] < a[2] < a[0] + 4
  {
    assert Allocations([4, -2, 1]) == [MemStart + 1, MemStart + 5, MemStart + 3];
  }
}
