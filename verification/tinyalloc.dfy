/** The allocator of the C runtime (rt/src/ta.c): a bump allocator over
    a fixed array of `1 << 20` cells, whose blocks carry their size in a
    header cell and are never reclaimed. A pointer is an index into the
    array, and every `size_t` and byte takes one cell. */
module TinyAlloc {
  import opened Blocks

  /** The size of `ta_mem` (rt/src/ta.c:8). */
  const Capacity := 0x10_0000

  /** The number of cells copied by realloc: the lesser of the request
      and the old block's size, none when that size is negative. */
  function CopyCount(num: nat, sz: int): (c: nat)
    ensures c <= num && (sz >= 0 ==> c <= sz)
    ensures c == num || c == sz || (sz < 0 && c == 0)
  {
    if sz < 0 then 0 else if num < sz then num else sz
  }

  /** `ta_mem` and `ta_head`. */
  class Heap {
    const mem: array<int>
    var head: nat

    /** The zero-initialised static storage. */
    constructor ()
      ensures fresh(mem) && mem.Length == Capacity && head == 0
      ensures forall k :: 0 <= k < mem.Length ==> mem[k] == 0
    {
      mem := new int[Capacity](_ => 0);
      head := 0;
    }

    /** ta_init (rt/src/ta.c:11-13). */
    method Init()
      modifies this`head
      ensures head == 0
    {
      head := 0;
    }

    /** int_memclear (rt/src/ta.c:17-21): `num` zero cells from `p`,
        nothing else changed. */
    static method MemClear(a: array<int>, p: nat, num: nat)
      requires p + num <= a.Length
      modifies a
      ensures forall k :: p <= k < p + num ==> a[k] == 0
      ensures forall k :: 0 <= k < a.Length && !(p <= k < p + num) ==> a[k] == old(a[k])
    {
      var i := 0;
      while i < num
        invariant 0 <= i <= num
        invariant forall k :: p <= k < p + i ==> a[k] == 0
        invariant forall k :: 0 <= k < a.Length && !(p <= k < p + i) ==> a[k] == old(a[k])
      {
        a[p + i] := 0;
        i := i + 1;
      }
    }

    /** int_malloc (rt/src/ta.c:23-28): the block at the head, cleared,
        and the head moved past it. Nothing checks the capacity. */
    method IntMalloc(num: nat) returns (r: nat)
      requires head + num <= mem.Length
      modifies this`head, mem
      ensures r == old(head) && head == r + num
      ensures forall k :: r <= k < head ==> mem[k] == 0
      ensures forall k :: 0 <= k < mem.Length && !(r <= k < head) ==> mem[k] == old(mem[k])
    {
      r := head;
      MemClear(mem, r, num);
      head := head + num;
    }

    /** int_calloc (rt/src/ta.c:30-32). */
    method IntCalloc(num: nat) returns (r: nat)
      requires head + num <= mem.Length
      modifies this`head, mem
      ensures r == old(head) && head == r + num
      ensures forall k :: r <= k < head ==> mem[k] == 0
      ensures forall k :: 0 <= k < mem.Length && !(r <= k < head) ==> mem[k] == old(mem[k])
    {
      r := IntMalloc(num);
    }

    /** malloc (rt/src/ta.c:39-43): a block of `num` cleared cells after
        a header cell holding `num`; the result is the first cell after
        the header. */
    method Malloc(num: nat) returns (r: nat)
      requires head + num + 1 <= mem.Length
      modifies this`head, mem
      ensures r == old(head) + 1 && head == r + num
      ensures mem[r - 1] == num
      ensures forall k :: r <= k < head ==> mem[k] == 0
      ensures forall k :: 0 <= k < mem.Length && !(r - 1 <= k < head) ==> mem[k] == old(mem[k])
    {
      var ret := IntMalloc(num + 1);
      mem[ret] := num;
      r := ret + 1;
    }

    /** calloc (rt/src/ta.c:45-50): malloc of `num * size` cells, the
        header holding the product. */
    method Calloc(num: nat, size: nat) returns (r: nat)
      requires head + num * size + 1 <= mem.Length
      modifies this`head, mem
      ensures r == old(head) + 1 && head == r + num * size
      ensures mem[r - 1] == num * size
      ensures forall k :: r <= k < head ==> mem[k] == 0
      ensures forall k :: 0 <= k < mem.Length && !(r - 1 <= k < head) ==> mem[k] == old(mem[k])
    {
      var n := num * size;
      var ret := IntCalloc(n + 1);
      mem[ret] := n;
      r := ret + 1;
    }

    /** free (rt/src/ta.c:34-37): hands the header to int_free, which
        does nothing; no memory is reclaimed. */
    method Free(ptr: int) {
    }

    /** realloc (rt/src/ta.c:52-60): a fresh block of `num` cells, into
        which the lesser of `num` and the old block's size (read from its
        header) are copied; the rest of the fresh block is zero. The old
        block, handed out earlier, lies below the head. */
    method Realloc(ptr: nat, num: nat) returns (r: nat)
      requires head + num + 1 <= mem.Length
      requires 1 <= ptr <= head && ptr + CopyCount(num, mem[ptr - 1]) <= head
      modifies this`head, mem
      ensures r == old(head) + 1 && head == r + num
      ensures mem[r - 1] == num
      ensures forall k :: r <= k < head ==>
        mem[k] == if k - r < CopyCount(num, old(mem[ptr - 1])) then old(mem[ptr + (k - r)]) else 0
      ensures forall k :: 0 <= k < mem.Length && !(r - 1 <= k < head) ==> mem[k] == old(mem[k])
    {
      var sz := mem[ptr - 1];
      ghost var c := CopyCount(num, sz);
      var next := Malloc(num);
      var i := 0;
      while i < num && i < sz
        invariant 0 <= i <= c && ptr + c < next && head == next + num
        invariant mem[next - 1] == num
        invariant forall k :: next <= k < head ==>
          mem[k] == if k - next < i then old(mem[ptr + (k - next)]) else 0
        invariant forall k :: 0 <= k < mem.Length && !(next - 1 <= k < head) ==> mem[k] == old(mem[k])
        modifies mem
      {
        mem[next + i] := mem[ptr + i];
        i := i + 1;
      }
      Free(ptr);
      r := next;
    }
  }

  /** The blocks of a run of mallocs from head `h`: block `i` starts at
      its header cell and the address malloc returns is one past it. */
  function MallocAddresses(h: nat, sizes: seq<nat>): (r: seq<int>)
    ensures |r| == |sizes|
  {
    var starts := Starts(h, WithHeaders(sizes));
    seq(|sizes|, i requires 0 <= i < |sizes| => starts[i] + 1)
  }

  /** Each request grown by its header cell. */
  function WithHeaders(sizes: seq<nat>): (r: seq<int>)
    ensures |r| == |sizes| && forall k :: 0 <= k < |sizes| ==> r[k] == sizes[k] + 1
  {
    seq(|sizes|, i requires 0 <= i < |sizes| => sizes[i] + 1)
  }

  /** Successive mallocs return disjoint blocks: each block, with its
      header, lies above the starting head and wholly before the next
      block's header. */
  lemma MallocsDisjoint(h: nat, sizes: seq<nat>)
    ensures var a := MallocAddresses(h, sizes);
      forall i, j :: 0 <= i < j < |sizes| ==> h < a[i] && a[i] + sizes[i] < a[j]
  {
    StartsDisjoint(h, WithHeaders(sizes));
  }
}
