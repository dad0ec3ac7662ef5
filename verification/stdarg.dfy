/** The variable-argument cursor of the C runtime (rt/include/stdarg.h):
    a `va_list` holds a pointer into the word memory where the arguments
    following the last named parameter lie, one after the other. */
module Stdarg {

  class VaList {
    /** The address va_arg read last. */
    var tmp: int
    /** The address of the next unread argument. */
    var ptr: int

    constructor ()
      ensures tmp == 0 && ptr == 0
    {
      tmp, ptr := 0, 0;
    }

    /** va_start (rt/include/stdarg.h:13): the cursor is set just past
        the last named parameter, at `&last + 1`, which is `lastSize`
        words after its address. */
    method Start(lastAddr: int, lastSize: nat)
      modifies this`ptr
      ensures ptr == lastAddr + lastSize
    {
      ptr := lastAddr + lastSize;
    }

    /** va_arg (rt/include/stdarg.h:10): the value at the cursor, which
        then moves on by the size of the argument's type. */
    method Arg(mem: array<int>, size: nat) returns (v: int)
      requires 0 <= ptr < mem.Length
      modifies this
      ensures v == mem[old(ptr)]
      ensures tmp == old(ptr) && ptr == old(ptr) + size
    {
      tmp := ptr;
      ptr := ptr + size;
      v := mem[tmp];
    }

    /** va_copy (rt/include/stdarg.h:11): the cursor of `src` is copied. */
    method CopyFrom(src: VaList)
      modifies this`ptr
      ensures ptr == src.ptr
    {
      ptr := src.ptr;
    }

    /** va_end (rt/include/stdarg.h:14): the expression 1, with no
        effect on the list. */
    method End() returns (r: int)
      ensures r == 1
    {
      r := 1;
    }
  }
}
