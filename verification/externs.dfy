/** The host-side helpers the virtual machine's externals use
    (src/externs.c): reading a zero-terminated array of words out of
    the machine and converting it to a C string or a record, and the
    size arithmetic of the allocation externals. */
module Externs {
  import opened CStrings

  /** `(char) x` on a host with 8-bit two's-complement `char`: the value
      in -128..127 that agrees with `x` modulo 256. */
  function Char(x: int): (c: int)
    ensures -128 <= c < 128 && (x - c) % 256 == 0
  {
    var b := x % 256;
    if b >= 128 then b - 256 else b
  }

  /** vm_extern_strlen (src/externs.c:7-15): the index of the first zero
      word from `p`; the array must hold one. */
  method ExternStrlen(a: array<int>, p: int) returns (n: int)
    requires Terminated(a[..], p)
    ensures n == Length(a[..], p)
  {
    n := 0;
    while a[p + n] != 0
      invariant 0 <= n <= Length(a[..], p)
      decreases Length(a[..], p) - n
    {
      n := n + 1;
    }
  }

  /** The buffer vm_extern_to_string fills: the words of the string, each
      cut to a `char`, and a terminating zero. */
  function CharsOf(s: seq<int>, p: int): (r: seq<int>)
    requires Terminated(s, p)
    ensures |r| == Length(s, p) + 1 && r[|r| - 1] == 0
    ensures forall k :: 0 <= k < |r| - 1 ==> r[k] == Char(s[p + k])
  {
    seq(Length(s, p), k requires 0 <= k < Length(s, p) => Char(s[p + k])) + [0]
  }

  /** vm_extern_to_string (src/externs.c:17-24): a fresh zeroed buffer of
      `max + 1` chars, the first `max` set from the words. */
  method ToString(a: array<int>, p: int) returns (ret: array<int>)
    requires Terminated(a[..], p)
    ensures fresh(ret) && ret[..] == CharsOf(a[..], p)
  {
    var max := ExternStrlen(a, p);
    ret := new int[max + 1](_ => 0);
    for i := 0 to max
      invariant forall k :: 0 <= k < i ==> ret[k] == Char(a[p + k])
      invariant forall k :: i <= k <= max ==> ret[k] == 0
    {
      ret[i] := Char(a[p + i]);
    }
  }

  /** Words that are ASCII characters survive the conversion: the buffer
      holds the same string. */
  lemma AsciiRoundTrip(s: seq<int>, p: int)
    requires Terminated(s, p)
    requires forall k :: p <= k < p + Length(s, p) ==> 0 < s[k] < 128
    ensures Terminated(CharsOf(s, p), 0) && Str(CharsOf(s, p), 0) == Str(s, p)
  {
    var r := CharsOf(s, p);
    var n := Length(s, p);
    assert forall k :: 0 <= k < n ==> r[k] == s[p + k];
    assert r[n] == 0;
    LengthUnique(r, 0, n);
  }

  /** A word that is a nonzero multiple of 256 becomes a zero char, and
      the C string ends early: [256, 66, 0] has two words before its
      terminator but converts to the empty string. */
  lemma MultipleOf256CutsShort()
    ensures var s := [256, 66, 0];
      Terminated(s, 0) && Length(s, 0) == 2 && Str(CharsOf(s, 0), 0) == []
  {
    var s := [256, 66, 0];
    assert s[2] == 0;
    LengthUnique(s, 0, 2);
    var r := CharsOf(s, 0);
    assert r[0] == 0;
    LengthUnique(r, 0, 0);
  }

  /** raylib's Color: four `unsigned char` channels. */
  datatype Color = Color(r: int, g: int, b: int, a: int)

  /** `(unsigned char) x`. */
  function UChar(x: int): (c: int)
    ensures 0 <= c < 256 && (x - c) % 256 == 0
  {
    x % 256
  }

  /** vm_extern_to_color (src/externs.c:26-34): the four words from `p`
      are red, green, blue and alpha, in that order. */
  function ToColor(s: seq<int>, p: nat): (c: Color)
    requires p + 4 <= |s|
    ensures c.r == UChar(s[p]) && c.g == UChar(s[p + 1]) && c.b == UChar(s[p + 2]) && c.a == UChar(s[p + 3])
  {
    Color(UChar(s[p]), UChar(s[p + 1]), UChar(s[p + 2]), UChar(s[p + 3]))
  }

  /** The words a color is written to by a program in the machine. */
  function ColorWords(c: Color): seq<int> {
    [c.r, c.g, c.b, c.a]
  }

  /** Reading back the words of a color gives the color. */
  lemma ColorRoundTrip(c: Color)
    requires 0 <= c.r < 256 && 0 <= c.g < 256 && 0 <= c.b < 256 && 0 <= c.a < 256
    ensures ToColor(ColorWords(c), 0) == c
  {
  }

  /** raylib's Vector2, with the float coordinates kept as integers. */
  datatype Vector2 = Vector2(x: int, y: int)

  /** vm_extern_to_v2 (src/externs.c:36-41): the two words from `p` are
      x and y. */
  function ToV2(s: seq<int>, p: nat): (v: Vector2)
    requires p + 2 <= |s|
    ensures [v.x, v.y] == s[p..p + 2]
  {
    Vector2(s[p], s[p + 1])
  }

  /** The words a vector is written to by a program in the machine. */
  function V2Words(v: Vector2): seq<int> {
    [v.x, v.y]
  }

  /** Reading back the words of a vector gives the vector, and the words
      read at `p` are the vector's words. This holds in the model, which
      keeps the float fields as words; the C conversion of a word to a
      float rounds magnitudes above 2^24. */
  lemma V2RoundTrip(v: Vector2, s: seq<int>, p: nat)
    requires p + 2 <= |s|
    ensures ToV2(V2Words(v), 0) == v
    ensures V2Words(ToV2(s, p)) == s[p..p + 2]
  {
  }

  /** sizeof(ptrdiff_t) on the 64-bit host. */
  const PtrdiffBytes := 8

  /** The byte count VMMalloc and VMRealloc (src/externs.c:100-109) ask
      the host allocator for: room for exactly `n` words. */
  function WordBytes(n: int): (bytes: int)
    ensures bytes % PtrdiffBytes == 0 && bytes / PtrdiffBytes == n
  {
    PtrdiffBytes * n
  }
}
