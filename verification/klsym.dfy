/** Symbol names and the symbol table of test/kl.c: a name is kept as a
    list of cells packing two characters each, high byte first
    (strsym, symstr), and symbols are found through a hash table of
    buckets (hash, htadd, htlookup). Names are ASCII, as the reader
    produces them. */
module KlSym {
  import opened Wrappers
  import opened CStrings
  import Externs

  /** SYMLEN (test/kl.c:96). */
  const SymLen := 64

  predicate Ascii(s: seq<int>) {
    forall k :: 0 <= k < |s| ==> 0 < s[k] < 128
  }

  /** The character at `i` of a C string with contents `s`: the
      terminator, 0, past the end. */
  function At(s: seq<int>, i: nat): int {
    if i < |s| then s[i] else 0
  }

  /** The cell values strsym stores for a non-empty name: two
      characters per cell, `(s[i] << 8) | s[i + 1]`, the last cell
      holding a 0 low byte when the length is odd. */
  function Pack(s: seq<int>): (r: seq<int>)
    requires |s| >= 1
    ensures |r| == (|s| + 1) / 2
    decreases |s|
  {
    if |s| <= 2 then [At(s, 0) * 256 + At(s, 1)]
    else [s[0] * 256 + s[1]] + Pack(s[2..])
  }

  /** strsym (test/kl.c:597-612) on the characters of the name: NIL (None)
      for the empty name, else the packed cell values in list order. The
      allocation of the cells is not modelled. */
  method Strsym(s: seq<int>) returns (r: Option<seq<int>>)
    requires Ascii(s)
    ensures r.None? <==> |s| == 0
    ensures r.Some? ==> r.value == Pack(s)
  {
    if At(s, 0) == 0 {
      return None;
    }
    var cells := [];
    var i := 0;
    while true
      invariant i < |s|
      invariant cells + Pack(s[i..]) == Pack(s)
      decreases |s| - i
    {
      var c := At(s, i) * 256 + At(s, i + 1);
      PackFrom(s, i);
      cells := cells + [c];
      if At(s, i + 1) == 0 || At(s, i + 2) == 0 {
        assert cells == Pack(s);
        break;
      }
      i := i + 2;
    }
    r := Some(cells);
  }

  /** Packing from index `i`: one cell, then the rest after two more
      characters. */
  lemma PackFrom(s: seq<int>, i: nat)
    requires i < |s|
    ensures Pack(s[i..]) == [At(s, i) * 256 + At(s, i + 1)] + (if |s| - i <= 2 then [] else Pack(s[i + 2..]))
  {
    var t := s[i..];
    assert At(t, 0) == At(s, i) && At(t, 1) == At(s, i + 1);
    if |s| - i > 2 {
      assert t[2..] == s[i + 2..];
    }
  }

  /** The bytes of a cell packing two ASCII characters. */
  lemma CellBytes(x: int, y: int)
    requires 0 <= x < 128 && 0 <= y < 128
    ensures Externs.Char((x * 256 + y) / 256) == x && Externs.Char((x * 256 + y) % 256) == y
  {
    var c := x * 256 + y;
    assert c / 256 == x && c % 256 == y;
  }

  /** The characters symstr writes for a list of name cells: for each
      cell its high byte, then its low byte, each as a `char`. */
  function Unpack(cells: seq<int>): (r: seq<int>)
    ensures |r| == 2 * |cells|
  {
    if |cells| == 0 then []
    else [Externs.Char(cells[0] / 256), Externs.Char(cells[0] % 256)] + Unpack(cells[1..])
  }

  lemma UnpackAppend(a: seq<int>, b: seq<int>)
    ensures Unpack(a + b) == Unpack(a) + Unpack(b)
  {
    if |a| > 0 {
      assert (a + b)[1..] == a[1..] + b;
    } else {
      assert a + b == b;
    }
  }

  /** Unpacking the packed cells gives back the name, followed by a
      single 0 when the length is odd. */
  lemma {:induction false} UnpackPack(s: seq<int>)
    requires |s| >= 1 && Ascii(s)
    ensures Unpack(Pack(s)) == s + (if |s| % 2 == 1 then [0] else [])
    decreases |s|
  {
    var p := Pack(s);
    CellBytes(s[0], At(s, 1));
    assert Unpack(p) == [s[0], At(s, 1)] + Unpack(p[1..]);
    if |s| > 2 {
      UnpackPack(s[2..]);
      assert p[1..] == Pack(s[2..]);
      assert s == [s[0], s[1]] + s[2..];
    } else {
      assert p[1..] == [];
    }
  }

  /** symstr(strsym(s)) == s: for a non-empty ASCII name of at most SYMLEN
      characters, the buffer symstr fills from the packed cells, with its
      terminator, fits the `SYMLEN + 2` buffer and holds the name. */
  lemma NameRoundTrip(s: seq<int>)
    requires 1 <= |s| <= SymLen && Ascii(s)
    ensures var b := Unpack(Pack(s)) + [0];
      |b| <= SymLen + 2 && Terminated(b, 0) && Str(b, 0) == s
  {
    var b := Unpack(Pack(s)) + [0];
    UnpackPack(s);
    assert b[|s|] == 0;
    assert forall k :: 0 <= k < |s| ==> b[k] == s[k];
    LengthUnique(b, 0, |s|);
  }

  /** One step of hash: `h = (((h << 5) & 0x7fff) + h ^ c) & 0x7fff`;
      the sum of two values below 0x8000 fits 16 bits. */
  function HashStep(h: bv16, c: int): (r: bv16)
    requires h < 0x8000
    ensures r < 0x8000
  {
    ((((h << 5) & 0x7fff) + h) ^ ((c % 0x10000) as bv16)) & 0x7fff
  }

  /** The hash code of a name, from 0x2345. */
  function HashCode(s: seq<int>): (h: bv16)
    ensures h < 0x8000
  {
    if |s| == 0 then 0x2345 else HashStep(HashCode(s[..|s| - 1]), s[|s| - 1])
  }

  /** hash (test/kl.c:672-679) on the name's characters: the hash code
      reduced modulo the table length, always a slot index. */
  method Hash(s: seq<int>, k: nat) returns (r: nat)
    requires k > 0
    ensures r == HashCode(s) as int % k && r < k
  {
    var h: bv16 := 0x2345;
    var i := 0;
    while i < |s|
      invariant 0 <= i <= |s| && h == HashCode(s[..i])
    {
      assert s[..i + 1][..i] == s[..i];
      h := ((((h << 5) & 0x7fff) + h) ^ ((s[i] % 0x10000) as bv16)) & 0x7fff;
      i := i + 1;
    }
    assert s[..i] == s;
    r := h as int % k;
  }

  /** A symbol: its cell and its name. */
  datatype Sym = Sym(cell: nat, name: seq<int>)

  /** The first entry of a bucket with the given name. */
  function FindName(bucket: seq<Sym>, name: seq<int>): (r: Option<Sym>)
    ensures r.Some? ==> r.value in bucket && r.value.name == name
    ensures r.None? ==> forall k :: 0 <= k < |bucket| ==> bucket[k].name != name
  {
    if |bucket| == 0 then None
    else if bucket[0].name == name then Some(bucket[0])
    else FindName(bucket[1..], name)
  }

  /** Where a name hashes to in a table of `n` slots. */
  function Slot(name: seq<int>, n: nat): nat
    requires n > 0
  {
    HashCode(name) as int % n
  }

  /** What htlookup finds for a name. */
  function Lookup(slots: seq<seq<Sym>>, name: seq<int>): Option<Sym>
    requires |slots| > 0
  {
    FindName(slots[Slot(name, |slots|)], name)
  }

  /** The table after htadd: the symbol in front of its bucket. */
  function Add(slots: seq<seq<Sym>>, k: Sym): (r: seq<seq<Sym>>)
    requires |slots| > 0
    ensures |r| == |slots|
  {
    var h := Slot(k.name, |slots|);
    slots[h := [k] + slots[h]]
  }

  /** After htadd, looking up the added name finds the added symbol, and
      every other name finds what it found before. */
  lemma AddThenLookup(slots: seq<seq<Sym>>, k: Sym, name: seq<int>)
    requires |slots| > 0
    ensures Lookup(Add(slots, k), name) == if name == k.name then Some(k) else Lookup(slots, name)
  {
    var h := Slot(k.name, |slots|);
    if name != k.name && Slot(name, |slots|) == h {
      assert ([k] + slots[h])[1..] == slots[h];
    }
  }

  /** A symbol table (mkht, test/kl.c:656-664): the count and the
      buckets. */
  class Table {
    var count: nat
    var slots: seq<seq<Sym>>

    constructor (n: nat)
      requires n > 0
      ensures count == 0 && |slots| == n && forall k :: 0 <= k < n ==> slots[k] == []
    {
      count := 0;
      slots := seq(n, _ => []);
    }

    /** htadd (test/kl.c:697-705): the symbol goes in front of the bucket
        its name hashes to, and the count goes up by one. */
    method HtAdd(k: Sym)
      requires |slots| > 0
      modifies this
      ensures slots == Add(old(slots), k) && count == old(count) + 1
    {
      var h := Hash(k.name, |slots|);
      slots := slots[h := [k] + slots[h]];
      count := count + 1;
    }

    /** htlookup (test/kl.c:681-695): the first symbol of the name's
        bucket with the same name, or NIL (None). */
    method HtLookup(k: Sym) returns (r: Option<Sym>)
      requires |slots| > 0
      ensures r == Lookup(slots, k.name)
    {
      var h := Hash(k.name, |slots|);
      var bucket := slots[h];
      var j := 0;
      while j < |bucket|
        invariant 0 <= j <= |bucket| && FindName(bucket[j..], k.name) == FindName(bucket, k.name)
      {
        if bucket[j].name == k.name {
          return Some(bucket[j]);
        }
        assert bucket[j..][1..] == bucket[j + 1..];
        j := j + 1;
      }
      r := None;
    }
  }
}
