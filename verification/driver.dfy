/** The compiler driver (src/main.c): the file-extension test, the
    command-line options, and the list of inputs with the runtime's
    source files appended. Strings are the characters before the
    terminator; an absent `argv` entry (past the last) is None. */
module Driver {
  import opened Wrappers

  /** The output kinds (src/main.c:10-15). */
  datatype OutType = Bc | Jit | Asm | Js

  /** How the command line ended: go on compiling, exit with a status
      (usage, help and `-v` exit), or read through a null or empty
      string, which has no defined outcome. */
  datatype Status = Continue | Exit(code: int) | Fault

  /** The globals parseopt sets (src/main.c:17-20). */
  datatype Options = Options(infiles: seq<string>, outfile: Option<string>, outtype: OutType, rtsrc: Option<string>)

  /** The starting values: no inputs, the JIT, and the runtime in "rt". */
  const Defaults := Options([], None, Jit, Some("rt"))

  /** The scan of filetype from index `where` down: the last '.' at an
      index of at least 1, or 0 when there is none. */
  function DotFrom(name: string, where: nat): (w: nat)
    requires where < |name|
    ensures w <= where
    ensures w == 0 ==> forall k :: 1 <= k <= where ==> name[k] != '.'
    ensures w > 0 ==> name[w] == '.' && forall k :: w < k <= where ==> name[k] != '.'
    decreases where
  {
    if where > 0 && name[where] != '.' then DotFrom(name, where - 1) else where
  }

  /** The suffix filetype returns. */
  function Ext(name: string): string
    requires |name| >= 1
  {
    name[DotFrom(name, |name| - 1)..]
  }

  /** filetype (src/main.c:35-41): the index the returned suffix starts
      at. An empty name would start the scan at -1, so it is excluded. */
  method FileType(name: string) returns (where: nat)
    requires |name| >= 1
    ensures where == DotFrom(name, |name| - 1)
  {
    where := |name| - 1;
    while where > 0 && name[where] != '.'
      invariant where < |name| && DotFrom(name, where) == DotFrom(name, |name| - 1)
    {
      where := where - 1;
    }
  }

  /** A name that ends in '.' and a dot-free extension, after at least one
      character, has that extension. */
  lemma ExtOfDotted(base: string, e: string)
    requires |base| >= 1 && forall k :: 0 <= k < |e| ==> e[k] != '.'
    ensures Ext(base + "." + e) == "." + e
  {
    var name := base + "." + e;
    var w := DotFrom(name, |name| - 1);
    assert name[|base|] == '.';
    assert forall k :: |base| < k < |name| ==> name[k] == e[k - |base| - 1];
    assert w == |base|;
  }

  /** The output kind `-o` picks from the file name (src/main.c:79-89);
      None is the usage exit. */
  function OutputType(outfile: string): Option<OutType>
    requires |outfile| >= 1
  {
    var ext := Ext(outfile);
    if ext == ".vasm" || outfile == "/dev/stdout" || outfile == "/dev/stderr" then Some(Asm)
    else if ext == ".bc" then Some(Bc)
    else if ext == ".js" || ext == ".ts" then Some(Js)
    else None
  }

  /** Which extension selects which output: `.vasm` assembly, `.bc`
      bytecode, `.js` and `.ts` JavaScript, and any other extension is
      refused. */
  lemma OutputTypeByExtension(base: string, e: string)
    requires |base| >= 1 && forall k :: 0 <= k < |e| ==> e[k] != '.'
    requires base + "." + e != "/dev/stdout" && base + "." + e != "/dev/stderr"
    ensures OutputType(base + "." + e) ==
      if e == "vasm" then Some(Asm)
      else if e == "bc" then Some(Bc)
      else if e == "js" || e == "ts" then Some(Js)
      else None
  {
    ExtOfDotted(base, e);
    var ext := "." + e;
    assert ext[1..] == e;
    assert ext == ".vasm" <==> e == "vasm";
    assert ext == ".bc" <==> e == "bc";
    assert ext == ".js" <==> e == "js";
    assert ext == ".ts" <==> e == "ts";
  }

  /** The standard streams are written as assembly. */
  lemma StandardStreamsAreAsm()
    ensures OutputType("/dev/stdout") == Some(Asm) && OutputType("/dev/stderr") == Some(Asm)
  {
  }

  /** The character at `i`, or the terminator past the end. */
  function At(s: string, i: nat): char {
    if i < |s| then s[i] else '\0'
  }

  /** The argument at `i`, or None (the null pointer) past the end. */
  function ArgAt(argv: seq<string>, i: nat): Option<string> {
    if i < |argv| then Some(argv[i]) else None
  }

  /** parseopt's loop from argument `i` (src/main.c:45-103), as a
      recursion over the arguments: the options it ends with and how it
      ends. */
  function Parse(argv: seq<string>, i: nat, o: Options): (Options, Status)
    requires i <= |argv| + 1
    decreases |argv| + 1 - i
  {
    if i >= |argv| then (o, Continue)
    else
      var arg := argv[i];
      if At(arg, 0) != '-' then Parse(argv, i + 1, o.(infiles := o.infiles + [arg]))
      else if At(arg, 1) == 'n' then Parse(argv, i + 1, o.(rtsrc := None))
      else if At(arg, 1) == 'r' then Parse(argv, i + 2, o.(rtsrc := ArgAt(argv, i + 1)))
      else if At(arg, 1) == 'v' then (o, Exit(0))
      else if At(arg, 1) == 'j' then
        if arg[2..] == "on" then Parse(argv, i + 1, o.(outtype := Jit)) else (o, Exit(1))
      else if At(arg, 1) == 'o' then
        var o' := o.(outfile := ArgAt(argv, i + 1));
        if i + 1 >= |argv| || |argv[i + 1]| == 0 then (o', Fault)
        else match OutputType(argv[i + 1])
          case Some(t) => Parse(argv, i + 2, o'.(outtype := t))
          case None => (o', Exit(1))
      else if At(arg, 1) == 'h' then (o, Exit(0))
      else (o, Exit(1))
  }

  /** Arguments that are not options are all inputs, in order, and leave
      every other setting alone. */
  lemma {:induction false} PlainArguments(argv: seq<string>, i: nat, o: Options)
    requires i <= |argv|
    requires forall k :: i <= k < |argv| ==> At(argv[k], 0) != '-'
    ensures Parse(argv, i, o) == (o.(infiles := o.infiles + argv[i..]), Continue)
    decreases |argv| - i
  {
    if i < |argv| {
      PlainArguments(argv, i + 1, o.(infiles := o.infiles + [argv[i]]));
      assert o.infiles + [argv[i]] + argv[i + 1..] == o.infiles + argv[i..];
    } else {
      assert o.infiles + argv[i..] == o.infiles;
    }
  }

  /** `-r` as the last argument reads the null entry after it: the
      runtime directory becomes null and no runtime is added. */
  lemma TrailingRuntimeFlag(argv: seq<string>, o: Options)
    requires |argv| >= 2 && argv[|argv| - 1] == "-r"
    ensures Parse(argv, |argv| - 1, o) == (o.(rtsrc := None), Continue)
  {
  }

  /** The runtime's source files main appends (src/main.c:116-123), in
      that order, start.c last. */
  function RuntimeFiles(rt: string): seq<string> {
    [rt + "/src/stdio.c", rt + "/src/ctype.c", rt + "/src/string.c", rt + "/src/ta.c", rt + "/src/start.c"]
  }

  /** The inputs main compiles: the ones given, then the runtime's. */
  function Inputs(o: Options): seq<string> {
    o.infiles + (if o.rtsrc.Some? then RuntimeFiles(o.rtsrc.value) else [])
  }

  /** What main does with an input (src/main.c:127-157): assembly is
      appended after the generated code, C sources are compiled, anything
      else is an error; an empty name has no extension to read. */
  datatype Kind = Assembly | Source | Unknown | Undefined

  function Classify(name: string): Kind {
    if |name| == 0 then Undefined
    else
      var ext := Ext(name);
      if ext == ".vasm" then Assembly
      else if ext == ".c" || ext == ".h" || ext == ".i" || name == "/dev/stdin" then Source
      else Unknown
  }

  /** Every runtime file is compiled. */
  lemma RuntimeFilesCompiled(rt: string)
    ensures forall f :: f in RuntimeFiles(rt) ==> Classify(f) == Source
  {
    var names := ["/src/stdio", "/src/ctype", "/src/string", "/src/ta", "/src/start"];
    forall j | 0 <= j < 5
      ensures Classify(RuntimeFiles(rt)[j]) == Source
    {
      assert RuntimeFiles(rt)[j] == (rt + names[j]) + "." + "c";
      ExtOfDotted(rt + names[j], "c");
    }
  }

  /** The inputs of one kind, in order. */
  function Select(files: seq<string>, k: Kind): (r: seq<string>)
    ensures |r| <= |files|
  {
    if |files| == 0 then []
    else (if Classify(files[0]) == k then [files[0]] else []) + Select(files[1..], k)
  }

  lemma {:induction false} SelectAppend(a: seq<string>, b: seq<string>, k: Kind)
    ensures Select(a + b, k) == Select(a, k) + Select(b, k)
  {
    if |a| > 0 {
      SelectAppend(a[1..], b, k);
      assert (a + b)[1..] == a[1..] + b;
    } else {
      assert a + b == b;
    }
  }

  /** With the runtime on, the compiled sources are the given ones and
      then the runtime's, so start.c, which defines _start, is the last
      file compiled. */
  lemma StartCompiledLast(o: Options)
    requires o.rtsrc.Some?
    ensures var s := Select(Inputs(o), Source);
      |s| >= 5 && s[|s| - 5..] == RuntimeFiles(o.rtsrc.value) && s[|s| - 1] == o.rtsrc.value + "/src/start.c"
  {
    var rt := RuntimeFiles(o.rtsrc.value);
    SelectAppend(o.infiles, rt, Source);
    RuntimeFilesCompiled(o.rtsrc.value);
    SelectAll(rt, Source);
  }

  /** Files all of one kind are all selected. */
  lemma {:induction false} SelectAll(files: seq<string>, k: Kind)
    requires forall j :: 0 <= j < |files| ==> Classify(files[j]) == k
    ensures Select(files, k) == files
  {
    if |files| > 0 {
      SelectAll(files[1..], k);
    }
  }

  /** Selecting from one more file. */
  lemma SelectStep(files: seq<string>, i: nat)
    requires i < |files|
    ensures forall k :: Select(files[..i + 1], k) == Select(files[..i], k) + (if Classify(files[i]) == k then [files[i]] else [])
  {
    assert files[..i + 1] == files[..i] + [files[i]];
    forall k {
      SelectAppend(files[..i], [files[i]], k);
    }
  }

  /** main's globals, updated by parseopt. */
  class Main {
    var infiles: seq<string>
    var outfile: Option<string>
    var outtype: OutType
    var rtsrc: Option<string>

    constructor ()
      ensures State() == Defaults
    {
      infiles, outfile, outtype, rtsrc := [], None, Jit, Some("rt");
    }

    function State(): Options
      reads this
    {
      Options(infiles, outfile, outtype, rtsrc)
    }

    /** parseopt (src/main.c:43-105): the options after the arguments
        and how the command line ended. */
    method ParseOpt(argv: seq<string>) returns (status: Status)
      modifies this
      ensures (State(), status) == Parse(argv, 1, old(State()))
    {
      var i := 1;
      while i < |argv|
        invariant i <= |argv| + 1
        invariant Parse(argv, i, State()) == Parse(argv, 1, old(State()))
        decreases |argv| + 1 - i
      {
        var arg := argv[i];
        i := i + 1;
        if At(arg, 0) == '-' {
          var c := At(arg, 1);
          if c == 'n' {
            rtsrc := None;
          } else if c == 'r' {
            rtsrc := ArgAt(argv, i);
            i := i + 1;
          } else if c == 'v' {
            return Exit(0);
          } else if c == 'j' {
            if arg[2..] == "on" {
              outtype := Jit;
            } else {
              return Exit(1);
            }
          } else if c == 'o' {
            outfile := ArgAt(argv, i);
            i := i + 1;
            if outfile.None? || |outfile.value| == 0 {
              return Fault;
            }
            var t := OutputType(outfile.value);
            if t.None? {
              return Exit(1);
            }
            outtype := t.value;
          } else if c == 'h' {
            return Exit(0);
          } else {
            return Exit(1);
          }
        } else {
          infiles := infiles + [arg];
        }
      }
      status := Continue;
    }

    /** The input list main builds (src/main.c:116-124). */
    method AddRuntime()
      modifies this`infiles
      ensures infiles == Inputs(old(State()))
    {
      if rtsrc.Some? {
        infiles := infiles + RuntimeFiles(rtsrc.value);
      }
    }
  }

  /** main's loop over the inputs (src/main.c:125-158): the assembly
      files and the compiled sources, each in order, or the exit on the
      first input it cannot handle. */
  method Dispatch(files: seq<string>) returns (asm: seq<string>, sources: seq<string>, status: Status)
    ensures status == Continue <==> forall f :: f in files ==> Classify(f) in {Assembly, Source}
    ensures status == Continue ==> asm == Select(files, Assembly) && sources == Select(files, Source)
    ensures status != Continue ==> status == Exit(1) || status == Fault
  {
    asm, sources := [], [];
    for i := 0 to |files|
      invariant forall f :: f in files[..i] ==> Classify(f) in {Assembly, Source}
      invariant asm == Select(files[..i], Assembly) && sources == Select(files[..i], Source)
    {
      var f := files[i];
      SelectStep(files, i);
      var k := Classify(f);
      if k == Assembly {
        asm := asm + [f];
      } else if k == Source {
        sources := sources + [f];
      } else if k == Unknown {
        return asm, sources, Exit(1);
      } else {
        return asm, sources, Fault;
      }
    }
    assert files[..|files|] == files;
    status := Continue;
  }
}
