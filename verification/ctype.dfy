/** Character classification of the C runtime (rt/src/ctype.c): a table
    of flag words and case mappings, one row per character code and one
    for EOF, read through a pointer to its second row. */
module CType {

  const ALPHA: bv16 := 1
  const BLANK: bv16 := 2
  const CNTRL: bv16 := 4
  const GRAPH: bv16 := 8
  const PUNCT: bv16 := 16
  const SPACE: bv16 := 32
  const LOWER: bv16 := 64
  const UPPER: bv16 := 128

  /** EOF as the classification functions receive it. */
  const EOF := -1

  /** A table row: the class flags, the toupper result and the tolower
      result. */
  datatype Entry = Entry(flags: bv16, upper: int, lower: int)

  /** The locale record: the digit and hex-letter ranges and where the
      table is read from (`entry` is `&_ctype_entries_C[1]`). */
  datatype Locale = Locale(alloced: int, digitsLow: int, digitsHigh: int,
                           upperHexLow: int, upperHexHigh: int,
                           lowerHexLow: int, lowerHexHigh: int, entryOffset: int)

  /** __minivm_ctype_C (rt/src/ctype.c:290). */
  const CLocale := Locale(0, 0x30, 0x39, 0x41, 0x46, 0x61, 0x66, 1)

  /** Row `i` of `_ctype_entries_C` (rt/src/ctype.c:30-288): row 0 is
      EOF, row `c + 1` describes character code `c`. */
  function Row(i: int): Entry
    requires 0 <= i <= 256
  {
    var c := i - 1;
    if c == -1 then Entry(0, 0, 0)
    else if c <= 8 then Entry(CNTRL, c, c)
    else if c == 9 then Entry(CNTRL | BLANK | SPACE, c, c)
    else if c <= 13 then Entry(CNTRL | SPACE, c, c)
    else if c <= 31 then Entry(CNTRL, c, c)
    else if c == 32 then Entry(BLANK | SPACE, c, c)
    else if c <= 47 then Entry(GRAPH | PUNCT, c, c)
    else if c <= 57 then Entry(GRAPH, c, c)
    else if c <= 64 then Entry(GRAPH | PUNCT, c, c)
    else if c <= 90 then Entry(GRAPH | ALPHA | UPPER, c, c + 32)
    else if c <= 96 then Entry(GRAPH | PUNCT, c, c)
    else if c <= 122 then Entry(GRAPH | ALPHA | LOWER, c - 32, c)
    else if c <= 126 then Entry(GRAPH | PUNCT, c, c)
    else if c == 127 then Entry(CNTRL, c, c)
    else Entry(0, c, c)
  }

  /** The codes the table covers: EOF and every unsigned char. */
  predicate InDomain(c: int) {
    EOF <= c <= 255
  }

  /** `entry[c]`. */
  function EntryOf(c: int): Entry
    requires InDomain(c)
  {
    Row(c + CLocale.entryOffset)
  }

  /** The value of a flag test `entry[c].flags & f`. */
  function Flag(c: int, f: bv16): int
    requires InDomain(c)
  {
    (EntryOf(c).flags & f) as int
  }

  predicate Upper(c: int) { 'A' as int <= c <= 'Z' as int }
  predicate Lower(c: int) { 'a' as int <= c <= 'z' as int }
  predicate Digit(c: int) { '0' as int <= c <= '9' as int }

  /** isdigit (rt/src/ctype.c:310-312). */
  function IsDigit(c: int): (r: int)
    ensures r in {0, 1} && (r == 1 <==> Digit(c))
  {
    if c >= CLocale.digitsLow && c <= CLocale.digitsHigh then 1 else 0
  }

  /** isalpha (rt/src/ctype.c:298-300). */
  function IsAlpha(c: int): (r: int)
    requires InDomain(c)
    ensures r != 0 <==> Upper(c) || Lower(c)
  {
    Flag(c, ALPHA)
  }

  /** isalnum (rt/src/ctype.c:294-296). */
  function IsAlnum(c: int): (r: int)
    requires InDomain(c)
    ensures r in {0, 1} && (r == 1 <==> Digit(c) || Upper(c) || Lower(c))
  {
    if IsDigit(c) != 0 || IsAlpha(c) != 0 then 1 else 0
  }

  /** isblank (rt/src/ctype.c:302-304). */
  function IsBlank(c: int): (r: int)
    requires InDomain(c)
    ensures r != 0 <==> c == 0x09 || c == 0x20
  {
    Flag(c, BLANK)
  }

  /** iscntrl (rt/src/ctype.c:306-308). */
  function IsCntrl(c: int): (r: int)
    requires InDomain(c)
    ensures r != 0 <==> 0x00 <= c <= 0x1F || c == 0x7F
  {
    Flag(c, CNTRL)
  }

  /** isgraph (rt/src/ctype.c:314-316). */
  function IsGraph(c: int): (r: int)
    requires InDomain(c)
    ensures r != 0 <==> 0x21 <= c <= 0x7E
  {
    Flag(c, GRAPH)
  }

  /** islower (rt/src/ctype.c:318-320). */
  function IsLower(c: int): (r: int)
    requires InDomain(c)
    ensures r != 0 <==> Lower(c)
  {
    Flag(c, LOWER)
  }

  /** isprint (rt/src/ctype.c:322-324). */
  function IsPrint(c: int): (r: int)
    requires InDomain(c)
    ensures r in {0, 1} && (r == 1 <==> 0x20 <= c <= 0x7E)
  {
    if Flag(c, GRAPH) != 0 || c == ' ' as int then 1 else 0
  }

  /** ispunct (rt/src/ctype.c:326-328): the printing characters that are
      neither letters, digits nor the space. */
  function IsPunct(c: int): (r: int)
    requires InDomain(c)
    ensures r != 0 <==> 0x21 <= c <= 0x7E && !Digit(c) && !Upper(c) && !Lower(c)
  {
    Flag(c, PUNCT)
  }

  /** isspace (rt/src/ctype.c:330-332). */
  function IsSpace(c: int): (r: int)
    requires InDomain(c)
    ensures r != 0 <==> c == 0x20 || 0x09 <= c <= 0x0D
  {
    Flag(c, SPACE)
  }

  /** isupper (rt/src/ctype.c:334-336). */
  function IsUpper(c: int): (r: int)
    requires InDomain(c)
    ensures r != 0 <==> Upper(c)
  {
    Flag(c, UPPER)
  }

  /** isxdigit (rt/src/ctype.c:338-342). */
  function IsXdigit(c: int): (r: int)
    ensures r in {0, 1}
    ensures r == 1 <==> Digit(c) || 'A' as int <= c <= 'F' as int || 'a' as int <= c <= 'f' as int
  {
    if IsDigit(c) != 0
       || (c >= CLocale.upperHexLow && c <= CLocale.upperHexHigh)
       || (c >= CLocale.lowerHexLow && c <= CLocale.lowerHexHigh)
    then 1 else 0
  }

  /** The first tolower (rt/src/ctype.c:344-346): upper case letters map
      to lower case, other characters to themselves, and EOF to 0 (the
      EOF row holds 0). */
  function ToLower(c: int): (r: int)
    requires InDomain(c)
    ensures r == if Upper(c) then c + 32 else if c == EOF then 0 else c
  {
    EntryOf(c).lower
  }

  /** toupper: lower case letters map to upper case, other characters
      to themselves, EOF to 0. The file defines no toupper; its second
      tolower (rt/src/ctype.c:348-350) is this body. */
  function ToUpper(c: int): (r: int)
    requires InDomain(c)
    ensures r == if Lower(c) then c - 32 else if c == EOF then 0 else c
  {
    EntryOf(c).upper
  }

  /** Where the second tolower definition is the one linked, tolower
      raises the case: 'a' becomes 'A' and 'A' stays 'A'. */
  lemma SecondToLowerRaises()
    ensures ToUpper('a' as int) == 'A' as int != ToLower('a' as int)
    ensures ToUpper('A' as int) == 'A' as int != ToLower('A' as int)
  {
  }

  /** The two case mappings undo each other on letters and agree with
      the classes: toupper yields upper case, tolower lower case. */
  lemma CaseRoundTrip(c: int)
    requires InDomain(c)
    ensures Lower(c) ==> IsUpper(ToUpper(c)) != 0 && ToLower(ToUpper(c)) == c
    ensures Upper(c) ==> IsLower(ToLower(c)) != 0 && ToUpper(ToLower(c)) == c
    ensures IsAlpha(c) == 0 && c != EOF ==> ToLower(c) == c && ToUpper(c) == c
  {
  }

  /** `entry[-1]` is the all-zero row: every table class is false for
      EOF, and so are isdigit and isxdigit. */
  lemma EofInNoClass()
    ensures IsAlpha(EOF) == 0 && IsBlank(EOF) == 0 && IsCntrl(EOF) == 0 && IsGraph(EOF) == 0
    ensures IsLower(EOF) == 0 && IsUpper(EOF) == 0 && IsPunct(EOF) == 0 && IsSpace(EOF) == 0
    ensures IsPrint(EOF) == 0 && IsAlnum(EOF) == 0 && IsDigit(EOF) == 0 && IsXdigit(EOF) == 0
  {
  }

  /** The classes partition the printing characters: each one other
      than the space is exactly one of letter, digit or punctuation. */
  lemma GraphPartition(c: int)
    requires InDomain(c) && IsGraph(c) != 0
    ensures (IsAlpha(c) != 0) != (IsDigit(c) != 0 || IsPunct(c) != 0)
    ensures IsDigit(c) != 0 ==> IsPunct(c) == 0
  {
  }
}
