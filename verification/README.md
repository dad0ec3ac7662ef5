# minivm-cc, modelled in Dafny

minivm-cc is a C compiler, derived from 8cc, for the MiniVM virtual machine.
It emits MiniVM assembly: numbered registers `rN`, word-addressed memory
read with `get` and written with `set`, labels `@name`, and branches
`beq`/`blt`/`ubb`. It ships a small C runtime, and its test programs include
a Lisp interpreter. This project models the following parts and proves
their properties:

- **Code generator (src/gen.c).** The generator state becomes a class
  `Gen.Generator`: output lines, the register counter, labels, frame size,
  locals, globals and the queues of global words. Each `emit_*` routine is a
  method.
- **MiniVM semantics (`Machine`).** A small operational semantics of the
  instructions the generator emits. The emitted code shapes (`Patterns`,
  `Flow`, `Lower`) are proved to compute what the C construct means, by
  running them on that semantics.
- **Older generator (root gen.c).** It prints through a `#`-to-`%` format
  rewrite. It is modelled as `OldGen` and its runs are proved in `Flow`.
- **Runtime (rt/).**
  - string.c is `CStrings`, with word arrays holding C strings.
  - ctype.c is `CType`, the classification table.
  - bits.c is `Bits`, library functions a program may call; the compiler
    emits the VM's own shift and bitwise instructions instead.
  - stdarg.h is `Stdarg.VaList`.
  - stdio.c is `Stdio.Console`, whose putchar output is a log.
  - ta.c is `TinyAlloc.Heap`.
  - start.c is `Bump.Runtime`.
- **Host externs (src/externs.c).** The conversions between VM words and
  host strings, colours and vectors (`Externs`).
- **Driver (src/main.c).** Extension test, option parsing, input list and
  dispatch (`Driver`).
- **Lisp interpreter (test/kl.c).**
  - Fixnum text conversions (`KlNum`).
  - Fixnum arithmetic and comparisons (`KlFix`).
  - Symbol names and the symbol hash table (`KlSym`).
  - The cell heap with cons3, nrev, the sweep of gc and symstr
    (`KlHeap.Heap`, over `car`, `cdr` and `tag` arrays).

Integers are unbounded. Where the source's width matters, it is written
out:
- the 64-bit unsigned comparisons of the older generator;
- the 16-bit cells and 15-bit hash of kl.c;
- the 8-bit `char` of the externs.

C's truncating `/` and `%` are modelled explicitly (`Bits.CDiv`, `Bits.CRem`,
`Machine.TMod`).

Both generators emit the code as the source writes it, faults included.
Each fault listed under "## Findings" is shown by an as-written lemma on
that code, and a corrected shape is proved beside it. Where a lemma about
the as-written code holds only for some operands (an operand not held in
r0, say), its row says so and the excluded case has its own lemma. The
runtime's string functions are modelled both ways too; the corrected
versions are the ones the rest of the model builds on.

## Model

| member | source | states |
|---|---|---|
| Patterns.BranchForCorrect | src/gen.c:88-110 | for each of the six relations, the branch emit_branch_bool emits goes to `nonzero` exactly when the relation holds between the operand registers |
| Patterns.TruthTestRun | src/gen.c:111-115 | the truth test of any other expression reaches `nonzero` exactly when its value is non-zero and not held in r0, which the test clears first; only r0 changes |
| Patterns.TruthTestOfR0 | src/gen.c:111-115 | as written, a value in r0 (putchar's result) is cleared by the test and always goes to `zero` (finding) |
| Patterns.TruthTestFixedRun | src/gen.c:111-115 | compared against a fresh register, the test reaches `nonzero` exactly when the value is non-zero, whichever register holds it |
| Patterns.JoinRun | src/gen.c:308-320 | a branch followed by the `@iff; ret <- 0; jump end; @ift; ret <- 1; @end` join leaves `ret` set by the branch taken and exits through `@end` |
| Patterns.CompareTailRun | src/gen.c:308-390 | the relational tail of emit_binop leaves 1 exactly when the relation holds for ==, <, >, <=, >=; for != it leaves 1 exactly when the operands are equal (finding) |
| Patterns.CompareTailFixedRun | src/gen.c:322-334 | with the != branch targets swapped, all six relations leave 1 exactly when they hold |
| Patterns.NotTailRun | src/gen.c:737-752 | `!x` leaves 0 in `ret` when the value the test sees is non-zero and 1 otherwise, so for an operand not in r0 it is 1 exactly when x is zero; r0 is cleared first, so an operand in r0 counts as zero |
| Patterns.NotTailOfR0 | src/gen.c:737-752 | as written, `!putchar(c)` (putchar's value is r0) is 1 whatever putchar returned (finding) |
| Patterns.NotTailFixedRun | src/gen.c:737-752 | compared against a fresh register, `!x` is 1 exactly when x is zero, whichever register holds it |
| Patterns.BitNotTailRun | src/gen.c:753-760 | `~x` computes -1 - x for an operand not in r0; an operand in r0 reads as 1, since the code sets r0 to 1 first |
| Patterns.BitNotTailOfR0 | src/gen.c:753-760 | as written, `~putchar(c)` is -2 whatever putchar returned (finding) |
| Patterns.BitNotTailFixedRun | src/gen.c:753-760 | with the constants staged in a fresh register, `~x` is -1 - x whichever register holds x |
| Patterns.AddRIRun | src/gen.c:49-58 | emit_add_ri's register holds reg + num; only the spare register changes |
| Patterns.MulRIRun | src/gen.c:60-73 | emit_mul_ri's register holds reg * num; only the spare register changes |
| Patterns.AddrStoresRun | src/gen.c:129-141 | the words base + off + i receive registers src + i in order; only spare registers change |
| Patterns.AddrLoadsRun | src/gen.c:576-579 | registers dst + i receive the words base + off + i; memory is unchanged |
| Patterns.BaseStoresRun | src/gen.c:557-564 | for a source run not starting at r0, emit_local_store's stores put register src + i at frame word where + i; only r0 changes |
| Patterns.BaseStoresOfR0 | src/gen.c:557-564 | as written, storing putchar's value (r0) through a base register writes the word's own address into it (finding) |
| Patterns.BaseStoresFixedRun | src/gen.c:557-564 | with the address formed in a fresh register, the stores put register src + i at word base + off + i whichever registers hold the value, r0 included; only that register changes |
| Patterns.BaseLoadsRun | src/gen.c:651-661 | emit_deref's loads put word from + i in register out + i; memory unchanged |
| Patterns.ConstStoresRun | src/gen.c:142-148 | for a source run not starting at r0, stores to a global put register rhs + i at word out + offset + i; only r0 changes |
| Patterns.ConstStoresOfR0 | src/gen.c:142-148 | as written, `g = putchar(c)` writes g's own address into g (finding) |
| Patterns.ConstStoresFixedRun | src/gen.c:142-148 | with the address in a fresh register, the stores put register rhs + i at word out + offset + i whichever registers hold the value, r0 included; only that register changes |
| Patterns.ConstLoadsRun | src/gen.c:583-592 | emit_gvar's loads put word where + i in register outreg + i |
| Patterns.ArithRun | src/gen.c:249-265 | `+`, `-` and `*` compute sum, difference and product |
| Patterns.DivRun | src/gen.c:266-275 | an exact division leaves the quotient |
| Patterns.PtrOffsetRun | src/gen.c:161-168 | pointer plus or minus an integer is scaled by the pointee size |
| Patterns.PtrDiffRun | src/gen.c:169-191 | the difference of two pointers is the element count between them |
| Patterns.IpAddRun | src/gen.c:194-209 | the postfix in-place add yields the old word and stores the old value plus the scaled addend |
| Patterns.PreCallRun | src/gen.c:75-81 | word 1 becomes the caller's frame pointer plus its frame size |
| Patterns.PostCallRun | src/gen.c:83-85 | word 1 is restored to the caller's frame pointer |
| Patterns.FrameRun | src/gen.c:834-835 | a function reads its frame pointer from word 1 into r2 |
| Patterns.PokesRun | src/gen.c:795-815 | the trampoline's constant pokes write exactly the last value poked at each address; only r0 and r2 change |
| Flow.AndRun | src/gen.c:211-226 | `&&` leaves 1 exactly when both operands are true, and the right operand runs only when the left is true |
| Flow.OrRun | src/gen.c:228-243 | `\|\|` leaves 1 exactly when either operand is true, and the right operand runs only when the left is false |
| Flow.IfRun | src/gen.c:490-509 | an `if` runs exactly the arm the condition selects and continues after the statement |
| Flow.TernaryRun | src/gen.c:511-536 | `c ? a : b` leaves in its result register the value of the arm the truth test selects: the then arm exactly when the condition is non-zero and not held in r0 |
| Flow.OldLessRun | gen.c:101-113 | the older `<` compares as unsigned 64-bit words and leaves 1 exactly when the left is below the right |
| Flow.OldTernaryRun | gen.c:172-199 | as written, the result register ends up holding the else arm's register whichever arm runs (finding) |
| Flow.OldTernaryCounterexample | gen.c:186-199 | as written, `1 ? 1 : 2` ends with 0 in its result register |
| Flow.OldTernaryFixedRun | gen.c:172-199 | with the copy moved before `@end`, the result register holds the chosen arm's value |
| Flow.OldTernaryFixedExample | gen.c:186-199 | corrected, `1 ? 1 : 2` ends with 1 |
| Lower.LiteralPokes | src/gen.c:402-426 | a string literal queues its n characters and a terminator at n + 1 consecutive words |
| Lower.ParamLocalsAt | src/gen.c:836-840 | parameter i sits at the sum of the sizes of the parameters before it; other names keep their offsets |
| Lower.AssignLocalAsWrittenRun | src/gen.c:136-141 | as written, a store into a field of a local struct fills the struct's first words (the first word gets the value whenever a word is stored) and leaves the field unchanged whenever it lies outside those words (finding) |
| Lower.AssignLocalCounterexample | src/gen.c:136-141 | `x.b = 7` on `struct {int a; int b;} x` sets x.a to 7 and leaves x.b at 0 |
| Lower.AssignLocalFixedRun | src/gen.c:119-141 | with the field offset added, the field's words receive the value, whatever the offset, and the struct's first word is unchanged whenever it lies outside the field |
| Lower.AssignLocalFixedExample | src/gen.c:119-141 | with the field offset added, `x.b` becomes 7 and `x.a` stays 0 |
| Gen.ZeroPokesClear | src/gen.c:795-800 | running the clearing pokes leaves every queued word 0 |
| Gen.TrampolineDefines | src/gen.c:790-829 | the trampoline defines no local label besides those of the initializer code |
| Gen.Generator.constructor | src/gen.c:9-18 | the state before the first declaration: no output, initmem 16, frame size 0 |
| Gen.Generator.Emit | src/gen.c:23-25 | one more line of output, defining no label |
| Gen.Generator.EmitLabel | src/gen.c:45-47 | appends `@label` for a label of the current function |
| Gen.Generator.EmitAddRI | src/gen.c:49-58 | reg for 0, else a new register computing reg + num |
| Gen.Generator.EmitMulRI | src/gen.c:60-73 | reg for 1, else a new register computing reg * num |
| Gen.Generator.EmitPreCall | src/gen.c:75-81 | the three lines publishing the callee frame pointer |
| Gen.Generator.EmitPostCall | src/gen.c:83-85 | the line restoring word 1 |
| Gen.Generator.EmitAddrStores | src/gen.c:437-441 | the store loop through emit_add_ri, word i to base + off + i |
| Gen.Generator.EmitAddrLoads | src/gen.c:576-579 | the load loop through emit_add_ri, word base + off + i to register dst + i |
| Gen.Generator.EmitBaseStores | src/gen.c:559-563 | the store loop of emit_local_store |
| Gen.Generator.EmitBaseLoads | src/gen.c:655-659 | the load loop of emit_deref |
| Gen.Generator.EmitConstStores | src/gen.c:144-147 | the store loop for a global target |
| Gen.Generator.EmitConstLoads | src/gen.c:587-590 | the load loop of emit_gvar |
| Gen.Generator.EmitPokes | src/gen.c:795-815 | the trampoline's constant words, in queue order |
| Gen.Generator.QueueString | src/gen.c:402-426 | the characters up to and including the first NUL, queued at consecutive words |
| Gen.Generator.EmitLiteral | src/gen.c:402-426 | a string gets strlen + 1 fresh global words and yields their address; any other literal its value |
| Gen.Generator.EmitGvar | src/gen.c:583-592 | a new run of size registers loaded from the global's address |
| Gen.Generator.EmitOperator | src/gen.c:247-394 | as written: `,` yields the right operand; any other listed operator appends `OperatorCode` into a new register, a relation through three new labels with `!=` on the `==` branch; an operator the switch does not list is refused with no code |
| Gen.Generator.EmitCompare | src/gen.c:308-390 | as written: labels ift, iff and end, the relation's branch and the 0/1 join (`CompareTail`), `!=` using the `==` branch |
| Gen.Generator.EmitOperands | src/gen.c:245-246 | the left operand's code, then the right's |
| Gen.Generator.EmitBranchBool | src/gen.c:87-116 | a relation branches on its operands; anything else is tested against 0 |
| Gen.Generator.StripTarget | src/gen.c:119-127 | struct references stripped with their offsets summed, then conversions |
| Gen.Generator.EmitAssignTo | src/gen.c:118-153 | the value's code, then the stores `EmitStore` states for the stripped target, with the summed field offset; the result is the value's register |
| Gen.Generator.EmitStore | src/gen.c:129-148 | through a pointer: the pointer's code and the stores at its value plus the offset; into a local: the stores at its own frame offset, the field offset dropped as written; into a global: its address plus the offset; any other target refused |
| Gen.Generator.EmitPtrArith | src/gen.c:160-192 | pointer `+`/`-` with the integer scaled, and pointer difference divided by the element size |
| Gen.Generator.EmitPtrOp | src/gen.c:161-191 | the tail of pointer arithmetic once both operands are in registers |
| Gen.Generator.EmitIpAdd | src/gen.c:194-209 | the operand's address, then the in-place add code |
| Gen.Generator.EmitLogAnd | src/gen.c:211-226 | labels end, f0, t1, t2 made first; the `&&` layout, defining only fresh labels |
| Gen.Generator.EmitLogOr | src/gen.c:228-243 | labels end, f1, f2, t1 made first; the `\|\|` layout |
| Gen.Generator.EmitLogTail | src/gen.c:216-225 | the shared second half of `&&` and `\|\|` |
| Gen.Generator.EmitArith | src/gen.c:245-394 | both operands, left first, then `OperatorCode` on three new labels; the result is the right operand for `,` and the new register otherwise |
| Gen.Generator.EmitBinop | src/gen.c:159-396 | the code is `BinopCode`: pointer arithmetic, the in-place add (refused with no code unless the left operand is one word), `&&` and `\|\|` on a result register and labels taken first, else the generic operators; `,` yields the right operand |
| Gen.Generator.EmitArgs | src/gen.c:428-443 | every argument evaluated left to right, then stored word by word into the callee's frame |
| Gen.Generator.EmitArgStores | src/gen.c:433-442 | argument i's words follow those of the arguments before it |
| Gen.Generator.EmitFuncPtrCall | src/gen.c:445-460 | callee address, arguments, dcall sequence, result loaded from the returned frame |
| Gen.Generator.EmitCallSequence | src/gen.c:476-486 | pre-call, call, post-call, then the result words loaded into a new run of registers |
| Gen.Generator.EmitFuncCall | src/gen.c:462-488 | getchar and putchar as VM instructions; any other call through the call sequence |
| Gen.Generator.EmitIf | src/gen.c:490-509 | labels, condition branch, then arm, and the else arm behind a third label |
| Gen.Generator.EmitBranches | src/gen.c:494-508 | the then arm after its label, then the else half |
| Gen.Generator.EmitArm | src/gen.c:518-530 | an arm's code and the copy of its value into the result register |
| Gen.Generator.EmitElse | src/gen.c:500-508 | with an else arm, a new `end` label and `jump end; @zero; arm; @end`; without, `@zero` |
| Gen.Generator.EmitTernary | src/gen.c:511-536 | labels ez and nz, condition value, a fresh result register, truth test, the arms with their copies |
| Gen.Generator.EmitReturn | src/gen.c:538-555 | with a value, its words stored from the callee-frame start and `ret` of that address; without, `r0 <- nil; ret r0` |
| Gen.Generator.EmitLocalStore | src/gen.c:557-564 | the value's words stored at frame offset where + i |
| Gen.Generator.EmitInits | src/gen.c:569-572 | every element is an initializer and the code is `InitsCode`: each value evaluated and stored at the base plus its offset, in order |
| Gen.Generator.EmitFrameLoad | src/gen.c:574-580 | a new run of size registers loaded from the frame |
| Gen.Generator.EmitLvar | src/gen.c:566-581 | without initializers, only the loads of the variable's words from its frame offset into new registers; with them, `InitsCode` at that offset first |
| Gen.Generator.EmitDecl | src/gen.c:708-719 | without initializers, no code, the name bound to the frame size and the frame grown by the variable's size; with them, the name stays bound, the frame grows by at least that size, the binding and growth are exact when the initializers declare nothing, and the code is `InitsCode` at the old frame size |
| Gen.Generator.StripAddr | src/gen.c:595-606 | struct references, conversions and casts stripped, field offsets summed |
| Gen.Generator.EmitAddr | src/gen.c:594-634 | the address of a dereference plus the offset, or of a local, global or function |
| Gen.Generator.EmitAddrLeaf | src/gen.c:614-631 | local: offset plus r2; global: its word; function: `addr func.NAME` |
| Gen.Generator.EmitAddrDeref | src/gen.c:607-613 | the pointer's value plus the offset in a new register |
| Gen.Generator.EmitConv | src/gen.c:636-644 | an array variable converted to a pointer is its address; otherwise the operand's value |
| Gen.Generator.EmitStructRef | src/gen.c:646-649 | the structure's first register plus the field offset |
| Gen.Generator.EmitDeref | src/gen.c:651-661 | a new run of registers loaded from the pointer plus each index |
| Gen.Generator.EmitNotTail | src/gen.c:739-751 | three new labels and a new register holding the negation |
| Gen.Generator.EmitNot | src/gen.c:737-752 | the operand, then the negation tail |
| Gen.Generator.EmitBitNot | src/gen.c:753-760 | the operand, then the complement into a new register |
| Gen.Generator.EmitCompound | src/gen.c:725-730 | the output is the concatenation of the statements' codes, in order; the value is the last statement's, 0 when empty |
| Gen.Generator.EmitExpr | src/gen.c:674-787 | `Emitted`, kind by kind: the code shape and result register of each statement, access, call, operator, conversion and struct reference; shifts, function designators, definitions and bare initializers refused with no code |
| Gen.Generator.EmitAccess | src/gen.c:681-698 | addresses, dereferences, literals, global and local variables as `Emitted` states |
| Gen.Generator.EmitOperation | src/gen.c:720-760 | `?:` as `TernaryCode`, assignments ending in their target's stores, `!` and `~` ending in their tails, as `Emitted` states |
| Gen.Generator.EmitStmt | src/gen.c:676-730 | `goto` jumps to the user label; label addresses, labels, `if` (`IfCode` on two new labels), declarations (the binding and frame growth of `EmitDecl`, then `InitsCode`), `return` (`ReturnCode`) and computed goto as `Emitted` states |
| Gen.Generator.EmitInitVals | src/gen.c:801-809 | each queued global initializer evaluated and stored from its address |
| Gen.Generator.EmitEntryHead | src/gen.c:790-800 | the entry block, then the queued words cleared |
| Gen.Generator.EmitEntryTail | src/gen.c:810-829 | the string words, then the entry memory setup and the call of main |
| Gen.Generator.EmitTrampoline | src/gen.c:790-829 | the whole `_start` part of the prologue |
| Gen.Generator.EmitTrampolineRest | src/gen.c:801-829 | the trampoline after the cleared words |
| Gen.Generator.EmitFuncPrologue | src/gen.c:789-845 | the trampoline for `_start`, then the function head, parameters bound, r-counter 3 |
| Gen.Generator.EmitFuncHead | src/gen.c:830-845 | frame size 0, function head, parameters, 8 words for variadic functions |
| Gen.Generator.BindParams | src/gen.c:836-840 | each parameter bound to the frame size so far, which grows by its size |
| Gen.Generator.EmitGlobalDecl | src/gen.c:855-874 | the global bound to initmem, which moves past its size, so the global slots stay pairwise disjoint and below initmem (Allocated); its words queued for zeroing and its initializers queued at base + offset; fails exactly when an element is not an initializer |
| Gen.SlotsGrow | src/gen.c:855-858 | handing out the next slot at initmem and moving initmem past it keeps every global's slot within [FirstGlobal, initmem) and the slots pairwise disjoint, a redeclared name dropping its old slot |
| Gen.Generator.BindGlobal | src/gen.c:855-858 | the name bound to initmem, its size recorded and initmem advanced; the slots stay disjoint |
| Gen.Generator.QueueZeros | src/gen.c:860-864 | the words base .. base + size - 1 appended, in order, to the zeroing queue; all queued words stay inside allocated global memory |
| Gen.Generator.QueueInits | src/gen.c:865-871 | each initializer's value queued at base + its offset, in order; fails exactly when an element is not an initializer |
| Gen.Generator.EmitToplevel | src/gen.c:847-878 | a function's prologue, body and tail; a declaration queued |
| OldGen.HashToPercent | gen.c:36-50 | every `#` becomes `%` and nothing else changes |
| OldGen.EscapeLength | gen.c:36-50 | each `#` adds one character to the rewritten format |
| OldGen.EscapeNoHash | gen.c:36-50 | the rewritten format has no `#` |
| OldGen.EscapeRender | gen.c:32-57 | a format with no `%` prints as the format with each `#` shown as `%` |
| OldGen.EscapeFormat | gen.c:36-50 | the copy loop yields the rewritten format, or the assertion failure when it would not fit the buffer |
| OldGen.BinopTailRun | gen.c:71-120 | the operator tail leaves lhs op rhs as unsigned 64-bit words |
| OldGen.TernaryLabelsFresh | gen.c:172-199 | the three labels of the conditional are fresh where its code starts and defined nowhere inside its parts |
| OldGen.OldTernaryShape | gen.c:172-199 | the head, the then half and the else half emit_ternary appends one after the other make up `OldTernaryCode` |
| OldGen.OldGenerator.EmitLabel | gen.c:66-69 | appends the label line |
| OldGen.OldGenerator.EmitRet | gen.c:59-64 | `r0 <- uint 0; ret r0` |
| OldGen.OldGenerator.EmitLiteral | gen.c:128-133 | the literal in a fresh register |
| OldGen.OldGenerator.EmitBinop | gen.c:71-120 | both operands, then the operator tail; other operators rejected |
| OldGen.OldGenerator.EmitOperands | gen.c:73-74 | left then right operand |
| OldGen.OldGenerator.EmitOpTail | gen.c:75-118 | the operator's tail into a fresh register |
| OldGen.OldGenerator.EmitArgs | gen.c:141-151 | argument i is emitted as `OldEmitted` states from its own starting counters; its register is the i-th, the code the concatenation in order |
| OldGen.OldGenerator.EmitFuncCall | gen.c:153-165 | the arguments' code, then for a function pointer the placeholder 4984 with no call, for putchar `putchar` on the argument registers, else a call into a fresh register |
| OldGen.OldGenerator.EmitTernary | gen.c:172-199 | as written: `OldTernaryCode` into a fresh register on labels ez and nz made first and end made after the then arm, with the else copy after `@end` |
| OldGen.OldGenerator.EmitCondition | gen.c:174-178 | the condition's code followed by `ubb` on its register to ez and nz |
| OldGen.OldGenerator.EmitThenArm | gen.c:179-184 | with a then arm, `@nz`, the arm and its copy into the result register; without one, nothing |
| OldGen.OldGenerator.EmitElseArm | gen.c:185-197 | as written: with an else arm, `jump end; @ez; arm; @end; copy`; without, `@ez` |
| OldGen.OldGenerator.EmitArm | gen.c:179-184 | an arm's code and its copy into the result register |
| OldGen.OldGenerator.EmitReturn | gen.c:201-212 | the value's code and `ret`, or `r0 <- uint 0; ret r0` |
| OldGen.OldGenerator.EmitCompound | gen.c:233-236 | statement i is emitted as `OldEmitted` states from its own starting counters, the code the concatenation in order; value 0 |
| OldGen.OldGenerator.EmitExpr | gen.c:214-240 | `OldEmitted`, kind by kind: a literal in a fresh register, a local as register 1 with no code, calls, conversions, `if`/`?:` as `OldTernaryCode`, `return`, compound, the six operators; other operators refused after their operands |
| OldGen.OldGenerator.EmitFuncPrologue | gen.c:242-252 | the `@main` stub for main, then `func .NAME 256` with the counter at 1 |
| OldGen.OldGenerator.EmitToplevel | gen.c:254-270 | prologue, body and default `return 0` |
| CStrings.Strlen | rt/src/string.c:36-42 | the number of cells before the terminator |
| CStrings.Strcmp | rt/src/string.c:6-12 | the difference of the cells at the first mismatch |
| CStrings.CompareZeroIff | rt/src/string.c:6-12 | strcmp is 0 exactly when the strings are equal |
| CStrings.CompareAntisymmetric | rt/src/string.c:6-12 | swapping the arguments negates strcmp |
| CStrings.Strncmp | rt/src/string.c:14-20 | as written: the cells after the first max are compared too |
| CStrings.StrncmpPastMax | rt/src/string.c:14-20 | "ab" and "ac" with max 1 compare different (finding) |
| CStrings.StrncmpFixed | rt/src/string.c:14-20 | corrected: 0 when max is exhausted |
| CStrings.NCompareZeroIff | rt/src/string.c:14-20 | the corrected strncmp is 0 exactly when the strings agree in the first max cells |
| CStrings.Memcmp | rt/src/string.c:22-34 | -1 or 1 by the first differing byte as unsigned values, else 0 |
| CStrings.MemCompareProperties | rt/src/string.c:22-34 | 0 exactly when the bytes agree; swapping negates it |
| CStrings.Memset | rt/src/string.c:44-49 | n cells take the byte value of b; nothing else changes |
| CStrings.Memcpy | rt/src/string.c:58-65 | out[i] == in[i] for i < n; nothing else changes; dest returned |
| CStrings.Memmove | rt/src/string.c:51-56 | overlapping regions are copied correctly |
| CStrings.StrcpyAsWritten | rt/src/string.c:67-78 | as written, the copy stops after the first non-NUL cell (finding) |
| CStrings.StrcpyCopiesOneCell | rt/src/string.c:67-78 | as written, one cell of "ab" is copied |
| CStrings.Strcpy | rt/src/string.c:67-78 | corrected: the string and its terminator are copied |
| CStrings.StrcpyResult | rt/src/string.c:67-78 | dest then holds the string src held |
| CStrings.StrncpyAsWritten | rt/src/string.c:80-91 | as written, the same inverted exit test, at most n cells |
| CStrings.StrncpyCopiesOneCell | rt/src/string.c:80-91 | as written, one cell of "ab" with n 3 |
| CStrings.Strncpy | rt/src/string.c:80-91 | corrected: the string and terminator, cut after n cells |
| CStrings.StrcatAsWritten | rt/src/string.c:93-96 | as written, through strcpy's inverted exit test, one cell of src is appended over dest's terminator (finding) |
| CStrings.StrcatAppendsOneCell | rt/src/string.c:93-96 | as written, strcat of "ab" onto "x" leaves "xa" followed by the old cells |
| CStrings.Strcat | rt/src/string.c:93-96 | built on the corrected strcpy, dest then holds the concatenation and no cell outside it changes |
| CStrings.StrchrAsWritten | rt/src/string.c:98-105 | as written, tests the first cell for the end on every round |
| CStrings.StrchrPastEnd | rt/src/string.c:98-105 | as written, a match past the terminator is found, and the terminator itself is not |
| CStrings.Strchr | rt/src/string.c:98-105 | corrected: the first occurrence of c, terminator included, or null |
| CType.IsDigit | rt/src/ctype.c:310-312 | 1 exactly on '0'..'9' |
| CType.IsAlpha | rt/src/ctype.c:298-300 | non-zero exactly on letters |
| CType.IsAlnum | rt/src/ctype.c:294-296 | 1 exactly on letters and digits |
| CType.IsBlank | rt/src/ctype.c:302-304 | non-zero exactly on tab and space |
| CType.IsCntrl | rt/src/ctype.c:306-308 | non-zero exactly on 0x00-0x1F and 0x7F |
| CType.IsGraph | rt/src/ctype.c:314-316 | non-zero exactly on 0x21-0x7E |
| CType.IsLower | rt/src/ctype.c:318-320 | non-zero exactly on 'a'..'z' |
| CType.IsPrint | rt/src/ctype.c:322-324 | 1 exactly on 0x20-0x7E |
| CType.IsPunct | rt/src/ctype.c:326-328 | non-zero exactly on printing characters other than letters and digits |
| CType.IsSpace | rt/src/ctype.c:330-332 | non-zero exactly on space and 0x09-0x0D |
| CType.IsUpper | rt/src/ctype.c:334-336 | non-zero exactly on 'A'..'Z' |
| CType.IsXdigit | rt/src/ctype.c:338-342 | 1 exactly on the hexadecimal digits |
| CType.ToLower | rt/src/ctype.c:344-346 | upper case letters lowered, other characters unchanged, EOF to 0 |
| CType.ToUpper | rt/src/ctype.c:348-350 | lower case letters raised, other characters unchanged, EOF to 0 |
| CType.SecondToLowerRaises | rt/src/ctype.c:348-350 | the second tolower maps 'a' to 'A' (finding) |
| CType.CaseRoundTrip | rt/src/ctype.c:344-350 | the case mappings undo each other on letters and agree with the classes |
| CType.EofInNoClass | rt/src/ctype.c:30-31 | EOF is in no class |
| CType.GraphPartition | rt/src/ctype.c:30-288 | a printing character is exactly one of letter, digit or punctuation |
| Bits.Shl | rt/bits.c:2-8 | val times 2^bits for positive bits, val otherwise |
| Bits.Shr | rt/bits.c:10-12 | val divided by 2^bits, truncated toward zero |
| Bits.ShiftRoundTrip | rt/bits.c:2-12 | shifting a non-negative value left then right gives it back |
| Bits.BitsAsWritten | rt/bits.c:14-57 | as written, xor, or and and all return 0 (finding) |
| Bits.XorOfOneAndTwo | rt/bits.c:14-25 | xor of 1 and 2 is 3, yet the as-written test never holds |
| Bits.BitsFixed | rt/bits.c:14-57 | with the bit test corrected, the loop computes the bitwise operation |
| Bits.AdderIdentity | rt/bits.c:14-57 | xor + 2·and == a + b and or == xor + and |
| Stdarg.VaList.Start | rt/include/stdarg.h:13 | the cursor is set just past the last named parameter |
| Stdarg.VaList.Arg | rt/include/stdarg.h:10 | the value at the cursor; the cursor moves by the argument's size |
| Stdarg.VaList.CopyFrom | rt/include/stdarg.h:11 | the cursor is copied |
| Stdarg.VaList.End | rt/include/stdarg.h:14 | evaluates to 1 and changes nothing |
| Stdio.DigitsValue | rt/src/stdio.c:8-13 | reading back the printed digits gives the number |
| Stdio.PlainFormat | rt/src/stdio.c:35-54 | a format without `%` prints verbatim and consumes no argument |
| Stdio.Console.Putui | rt/src/stdio.c:8-13 | appends the decimal digits of n |
| Stdio.Console.Putsi | rt/src/stdio.c:15-22 | appends a minus sign for negatives, then the digits of the magnitude |
| Stdio.Console.Puts | rt/src/stdio.c:24-33 | appends every character before the terminator |
| Stdio.Console.Printf | rt/src/stdio.c:35-54 | appends the formatted output: `%d`/`%i` signed, `%s` strings, other conversions '?'; returns 0 |
| Stdio.Console.PrintfConversion | rt/src/stdio.c:38-50 | one conversion after `%` |
| Blocks.StartsDisjoint | rt/start.c:7-11 | bump allocations of non-negative sizes are ordered and disjoint |
| TinyAlloc.Heap.Init | rt/src/ta.c:11-13 | the head is set to the heap base |
| TinyAlloc.Heap.MemClear | rt/src/ta.c:17-21 | num cells from p become 0; nothing else changes |
| TinyAlloc.Heap.IntMalloc | rt/src/ta.c:23-28 | the block at the head, cleared; the head moves past it |
| TinyAlloc.Heap.IntCalloc | rt/src/ta.c:30-32 | int_malloc of num * size |
| TinyAlloc.Heap.Malloc | rt/src/ta.c:39-43 | num cleared cells after a header holding num |
| TinyAlloc.Heap.Calloc | rt/src/ta.c:45-50 | malloc of num * size, header holding the product |
| TinyAlloc.Heap.Realloc | rt/src/ta.c:52-60 | a fresh block holding the lesser of num and the old size copied, the rest 0 |
| TinyAlloc.MallocsDisjoint | rt/src/ta.c:23-43 | successive mallocs return disjoint blocks above the starting head |
| Bump.Runtime.Malloc | rt/start.c:7-11 | the stored address is returned and moves on by size |
| Bump.Runtime.Start | rt/start.c:18-21 | the bump pointer starts at the word after MEM_START |
| Bump.AllocationsDisjoint | rt/start.c:7-21 | allocations after _start increase and do not overlap |
| Bump.NegativeSizeOverlaps | rt/start.c:7-11 | a negative size makes the next block overlap the last |
| Externs.ExternStrlen | src/externs.c:7-15 | the index of the first zero word |
| Externs.ToString | src/externs.c:17-24 | a zeroed buffer of max + 1 chars, the first max set from the words |
| Externs.AsciiRoundTrip | src/externs.c:17-24 | ASCII words survive the conversion |
| Externs.MultipleOf256CutsShort | src/externs.c:17-24 | a word that is a non-zero multiple of 256 ends the C string early |
| Externs.ToColor | src/externs.c:26-34 | red, green, blue and alpha from four words |
| Externs.ColorRoundTrip | src/externs.c:26-34 | reading back the words of a colour gives the colour |
| Externs.ToV2 | src/externs.c:36-41 | x and y from two words |
| Externs.V2RoundTrip | src/externs.c:36-41 | reading back the words of a vector gives the vector, and the words read are the vector's words, with the float fields kept as words |
| Externs.WordBytes | src/externs.c:100-109 | the host allocation holds exactly n words |
| Driver.FileType | src/main.c:35-41 | the index of the last '.' at index 1 or more, or 0 |
| Driver.ExtOfDotted | src/main.c:35-41 | a name ending in a dot-free extension has that extension |
| Driver.OutputTypeByExtension | src/main.c:77-91 | `.vasm` assembly, `.bc` bytecode, `.js`/`.ts` JavaScript, anything else refused |
| Driver.StandardStreamsAreAsm | src/main.c:80-81 | /dev/stdout and /dev/stderr are written as assembly |
| Driver.PlainArguments | src/main.c:100-102 | non-option arguments are the inputs, in order |
| Driver.TrailingRuntimeFlag | src/main.c:54-56 | `-r` last reads the null entry: the runtime is dropped |
| Driver.RuntimeFilesCompiled | src/main.c:116-124 | every runtime file is classified as a C source |
| Driver.StartCompiledLast | src/main.c:116-124 | the runtime's files follow the given inputs, start.c last |
| Driver.Main.ParseOpt | src/main.c:43-105 | the options and exit status the argument loop ends with |
| Driver.Main.AddRuntime | src/main.c:116-124 | the runtime files appended when a runtime directory is set |
| Driver.Dispatch | src/main.c:125-158 | assembly files and sources in order, or the exit at the first unknown input |
| KlNum.PutWord | test/kl.c:318-321 | the low and high byte of w at i and i + 1; reading back gives w masked |
| KlNum.Ntoa | test/kl.c:278-290 | the digits of n, written backwards before the terminator; "0" for 0 |
| KlNum.Aton | test/kl.c:861-876 | the value of a digit string, or overflow once it would exceed FIXLIM |
| KlNum.AtonDigits | test/kl.c:861-876 | a digit string is accepted exactly when its value is at most FIXLIM |
| KlNum.NtoaAtonRoundTrip | test/kl.c:278-290 | printing a fixnum and reading it back gives it again |
| KlNum.AtonOverflow | test/kl.c:861-876 | FIXLIM + 1 is refused |
| KlFix.Add1 | test/kl.c:1281-1289 | the successor, or overflow at FIXLIM |
| KlFix.Sub1 | test/kl.c:1291-1299 | the predecessor, or an error at 0 |
| KlFix.Add1Sub1 | test/kl.c:1281-1299 | add1 and sub1 undo each other |
| KlFix.Plus | test/kl.c:1301-1313 | the fold of plus over the arguments |
| KlFix.PlusMeaning | test/kl.c:1301-1313 | plus succeeds exactly when the sum is at most FIXLIM, and yields the sum |
| KlFix.Times | test/kl.c:1315-1327 | the fold of times over the arguments |
| KlFix.TimesMeaning | test/kl.c:1315-1327 | times succeeds exactly when no partial product exceeds FIXLIM, and yields the product |
| KlFix.Difference | test/kl.c:1329-1342 | the first argument less the rest, or underflow |
| KlFix.DifferenceMeaning | test/kl.c:1329-1342 | difference succeeds exactly when the first is at least the sum of the rest |
| KlFix.Divide | test/kl.c:1344-1351 | the truncated quotient, or an error for a zero divisor |
| KlFix.Rem | test/kl.c:1353-1360 | the remainder, or an error for a zero divisor |
| KlFix.DivideRem | test/kl.c:1344-1360 | quotient times divisor plus remainder is the dividend, the remainder below the divisor |
| KlFix.Chain | test/kl.c:1362-1430 | eqv, lessp, greaterp, not_lessp and not_greaterp as a fold over adjacent pairs |
| KlFix.ChainMeaning | test/kl.c:1362-1430 | a comparison is t exactly when every adjacent pair is related |
| KlSym.Strsym | test/kl.c:597-612 | NIL for the empty name, else the two-characters-per-cell packing |
| KlSym.UnpackPack | test/kl.c:597-628 | unpacking the packed cells gives the name, padded by one 0 when odd |
| KlSym.NameRoundTrip | test/kl.c:597-628 | symstr(strsym(s)) == s for non-empty ASCII names of at most SYMLEN characters |
| KlSym.Hash | test/kl.c:672-679 | the 15-bit hash code modulo the table length, always a slot index |
| KlSym.AddThenLookup | test/kl.c:681-705 | after htadd the name finds the added symbol; other names find what they found before |
| KlSym.Table.constructor | test/kl.c:656-664 | an empty table of n buckets |
| KlSym.Table.HtAdd | test/kl.c:697-705 | the symbol in front of its bucket; the count up by one |
| KlSym.Table.HtLookup | test/kl.c:681-695 | the first symbol of the name's bucket with the same name, or NIL |
| KlHeap.FreeListAfterCons | test/kl.c:462-478 | after taking the free list's first cell, the free list is the rest |
| KlHeap.SweptComplete | test/kl.c:428-444 | every unmarked cell from LOWCORE is swept |
| KlHeap.Heap.Nrev | test/kl.c:570-581 | the list reversed in place through its cdr links only; the old last cell returned |
| KlHeap.Heap.Cons3 | test/kl.c:462-478 | the free list's first cell gets a, d and t; the free list moves on |
| KlHeap.Heap.Sweep | test/kl.c:428-444 | every unmarked cell from LOWCORE linked into the new free list, highest first; marks cleared; other links kept |
| KlHeap.Heap.Symstr | test/kl.c:614-628 | the name cells' characters, two per cell, then a terminator |

## Left out

- The front end (lexer, preprocessor, parser and types) is not part of this model. The generator receives an abstract syntax tree (`Ast`).
- Floating-point types and `emit_conv_type` (src/gen.c:41-43) are not modelled. Conversions are identities on words.
- `OP_SAL`/`OP_SAR` and the bitwise operators reach the VM's own `shl`, `shr`, `xor`, `or` and `and`. Their run lemmas are not stated.
- `Patterns.DivRun`: states the quotient only for exact division. Only the instructions the generator emits have semantics.
- The output buffer, `emit_end` and the text rendering of instructions are not modelled. Instructions are a datatype.
- `make_label`, `format` and the map and vector helpers are modelled as values. Their implementation is not part of this model.
- MiniVM's assembler, JIT and JavaScript back end (called from src/main.c:159-188) are not modelled. Neither are file I/O, `-v`, `usage` and the `error` exits.
- `Driver.Dispatch` returns the kinds of the inputs, not the generated text.
- main pushes `rt/src/start.c`, while the repository's file is rt/start.c. The model keeps the name as written.
- Gen.Generator.EmitDecl: with initializers, the name's exact slot and the exact frame growth are promised only when the initializers' code declares nothing (a ghost count of declarations says so). An initializer may hold a statement that declares, and may rebind the same name, so otherwise the contract gives only that the name stays bound and the frame grows by at least the variable's size. The `Decl` case of `Emitted` states the same.
- Gen.Generator.EmitExpr: inside `Emitted` the code of operands, arguments and arms is only known to exist. It is not tied to each operand's own `Emitted`, because an operand starts from a generator state the contract does not expose. A computed goto is stated as the operand's code followed by `jump`.
- Gen.Generator.EmitCompound: the pieces `Ss[i]` are not tied to each statement's `Emitted`, for the same reason. The compound case of `Emitted` states only the empty statement list.
- Gen.Generator.EmitArgs: refuses more than 16 arguments. src/gen.c:429-432 has no check and writes past its 16-element `buf`, which C leaves undefined.
- OldGen.OldGenerator.EmitFuncCall: putchar yields `Success(0)`. gen.c:158-160 falls off the end of the function there, so the value the caller receives is undefined in C.
- OldGen.OldGenerator.EmitExpr: inside `OldEmitted` the code of operands and arms is only known to exist. `EmitArgs` and `EmitCompound` tie each argument and statement to its own `OldEmitted`, but `OldEmitted` does not repeat that for a call or a compound nested inside an expression.
- OldGen.OldGenerator.EmitExpr: a kind the switch does not list goes to emit_binop in gen.c:238-239, which reads the operands of a node that has none. The model refuses such a node with no code.
- `Stdio.Console.Putchar`: putchar is an instruction of the VM, recorded as an appended character.
- `Stdio.Console.Printf`: requires a format that stays in memory and strings that are terminated. The source does not check either.
- `CStrings.Memset`: does not model the missing return statement. The value the caller receives is undefined in C.
- `CStrings.Memmove`: requires n ≤ 4096, the size of the temporary buffer. Beyond it the source overflows its stack array.
- `CStrings.Strncpy`: does not pad with NULs after the terminator, and neither does the source.
- `CType.ToLower`: the two definitions of tolower in one file do not link in C. Both are modelled, the second as `CType.ToUpper`.
- `TinyAlloc.Heap.IntMalloc`: requires the block to fit in `ta_mem`. The source does not check, and writes past the array.
- TinyAlloc counts `sizeof(size_t)` as one cell. Its blocks are measured in cells, not bytes.
- `free` in ta.c and start.c does nothing, so it is modelled without a contract.
- `Externs.ToColor`/`ToV2`: the float fields are kept as the words. The raylib wrappers and `VMMalloc`/`VMRealloc` themselves call the host and are left out.
- The `uint8_t` casts in memset and memcmp are modelled as `% 256` on word values.
- The mark phase of gc, eval, the reader and the printer of test/kl.c are not modelled.
- The vector pool (gcv, newvec) of test/kl.c is not modelled.
- `KlHeap.Heap.Cons3`: requires a non-empty free list and Debug_GC off. The gc call and "out of nodes" are left out.
- `KlSym.Strsym`: returns the packed cell values. Allocating their cells through cons3 is left out.
- KlFix works on fixnums given as sequences of values, not as the cells of a Lisp list.
- `KlFix.Difference`/`KlFix.Chain`: require at least one argument. The interpreter's argument-count check runs before them.
- `KlSym.Table.HtLookup`: copies the name with a working strncpy. With the runtime's as-written strncpy the copy would be one cell long.
- The `>>` on cells in kl.c is modelled as division, which it is for the non-negative cell values.
- Arithmetic is on unbounded integers except where the width is written out (see the introduction).

## Findings

| source | as written | input that shows it | evidently intended | confidence | as-written member | corrected member |
|---|---|---|---|---|---|---|
| src/gen.c:322-334 | `!=` branches `beq l r iff ift`, so equal operands reach the `ret <- 1` arm | `1 != 1` yields 1 | 1 exactly when the operands differ | high, not executed | Patterns.CompareTailRun | Patterns.CompareTailFixedRun |
| gen.c:186-199 | the else arm's copy `out <- reg r` comes after `@end`, where the then path also runs it | `1 ? 1 : 2` yields 0 | the copy before `@end` | high, not executed | Flow.OldTernaryCounterexample | Flow.OldTernaryFixedRun |
| src/gen.c:136-141 | a local target ignores the field offset gathered at 119-124 | `x.b = 7` writes x.a | store at `out + i + offset`, as for globals | high, not executed | Lower.AssignLocalCounterexample | Lower.AssignLocalFixedExample |
| rt/src/string.c:14-20 | after `max` reaches 0 the cells at offset max are still compared | strncmp("ab", "ac", 1) ≠ 0 | 0 when the first max cells agree | high, not executed | CStrings.StrncmpPastMax | CStrings.NCompareZeroIff |
| rt/src/string.c:67-78 | the loop breaks when the copied cell is NOT NUL | strcpy of "ab" copies one cell | copy up to and including the terminator | high, not executed | CStrings.StrcpyCopiesOneCell | CStrings.StrcpyResult |
| rt/src/string.c:80-91 | the same inverted exit test as strcpy | strncpy of "ab" with n 3 copies one cell | copy up to the terminator, at most n cells | high, not executed | CStrings.StrncpyCopiesOneCell | CStrings.Strncpy |
| rt/src/string.c:93-96 | strcat copies with the as-written strcpy, which stops after the first non-NUL cell | strcat of "ab" onto "x" leaves "xa" followed by the old cells | append all of src and its terminator | high, not executed | CStrings.StrcatAppendsOneCell | CStrings.Strcat |
| rt/src/string.c:98-105 | the loop tests `*str`, the first cell, instead of `str[i]` | strchr on "a" followed by 'b' finds the 'b'; strchr("", 0) is null | scan up to and including the terminator | high, not executed | CStrings.StrchrPastEnd | CStrings.Strchr |
| rt/bits.c:14-57 | the test `lhs % bit > nextbit` never holds | xor(1, 2) yields 0 | test bit `bit` of each operand | high, not executed | Bits.XorOfOneAndTwo | Bits.BitsFixed |
| rt/src/ctype.c:348-350 | a second `tolower` returns the `.upper` field | tolower('a') would be 'A' | a `toupper` | medium, not executed | CType.SecondToLowerRaises | CType.CaseRoundTrip |
| src/gen.c:111-115 | the truth test writes `r0 <- int 0` and then compares the tested register with r0; putchar's value is register r0 (src/gen.c:467-471) | `if (putchar('a'))` never takes the then arm | compare against a register other than the one tested | medium, not executed | Patterns.TruthTestOfR0 | Patterns.TruthTestFixedRun |
| src/gen.c:737-752 | `!` writes `r0 <- int 0` and then compares the operand register with r0; putchar's value is register r0 (src/gen.c:467-471) | `!putchar('a')` is 1 | compare against a register other than the operand's | medium, not executed | Patterns.NotTailOfR0 | Patterns.NotTailFixedRun |
| src/gen.c:753-760 | `~` writes `r0 <- int 1` and then adds the operand register to r0 | `~putchar('a')` is -2 | stage the constants in a register other than the operand's | medium, not executed | Patterns.BitNotTailOfR0 | Patterns.BitNotTailFixedRun |
| src/gen.c:557-564 | each frame store forms its address in r0 and then stores r0's source register; the same loop stores a return value (src/gen.c:545-548) | `int x = putchar('a');` leaves x holding its own address | form the address in a register outside the source run | medium, not executed | Patterns.BaseStoresOfR0 | Patterns.BaseStoresFixedRun |
| src/gen.c:142-148 | each global store loads the address into r0 and then stores r0's source register | `g = putchar('a');` leaves g holding its own address | load the address into a register outside the source run | medium, not executed | Patterns.ConstStoresOfR0 | Patterns.ConstStoresFixedRun |
