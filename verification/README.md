# A verified model of the Lisp machine

These Dafny modules model the parts of a small bare-metal Lisp system that are hardest to get right, and prove what
each of them is for:

- the **cycle collector** (trial deletion over packed reference counts) frees exactly the registered garbage, cycles
  included, and leaves every surviving count exact;
- the **expression compiler**, its **assembler** and the **virtual machine** agree: the text that the compiler prints,
  assembled and run, returns the meaning of the source, calls and recursion included;
- the **AVL tree** with packed parent words keeps order, balance and links through any sequence of changes, in the
  memory of the nodes themselves;
- the **allocator** on that tree tiles the heap and joins free blocks over every run;
- the two-ring **interrupt queue** delivers what was added, in order, wherever interrupts fall between the steps of a pop;
- the two **evaluators**, recursive and with explicit frames, agree in both directions;
- the **bignums** compute sums, products, comparisons and their hexadecimal texts, with the exact condition for each
  operation that is not right on all inputs.

Code that changes things step by step is modelled by methods on classes and arrays, each proved against a function or
predicate on values; the theorems about runs are about those functions. What the functions at the bottom compute is
stated a second time without naming them: in numbers and bits (Arithmetic, PackedWords, Numerals), in the contents of
objects (Bodies), in characters and literal words (CompilerText, OpcodeTexts, LetterCase), in values and name spaces
(SourceMeaning, LispMeaning), and in sizes and counts of words (HeapBlocks). Source lines are those of the files in the
root of the repository, and of `x86_64/` for the compiler, the assembler and the machine.

| part | modules |
|---|---|
| collector | Refcount, RefGraph, TrialDeletion, CollectorTheory, CollectorExactness, CollectorTypes, Bodies, Collector |
| words | Words, Bits, Numerals, Traces, Arithmetic, PackedWords |
| compiler | Machine, Instructions, ControlFlow, Source, SourceMeaning, Compiler, CompilerCorrectness, CompilerTheorem, WholeProgram, FunctionTables |
| assembler and machine | Encoding, Masks, VirtualMachine, Scanner, LetterCase, Assembler, AssemblerTheory, AssemblerTexts, OpcodeTexts, ProgramText, CompilerText |
| tree and allocator | AvlTrees, AvlMemory, AvlSearch, AvlBalance, AvlStore, AvlSets, FreeList, HeapBlocks, Allocator |
| queue | Rings, ConcurrentFifo, RingBuffers |
| evaluators | Lisp, LispMeaning, LispMachine, LispEquivalence, LispInterpreter |
| bignums | WordSeqs, Bignums, BignumProducts, BignumMultiply, BignumTexts, BignumDigits |

`dafny verify dfyconfig.toml` checks the whole project.

## Model

| member | source | states |
|---|---|---|
| Refcount.GiveUpCell | alloc.c:373-378 | `--o->refcount` on the packed word: what it does to count, temporary count and mark, borrow included; it touches only the real count if and only if that count is positive |
| Refcount.CountUpCell | datastructures.c:20-37 | `++refcount` on the packed word, and where a full count carries |
| Refcount.CountAgainCell | alloc.c:34-38 | one visit more on a marked object adds 1 to the temporary count and nothing else, except that a full one spills into the mark |
| Refcount.ClearedWord | alloc.c:34-51 | clearing mark and temporary count restores the whole word bit for bit, whatever marking had put there, provided that the real count stands |
| PackedWords.FieldBits | alloc.c:15-44 | `get_rc`, `get_tmp_rc` and `visited` read bits 0 to 31, 32 to 62 and 63 of the word, and no others |
| PackedWords.SetTmpRcBits | alloc.c:34-38 | bit by bit, what `set_tmp_rc` leaves for any count: bits 32 to 62 are those of the count, whose bit 31 can only set the mark, and the rest is as before |
| PackedWords.SetVisitedBits | alloc.c:47-51 | `set_visited` replaces bit 63 and leaves every other bit |
| CollectorTheory.MarkExact | alloc.c:328-370 | marking from a live root visits and queues exactly the objects of its closure, and leaves in each temporary count the number of references from inside the closure; everything else is unchanged |
| CollectorTheory.DrainExact | alloc.c:472-478 | draining the queue unmarks exactly what a held object of the closure reaches, in whatever order the queue was filled |
| CollectorExactness.HeldIsFromOutside | alloc.c:474-478 | the test `tmp_rc < rc` selects exactly the closure objects that something outside the closure refers to |
| CollectorExactness.SweepExact | alloc.c:381-429 | sweep gathers exactly the still marked part of the closure and takes exactly the references that those objects hold out of the counts, each once |
| CollectorExactness.RootExact | alloc.c:315-429 | mark, drain and sweep from one live root add to `refuse` exactly the closure objects that no closure object held from outside reaches, and leave the exact counts and marks behind |
| CollectorExactness.RootBalanced | alloc.c:466-480 | each round of the root loop, from any root, keeps every count equal to external references plus references from objects not swept |
| CollectorExactness.SweptRootSkipped | alloc.c:466-471 | a registered object that an earlier root of the same pass swept changes nothing when its turn comes |
| CollectorExactness.PassExact | alloc.c:455-480 | over any order of the registered objects, one pass sweeps exactly the objects that no anchor reaches (an anchor is externally referenced, or beyond the reach of every registered object); survivors end unmarked with external references plus references from survivors as their count, swept objects with count 0 |
| CollectorExactness.PassSafe | alloc.c:455-480 | nothing reachable from an externally referenced object is swept |
| CollectorExactness.PassCollectsAllGarbage | alloc.c:455-480 | if the registered objects reach every externally unreachable object, one pass sweeps exactly the externally unreachable objects |
| CollectorTypes.SameAnchors | alloc.c:482-493 | the counts that objects put on their types keep nothing alive beyond what the program holds |
| CollectorTypes.TypesHeld | alloc.c:482-493 | when the type of a swept object gives up a reference it is itself not swept and its count stays positive, in whatever order the swept objects are freed |
| CollectorTypes.ReleasedBalanced | alloc.c:482-493 | after the free loop, with every swept object's type reference given up, the smaller heap is in balance again |
| CollectorTypes.NewBalanced | datastructures.c:20-37 | an object of a type that the program holds, added to a heap in balance with the type's count raised, leaves it in balance |
| CollectorTypes.AppendBalanced | datastructures.c:58-64 | one more reference from one object to another, counted once, keeps the balance |
| Collector.DoomedRoot | alloc.c:396-429 | if trial deletion from a root sweeps anything at all, it sweeps the root |
| Bodies.FollowsWhatIsHeld | alloc.c:315-361 | the references that are followed from an object are those it holds, each as often as it holds it: none for an atom, its contents for a cell, a function or a subarray, the one subarray for an array, every word of its tree for a set |
| Bodies.ReachIsClosure | alloc.c:315-361 | reachability in the graph of the collector is the least set of objects that has the starting ones and whatever a member refers to in its contents, subarray or set |
| Bodies.OneOutcome | alloc.c:455-496 | what survives a collection is determined by the objects, the program's references and the registered objects |
| Bodies.ArrayCycle | alloc.c:358-360 | a registered cycle through an array and its subarray that the program does not refer to does not survive |
| Collector.Heap.CountsAre | alloc.c:15-18 | between calls the real count of an object is the number of the program's references, plus the number of places in all objects that hold it, plus the number of objects of which it is the type; the rest of its word is clear |
| Collector.Heap.constructor | alloc.c:80-111 | an empty heap meets the invariant with no program references |
| Collector.Heap.NewObject | datastructures.c:20-37 | the heap has one object more, empty and not registered, its type counts one reference more, and the invariant holds for the same program references |
| Collector.Heap.GcAdd | alloc.c:181-188 | the object is registered; refused, with nothing changed, exactly when it was registered already |
| Collector.Heap.AppendRef | datastructures.c:58-64 | the contents grow by exactly one reference and the invariant is kept |
| Collector.Heap.MarkTcRec | alloc.c:328-361 | the recursive walk in place, marking or unmarking, leaves the cells and the queue that the abstract walk from one object does |
| Collector.Heap.MarkTcTr | alloc.c:315-325 | the same for the members of a set, in the order of the walk over its tree |
| Collector.Heap.MarkTc | alloc.c:364-370 | marking a root also takes back the root's own visit; with the condition off it only unmarks |
| Collector.Heap.SweepObj | alloc.c:396-429 | refuse and counts as the sweep of one root makes them; the result is non-zero exactly when refuse has grown |
| Collector.Heap.SweepTr | alloc.c:381-393 | the same for the members of a set |
| Collector.Heap.CollectFrom | alloc.c:472-479 | mark, drain and sweep in place make the state that RootExact speaks about |
| Collector.Heap.CollectRoots | alloc.c:466-480 | the root loop in place makes the state that PassExact speaks about |
| Collector.Heap.ReleaseType | datastructures.c:159-166 | `object_delete` on a type whose count stays positive lowers that count by one and does nothing else |
| Collector.Heap.FreeRefuse | alloc.c:482-493 | the free loop, in any order: exactly the swept objects leave the heap and the registered set, and each type loses exactly its swept objects' references |
| Collector.Heap.GcCollect | alloc.c:455-496 | after a collection the objects are exactly the Survivors, stated on contents, subarrays and sets: the closure of the objects that the program refers to and of those that nothing registered leads to; each survivor stays with its old contents and type, what it refers to is null or a survivor, the registered set is cut down accordingly, and the invariant holds for the same program references |
| Collector.Heap.GcDelObj | alloc.c:499-532 | takes exactly what that one object leads to, but for what the program or an object outside leads to, stated on contents, subarrays and sets; the result is non-zero exactly when the object itself has gone, and nothing happens for an object that is not registered |
| CompilerTheorem.ExprCorrect | x86_64/compile.py:194-204 | the code of any expression, run with enough stack, goes from its first word to just past its last with the source value in r1d, the final environment in its slots, and r0, fp, sp, bp, lr and the memory outside the slots in use as before |
| CompilerTheorem.PrimCorrect | x86_64/compile.py:207-218 | the operators: left operand first, saved r0 restored, the result of the machine's operation on the two values |
| CompilerTheorem.GtCorrect | x86_64/compile.py:57-69 | `>`: right operand first, and the sign bit of right minus left |
| CompilerTheorem.LetCorrect | x86_64/compile.py:126-138 | `let`: each name has a slot above the last, visible in its own initialiser, and the body runs in the extended environment |
| CompilerTheorem.AssignCorrect | x86_64/compile.py:139-143 | `set`: the value goes into the variable's own slot and no other |
| CompilerTheorem.IfCorrect | x86_64/compile.py:144-152 | `if`: the relative jumps, made from newline counts, land on the branch that the low bit of the condition selects and then on the end |
| CompilerTheorem.LoopCorrect | x86_64/compile.py:153-164 | `loop`: the backward jump lands on the condition, as often as the source repeats the body, and the exit on the end |
| CompilerTheorem.SeqCorrect | x86_64/compile.py:134-137 | a sequence of expressions: the accumulator and the environment pass from each to the next |
| CompilerTheorem.ArgsCorrect | x86_64/compile.py:177-183 | arguments: left to right, each into the next slot above the caller's, with the earlier ones kept |
| CompilerTheorem.CallCorrect | x86_64/compile.py:176-191 | a call of any function, recursion included, resumes just after the call sequence with the callee's value in r1d, the other registers as before and the caller's slots kept |
| Source.GreaterIsSigned | x86_64/compile.py:65-67 | the value of `>` is the signed comparison if and only if the difference of the operands is in the signed range |
| Source.GreaterOverflows | x86_64/compile.py:65-67 | an input where it is not: 2^63 as a signed word is below 1, and `>` calls it greater |
| SourceMeaning.PrimMeans | x86_64/compile.py:207-218 | an operation has a value exactly when its operands, left before right, have, and C defines it on them; the value is then what Computes says of the two numbers |
| SourceMeaning.GtMeans | x86_64/compile.py:57-69 | `>` evaluates its right operand first and is the highest bit of the word of right minus left |
| SourceMeaning.IfMeans | x86_64/compile.py:144-152 | the lowest bit of the condition chooses the branch, which finds 0 or 1 in the accumulator |
| SourceMeaning.LoopMeans | x86_64/compile.py:153-164 | a loop whose condition has lowest bit 0 leaves 1; otherwise it is its body and then the same loop |
| SourceMeaning.CallMeans | x86_64/compile.py:176-191 | with as many arguments as parameters, the body is evaluated with each parameter bound to its own argument and nothing else in scope; otherwise the call has no meaning |
| SourceMeaning.Operations | x86_64/asm.c:402-417 | programs with their values: 6 by 7, 7 by -2 rounded towards zero, 7 minus 2 |
| SourceMeaning.Choices | x86_64/compile.py:144-152 | programs with their values: comparison both ways, and a condition that is odd or even |
| SourceMeaning.Hiding | x86_64/compile.py:126-138 | a program in which an inner variable hides an outer one of the same name, and the outer one keeps its value |
| SourceMeaning.Calls | x86_64/compile.py:176-191 | a program that calls a function of two parameters with its arguments in order |
| FunctionTables.LastDefinition | x86_64/compile.py:86-116 | the code at a label is that of the definition of it that the compiler finished last |
| FunctionTables.FirstMet | x86_64/compile.py:86-116 | labels stand in the order in which the compiler first met them |
| FunctionTables.ConditionLast | x86_64/compile.py:144-152 | a program with definitions in all three parts of an `if`: that in the condition comes last |
| FunctionTables.InnerSecond | x86_64/compile.py:86-116 | a program that redefines a function with another one inside it: the place of the first definition, the code of the second |
| WholeProgram.RecordValid | x86_64/compile.py:107-116 | whatever order functions are defined and redefined in, the table of labels has each label once, with the code of its last definition |
| WholeProgram.BuildWorld | x86_64/compile.py:221-234 | in an assembled program every function's code, the main code and the stack stand where their labels say |
| WholeProgram.PrologueRuns | x86_64/compile.py:223 | the prologue sets bp, sp, fp and lr to base, stack, stack and the word after the jump, and goes to the main code |
| WholeProgram.EpilogueHalts | x86_64/compile.py:223-228 | the main code's return ends the machine with r1d untouched |
| WholeProgram.ProgramCorrect | x86_64/compile.py:221-234 | a program that is accepted and whose meaning is a value halts with that value in r1d, given the stack it needs |
| Encoding.DecodeEncode | x86_64/asm.c:371-391 | `run` unpacks from a packed word the opcode, registers and sign-extended immediate that were packed, for all opcodes and both argument forms |
| Encoding.EncodeDecode | x86_64/asm.c:371-391 | every word that decodes is the packing of what it decodes to, up to the unused low bits of the register form |
| Encoding.RunsRefines | x86_64/asm.c:365-464 | every run over decoded instructions is a run over the words in memory |
| Encoding.LoopHalts | x86_64/asm.c:365-464 | a run to a halted state is one that the loop completes, for every bound on its iterations from some number on |
| VirtualMachine.Unpack | x86_64/asm.c:371-391 | the decoder in place, with its masks and shifts: opcode field, flag, sign extension of the immediate into the secret register, and the loop over the register fields from the last one on; what it leaves is what decoding says |
| VirtualMachine.DecodedIs | x86_64/asm.c:371-379 | the opcode mask, the flag bit and `get_flx_op_mask` select exactly the fields that packing fills |
| Masks.FieldMask | x86_64/asm.c:88-90 | a mask of k bits that starts at bit j selects exactly the field there, for all j and k |
| Masks.SignExtension | x86_64/asm.c:379-381 | or with the shifted mask puts ones above an immediate: the word of its negative value |
| Arithmetic.AluComputes | x86_64/asm.c:402-443 | each operation is defined exactly where C defines it, and leaves: the word of the sum, the difference, the signed or unsigned product; the quotient of a division with a remainder of the sign of the dividend; each bit from the two bits; the product with or the quotient by a power of two |
| Arithmetic.OneResult | x86_64/asm.c:402-443 | that determines the result |
| Arithmetic.Products | x86_64/asm.c:405-410 | a signed product in range is the product of the signed readings, an unsigned one in range that of the words |
| Arithmetic.ArithmeticStep | x86_64/asm.c:395-449 | an arithmetic instruction puts its result into its first register and the remainder of a division into r29, goes on by one, and changes nothing else; it is refused exactly where C leaves it undefined |
| Arithmetic.LoadStep | x86_64/asm.c:444-446 | `ldr` reads the word at the sum of its operands, as byte addresses wrap |
| Arithmetic.StoreStep | x86_64/asm.c:447-449 | `str` writes its first register there and nothing else |
| Arithmetic.ExchangeStep | x86_64/asm.c:396-398 | `acx` replaces the word if it is the expected one, and leaves what was there in its second register |
| Arithmetic.JumpStep | x86_64/asm.c:450-455 | `jnc` goes to the sum of its last operands unless its first register is zero, and then to the next word |
| Arithmetic.RunningIs | x86_64/asm.c:365 | the machine runs while the highest bit of r31 is set |
| VirtualMachine.Iterate | x86_64/asm.c:365-464 | one turn of the loop, on arrays of registers and memory, is one step of the word machine; it is refused exactly where the C code's behaviour is undefined |
| VirtualMachine.Run | x86_64/asm.c:355-466 | `run`, on memory in place, returns r1d of the final state exactly when the machine halts within the bound |
| VirtualMachine.CompiledProgramReturns | x86_64/asm.c:355-466 | a compiled program's words, loaded with enough stack behind them, make `run` return the meaning of the source |
| Scanner.IgnoreWhitespace | x86_64/asm.c:119-130 | stops at the next token or the end, having passed whitespace only |
| Scanner.ExpectWhitespace | x86_64/asm.c:133-145 | fails, without moving, exactly where no whitespace stands |
| Scanner.ExpectStr | x86_64/asm.c:165-174 | succeeds exactly when the text goes on with the string |
| Scanner.ExpectHex | x86_64/asm.c:177-204 | reads at most 16 digits; succeeds exactly when there is one and their value is within the limit, and then returns that value; on failure the position is as before |
| LetterCase.DigitPlace | x86_64/asm.c:182-191 | the characters read as digits are exactly those of 0123456789abcdef and 0123456789ABCDEF, each with the value of its place |
| LetterCase.NumberIs | x86_64/asm.c:177-204 | a token is read as a number if and only if it is 1 to 16 such digits and the sum of the digits times their powers of 16 is within the limit |
| LetterCase.RegisterIs | x86_64/asm.c:265-295 | a register is the letter r and a number up to 31 |
| LetterCase.ImmediateIs | x86_64/asm.c:278-290 | an immediate is a number below 2^45, or a minus sign and such a number |
| LetterCase.CaseDoesNotMatter | x86_64/asm.c:182-191 | two texts that differ only in the letter case of digits in their numbers and registers assemble alike |
| Assembler.MatchOpcode | x86_64/asm.c:148-162 | the opcode whose name stands at the position, if there is one, and three characters on |
| Assembler.LblStrEq | x86_64/asm.c:105-116 | compares two labels by their characters up to whitespace or the end of the text, as its loop does, the open end included |
| Assembler.FindLabel | x86_64/asm.c:328-340 | the first label that compares equal to the reference |
| Assembler.RegisterArg | x86_64/asm.c:293-295 | accepts exactly the register tokens, and says how far a failed try has moved |
| Assembler.SkipReference | x86_64/asm.c:298-305 | where the scan goes on after a label as last argument, the lone `r` included |
| Assembler.LastArgument | x86_64/asm.c:278-318 | immediate, negated immediate, register or reference: the argument's bits in the word, and the tokens left |
| Assembler.Instruction | x86_64/asm.c:262-319 | the whole line: refused exactly when an argument does not parse, otherwise packed as its tokens say |
| Assembler.Scan | x86_64/asm.c:220-326 | the loop over any text parses its tokens, or fails exactly when they do not parse; the position increases in every turn |
| Assembler.Compile | x86_64/asm.c:208-352 | for every text: the result is exactly the words that its tokens mean, with references resolved, or a refusal |
| OpcodeTexts.FirstOpcodes | x86_64/asm.c:208-352 | literal texts: each of `acx` to `and` with registers 1, 2 and 3, the word it assembles to in hexadecimal, and the instruction that the machine takes the word for |
| OpcodeTexts.LastOpcodes | x86_64/asm.c:208-352 | the same from `orr` to `exc` |
| OpcodeTexts.ImmediateLine | x86_64/asm.c:278-290 | a literal text with the immediate -5, and its word |
| OpcodeTexts.NumberText | x86_64/asm.c:230-259 | a number of up to 16 digits, in any case and up to 2^64 - 1, assembles to itself |
| AssemblerTexts.AcceptedText | x86_64/asm.c:208-339 | for every accepted text: one word per item read; a number is that word, and an instruction decodes to the opcode, the registers and the last argument written, a reference to the address it finds |
| AssemblerTexts.ReferenceMeans | x86_64/asm.c:328-340 | for every accepted text and every label operand in it: the word decodes to the address of the first label of that name if and only if there is one and, where the text ends with the operand, no label before it that begins with the operand stands for another word |
| AssemblerTexts.BlankTextMeans | x86_64/asm.c:328-340 | for every accepted text that is empty or ends in whitespace: that holds of a label operand if and only if the operand is not missing |
| AssemblerTexts.BlankTextAccepted | x86_64/asm.c:328-340 | a text of this kind that can be read is accepted if and only if every label operand names a label of the text, or is missing and there is a label at all |
| AssemblerTexts.LabelMeans | x86_64/asm.c:240-253 | in every text that can be read, a label stands for the number of words that the tokens before it become |
| AssemblerTheory.LineTakes | x86_64/asm.c:262-326 | a line takes its four tokens and no more, except exactly when its last argument is the label `r` and a token follows, which is then lost |
| AssemblerTheory.LabelRLosesAWord | x86_64/asm.c:291-305 | any program that defines `r` and ends a line with it loses the token after that line |
| AssemblerTheory.WordAfterRIsLost | x86_64/asm.c:291-305 | a literal text: `r jnc r0 r0 r 5 ` assembles to one word, without the 5 |
| AssemblerTexts.MissingMeansFirstLabel | x86_64/asm.c:105-116 | a missing operand always means the first label of the text, which is never one of its name |
| AssemblerTexts.TargetIsMissing | x86_64/asm.c:105-116 | a literal text: `x jnc r0 r0 ` assembles to a jump to x |
| AssemblerTexts.LongerLabelClaims | x86_64/asm.c:105-116 | a literal text: `xy 5 x jnc r0 r0 x` jumps to xy at 0 and not to x at 1 |
| AssemblerTexts.ShorterLabelCatches | x86_64/asm.c:105-116 | a literal text: `jnc r0 r0 loop lo` is accepted without a label loop, and jumps to lo |
| ProgramText.ReadText | x86_64/compile.py:221-234 | the tokens of the plain text are, line by line, the program's instructions and labels |
| ProgramText.TextAssembles | x86_64/compile.py:221-234 | the program's lines, printed plainly: their text assembles to exactly the words of the program, and is refused if and only if the program is refused (an undefined function or an immediate out of range) |
| ProgramText.TextRuns | x86_64/asm.c:208-466 | from text to result: what the assembler makes of the plain text, put into memory with enough stack, makes `run` return the meaning of the source |
| CompilerText.CodeEmits | x86_64/compile.py:51-218 | the characters that each form of expression makes the compiler print read, whatever follows them, as the instructions that the form compiles to |
| CompilerText.NumberPrinted | x86_64/compile.py:3-7 | `to_hex`: a minus sign for a negative number, then digits of 0123456789abcdef by their places, whose sum is the size of the number, without a leading zero |
| CompilerText.PrologueEmits | x86_64/compile.py:223 | the same of the prologue's own lines, upper-case registers included |
| CompilerText.CompReads | x86_64/compile.py:221-234 | the whole text, character by character as `comp` concatenates it, assembles to what the plain print of the program's lines does |
| CompilerText.CompAssembles | x86_64/compile.py:221-234 | the compiler's own text assembles to exactly the words of the program, and is refused if and only if the program is |
| CompilerText.CompRuns | x86_64/asm.c:208-466 | the compiler's own text, assembled and loaded with enough stack, makes `run` return the meaning of the source |
| AvlTrees.FibonacciBound | datastructures.c:616-620 | a balanced tree of height h has at least Fib(h + 2) - 1 nodes |
| PackedWords.PrevBits | datastructures.c:348-375 | bit by bit, the first word of a node: the balance factor as 3, 2 or 1 in bits 0 and 1, and the parent's address from bit 3 on; both are read back |
| AvlBalance.GrownUp | datastructures.c:679-707 | on the way up after insertion, the new balance factor tells whether the parent has kept its height, has grown, or needs a rotation |
| AvlBalance.GrownLeft | datastructures.c:686-692 | the rotation that insertion chooses on the left restores balance and the old height, so that the walk may stop |
| AvlBalance.GrownRight | datastructures.c:693-699 | the same on the right |
| AvlBalance.ShrunkUp | datastructures.c:780-812 | on the way up after deletion: factor 1 or -1 means that the height is unchanged, 0 that it has shrunk, 2 or -2 that a rotation is due |
| AvlBalance.ShrunkLeft | datastructures.c:813-823 | the rotation that deletion chooses restores balance, and the height is unchanged exactly when the taller child was even, which is when the walk stops |
| AvlBalance.ShrunkRight | datastructures.c:795-803 | the same on the other side |
| AvlStore.AvlTree.RotateLeft | datastructures.c:498-532 | left rotation in memory: parent word, child links and both factors end as those of the rotated tree; only nodes of the tree are written |
| AvlStore.AvlTree.RotateRight | datastructures.c:535-569 | the same to the right |
| AvlStore.AvlTree.RotateLR | datastructures.c:572-591 | the double rotation, with its three factors |
| AvlStore.AvlTree.RotateRL | datastructures.c:594-613 | the other double rotation |
| AvlStore.AvlTree.FixInsert | datastructures.c:677-709 | the upward loop of insertion ends with a balanced tree that has the same entries in the same order and, but for balance factors, differs by at most one single or double rotation |
| AvlStore.AvlTree.Insert | datastructures.c:624-709 | fails exactly for a null node or a key that is there, and then leaves the tree as it is; otherwise exactly the new entry is added, in order, links and factors are right, the height is Fibonacci-bounded, and the new tree is the old one with a leaf replaced by the node and at most one single or double rotation |
| AvlStore.AvlTree.FixDelete | datastructures.c:779-827 | the upward loop of deletion ends with a balanced tree that has the same entries in the same order |
| AvlStore.AvlTree.Delete | datastructures.c:727-827 | exactly the word at the node leaves; the node that leaves memory is the neighbour whose word was moved in; order is kept for either key, links and factors are right, the height is Fibonacci-bounded, and nothing outside the tree is written |
| AvlStore.RemovedSorted | datastructures.c:727-827 | deletion keeps search order by address and by word, although it moves a word between nodes |
| AvlStore.RemovedDatas | datastructures.c:727-827 | the set of words loses exactly the word at the node |
| AvlStore.AvlTree.Find | datastructures.c:458-474 | null exactly when no node has the word, otherwise the node that has it |
| AvlSearch.SmallerLeft | datastructures.c:842-862 | in a sorted tree smaller keys lie to the left of a node and greater ones to the right, by address or by word |
| AvlStore.AvlTree.DeleteWord | datastructures.c:830-839 | fails exactly when the word is not there; otherwise the set of words is the old one without it |
| AvlStore.AvlTree.Move | datastructures.c:387-417 | the node continues at another address, with its word, its place in the order and all links to it |
| AvlSets.WordSet.Add | datastructures.c:712-724 | the set of words grows by exactly the word; fails exactly without memory or for a word that is there |
| AvlSets.WordSet.Has | datastructures.c:458-474 | finds a node exactly when the word is in the set |
| AvlSets.WordSet.Remove | datastructures.c:830-839 | the set shrinks by exactly the word; fails exactly when it is not there |
| AvlSets.Reach | datastructures.c:624-839 | every tree reached by any sequence of insertions and deletions, with any allocator, is sorted, balanced, of Fibonacci-bounded height, and holds exactly the words it should |
| FreeList.MovedBack | alloc.c:128-129 | deletion followed by `avl_move` leaves every remaining block of an address-keyed tree at its own address |
| HeapBlocks.NoOverlap | alloc.c:114-212 | blocks that tile the heap do not overlap |
| HeapBlocks.RequestFits | alloc.c:114-117 | the block made for a request of n words has n + 1 words, or 4 if that is more, unless the request is of 2^64 - 1 words; it has room for the request if and only if that is not so |
| HeapBlocks.LargestRequest | alloc.c:114-117 | for 2^64 - 1 words the size wraps, and the block is one of the least size |
| HeapBlocks.AllocTiles | alloc.c:114-147 | taking words out of a free block keeps the tiling, adds exactly the words taken to the live ones, and leaves the rest on the free list, or none when it would be too small |
| HeapBlocks.FreeTiles | alloc.c:191-203 | freeing a block joins it with both free neighbours, keeps the tiling and gives back exactly its words |
| HeapBlocks.AllocThenFree | alloc.c:114-203 | `free` of what `alloc` returned restores the same blocks |
| HeapBlocks.NoneForIs | alloc.c:114-123 | no block is large enough for a request exactly when every free one has fewer words than the request and one more, or fewer than 4 |
| HeapBlocks.TakenOutIs | alloc.c:124-147 | taking gives the block n + 1 words (4 for n < 3), or all of it when fewer than 4 would be left; what is left stays free behind it |
| HeapBlocks.GivenBackIs | alloc.c:191-203 | freeing makes one free block of the block and its free neighbours, with the words of all of them, and leaves every other block |
| HeapBlocks.RunTiles | alloc.c:114-212 | over every run of `alloc` and `free`: the blocks tile the heap, no two free ones touch, and live words plus free words are the whole heap |
| Allocator.Heap.InitHeap | alloc.c:80-111 | null exactly for a start that is not a multiple of 8 bytes or a size below 12 words; otherwise one free block that is the whole heap after its header of 8 words |
| Allocator.Heap.Take | alloc.c:128-129 | a block leaves the free list in memory and every other node stays at its own address |
| Allocator.Heap.FindNeighbours | datastructures.c:420-441 | the search of `avl_merge` ends and finds exactly the free block that ends at the address and the one that starts after it, null where there is none |
| Allocator.Heap.Merge | datastructures.c:420-455 | the list afterwards is that of the tiling with the block joined to its free neighbours; only nodes on the list and the block itself are written |
| Allocator.Heap.MinGe | datastructures.c:477-495 | null exactly when every listed block is too small, otherwise a block that is large enough |
| Allocator.Heap.Alloc | alloc.c:114-147 | null exactly when every free block has fewer than n + 1 words (4 when n < 3), and then nothing changes; otherwise the word after the header of a free block, which is taken at that size, or whole when fewer than 4 words would be left; counters and list agree with the blocks, and no list write touches a live block |
| Allocator.Heap.Free | alloc.c:191-212 | the block becomes free, in one block with the free ones next to it, and no other block changes; counters and list agree with them, and no list write touches another live block |
| Allocator.Heap.Realloc | alloc.c:227-236 | null and no change exactly when every free block is too small for the request, as in Alloc; otherwise the blocks are those of an allocation and a release, the words that fit are copied to the new block, no other word changes, and the old block is freed; list writes miss every block that is live throughout, those of the allocation also miss the old block and those of the release the new one |
| Allocator.CopyFits | alloc.c:230-232 | the words that are copied fit into the new block if and only if the request is not 2^64 - 1 words or the old block is no larger than the new one |
| Rings.PutAppends | datastructures.c:1013-1023 | adding to a ring that is not full appends to its contents, wrap included |
| Rings.DropRemoves | datastructures.c:1026-1038 | dropping from a ring that is not empty removes the oldest item |
| Rings.FullIsCount | datastructures.c:994-1004 | full means one free slot left, empty means none taken |
| RingBuffers.RingBuffer.Add | datastructures.c:1013-1023 | the words of the item, in place, are a Put on the ring that the buffer stands for |
| RingBuffers.RingBuffer.Pop | datastructures.c:1026-1038 | returns the words at the tail, and the ring is dropped by one |
| RingBuffers.Fifo.Add | datastructures.c:1099-1119 | the handler's addition, in place, is the step of the model, and reports failure exactly when nothing was added, which is when each ring is locked or has one item less than slots |
| RingBuffers.Fifo.Pop | datastructures.c:1122-1150 | an uninterrupted pop, in place: fails, with nothing changed, exactly when no ring has the current tag at its tail; otherwise returns that item without its tag and drops it |
| ConcurrentFifo.AddFails | datastructures.c:1099-1119 | an addition fails exactly when each ring is locked or has one item less than slots, and then leaves no trace, the tag included |
| ConcurrentFifo.AddGoes | datastructures.c:1099-1119 | the item with its tag goes to the end of the first ring if that is unlocked and has room, otherwise of the second; only the tag changes besides |
| ConcurrentFifo.AddKeeps | main.c:81-84 | an addition between any two steps of a pop keeps the invariant |
| ConcurrentFifo.ConsumeKeeps | datastructures.c:1122-1150 | every step of a pop keeps the invariant |
| ConcurrentFifo.TagMeansFront | datastructures.c:1132-1139 | a tag equals the current one exactly when its item is the next to be popped, although tags wrap at 2^64 |
| ConcurrentFifo.RunSafe | datastructures.c:1099-1150 | over every interleaving, what has been popped is the beginning of what was added, in order, and neither history is ever rewritten |
| ConcurrentFifo.FifoUnderInterrupts | datastructures.c:1063-1150 | from a new queue, over every interleaving, the rings hold exactly the additions not yet popped, each once and each ring in order |
| ConcurrentFifo.PopDelivers | datastructures.c:1122-1150 | a pop that starts on a queue with something in it returns the oldest item, whatever is added between its steps |
| ConcurrentFifo.PopAlone | datastructures.c:1122-1150 | the steps of a pop without interrupts, taken to their end, have exactly the outcome that the in-place pop has |
| ConcurrentFifo.ReadyIsOldest | datastructures.c:1132-1142 | between calls a ring is ready exactly when something is left to pop, and its tail has the oldest of it |
| LispMachine.EvalRuns | lisp.c:508-539 | a frame for an expression, on any stack, runs to its own deletion and leaves the value and store that `eval_fn` computes |
| LispMachine.CallRuns | lisp.c:461-504 | the same for a call frame and `call_fn` |
| LispMachine.MachineRefines | lisp.c:452-558 | whenever the recursive evaluator finishes, the frame machine empties its stack with the same value and the same store |
| LispEquivalence.EvaluatorsAgree | lisp.c:452-558 | the frame machine ends with a value and a store if and only if the recursive evaluator does, with the same |
| LispMeaning.OperatorIs | lisp.c:366-391 | which characters are which operator, and that nothing else is one |
| LispMeaning.TildeDefines | lisp.c:319-321 | `~ [params body]`: the store grows by one function object with these params, this body, and a name space that has only sup, the running function |
| LispMeaning.BarBinds | lisp.c:324-332 | `| [name v]` binds the name to v in the name space of the running function and changes nothing else; its value is v |
| LispMeaning.AngleEvaluates | lisp.c:335-363 | `>` evaluates its element once more |
| LispMeaning.ColonLooksUp | lisp.c:266-280 | `: name` is the binding in the first function along the chain of sup that has the name; if none has it, the name `self` is the running function, and any other name has no value |
| LispMeaning.ColonCalls | lisp.c:283-316 | `: [f a ..]` with one argument for each parameter evaluates the body of f in one new function object with the parameters bound to the arguments and the sup of f, and gives the last element's value; with another number it has no value |
| LispMeaning.PlainIsItself | lisp.c:335-363 | an element that is no operator stands for itself |
| LispMeaning.NearestFirst | lisp.c:341-356 | of two operators before an element the nearer one is applied first |
| LispMeaning.InOrder | lisp.c:335-363 | elements are evaluated from left to right, each in the store that the one before it has left, and their values stand in the same order |
| LispInterpreter.ReturnIsValue | lisp.c:452-558 | what the loop of `_run_prog` returns is what the recursive evaluator computes |
| LispInterpreter.ValueIsReturned | lisp.c:452-558 | where the recursive evaluator finishes, the loop returns after finitely many states |
| LispInterpreter.Interpreter.LookUp | lisp.c:266-280 | the walk up the chain of parents finds what the specification of name lookup says, and `self` at its end |
| LispInterpreter.Interpreter.Enter | lisp.c:293-299 | the function object of an activation, bound in order, whose parent is the callee's own |
| LispInterpreter.Interpreter.EvalFn | lisp.c:335-363 | the loop with its stack of operators, changing the store in place, computes the specified value and store |
| LispInterpreter.Interpreter.CallFunction | lisp.c:283-316 | the same for a call |
| LispInterpreter.Interpreter.RunProg | lisp.c:452-558 | the machine loop, in place: a result is the recursive evaluator's value and store, and none means that no state within the bound returns |
| Bignums.Adc | datastructures.c:1417-1425 | the sign-bit formulas give the sum modulo 2^64 and the exact carry |
| Bignums.Negate | datastructures.c:1428-1434 | in place, the two's complement of the whole number |
| Bignums.NegateTwice | datastructures.c:1428-1434 | negating twice gives the same words back, at every size |
| Bignums.NegatedInt | datastructures.c:1428-1434 | the value changes its sign wherever the result fits |
| Bignums.NumAdd | datastructures.c:1437-1485 | for operands of any two lengths the result is canonical, has the sum as its value, and has no word to spare |
| Bignums.NumLe | datastructures.c:1568-1578 | both operands come back unchanged; for distinct objects the result is non-zero exactly when num1 < num2; in all cases it is right if and only if the operands are Comparable |
| Bignums.OneBelowItself | datastructures.c:1568-1578 | an input that is not: 1 compared with its own object |
| BignumProducts.AddShifted | datastructures.c:1720-1729 | the inner loop adds the multiplicand, shifted by any number of bits, into the window, up to a multiple of the window's own size |
| BignumProducts.WindowHolds | datastructures.c:1720-1729 | that multiple is zero: no carry leaves the window when the magnitude fits below the sign word |
| BignumProducts.Multiply | datastructures.c:1711-1734 | the three loops leave the product of the magnitudes |
| BignumMultiply.ProductOf | datastructures.c:1736-1741 | from magnitudes back to signed values, and what a Least operand does |
| BignumMultiply.SquareMissed | datastructures.c:1708-1739 | for no negative number does the product with its own object come out right |
| BignumMultiply.NumMul | datastructures.c:1684-1741 | both operands come back unchanged; the result is the integer product if and only if the operands are Multipliable, aliasing included; it is canonical for distinct objects, and 0 where distinct operands are not Multipliable |
| BignumMultiply.LeastTimesOne | datastructures.c:1702-1734 | an input that is not: -2^64 times 1, either way round |
| BignumMultiply.MinusOneSquared | datastructures.c:1708-1738 | another: -1 times its own object |
| BignumTexts.UintToStr | util.c:54-86 | the digits of the number in the base, most significant first, and a final zero; -1 exactly when the buffer is too small for both |
| BignumDigits.DigitsMean | util.c:54-86 | the digits written, as decimal digits, then capital, then small letters, times the powers of their places in the base, sum up to the number; none but the only digit is a leading zero |
| BignumTexts.StrToNum | datastructures.c:1744-1806 | a canonical number of the text's signed hexadecimal value, minimal when the text has no leading zero; refused exactly when the text means no number |
| BignumDigits.MeaningIs | datastructures.c:1744-1806 | what a text means: the sum of its hexadecimal digits, of either case, times the powers of their places, with an optional minus sign; no other text means anything |
| BignumTexts.NumToStr | datastructures.c:1839-1870 | the number comes back unchanged, and the text shows its sign and magnitude |
| BignumTexts.ShownMeaning | datastructures.c:1839-1870 | the text means the number's value, or 0 for a Least number |
| BignumTexts.RoundTrip | datastructures.c:1744-1870 | reading back what was written gives the value if and only if the number is not Least; a minimal number comes back word for word |
| BignumTexts.LeastShownAsZero | datastructures.c:1851 | an input that is: -2^64 is shown as `-0` |

## Findings

What the code does not do, each with an input that shows it and the exact condition under which the code is right.

- `>` compares by the sign of a difference. `GreaterOverflows` gives 2^63 and 1; `GreaterIsSigned`: right if and only
  if the difference is in the signed range (x86_64/compile.py:65-67).
- `num_le` of a number and its own object negates both sides. `OneBelowItself` gives 1; `NumLe`: right if and only if
  the operands are two objects or the number is not positive (datastructures.c:1568-1578).
- `num_mul` of -2^(64 n) and a non-zero number can come out 0, and a negative number times its own object is wrong.
  `LeastTimesOne` and `MinusOneSquared` give [0, ONES] times [1, 0] and -1 times itself; `NumMul`: right if and only if
  `Multipliable`, a test on the signs, the sizes and the zero words of the operands (datastructures.c:1684-1741).
- `num_to_str` of -2^(64 n) loses the magnitude. `LeastShownAsZero` gives -2^64, shown as `-0`; `RoundTrip`: the value
  comes back if and only if the number is not one of these (datastructures.c:1839-1870).
- A label named `r` as the last argument of a line makes the assembler skip the next token. `WordAfterRIsLost` gives
  the text `r jnc r0 r0 r 5 `; `LineTakes`: a line takes just its own tokens except in that case
  (x86_64/asm.c:291-305). The compiler never prints such a label.
- A label operand need not mean the first label of its name, because labels are compared only up to the end of the
  text (x86_64/asm.c:105-116). For a text that ends in whitespace, `BlankTextMeans`: it does if and only if the operand
  is not missing; `TargetIsMissing` gives `x jnc r0 r0 `, a jump to x. For any text, `ReferenceMeans`: it does if and
  only if there is such a label and the operand does not end the text after an earlier label that begins with it and
  stands for another word. `LongerLabelClaims` gives `xy 5 x jnc r0 r0 x`, which jumps to xy, and
  `ShorterLabelCatches` gives `jnc r0 r0 loop lo`, which jumps to lo though there is no label loop. The compiler's
  text ends with a number, and `TextAssembles` shows that its labels mean what they should.
- A request of 2^64 - 1 words wraps: `LargestRequest`; `RequestFits`: the block has room for the request if and only if
  it is a smaller one (alloc.c:116). For `realloc` that means that the words copied fit into the new block if and only
  if the request is a smaller one or the old block is no larger: `CopyFits`.
- The decrement of a reference count runs into the temporary count and the mark exactly when the count is zero:
  `GiveUpCell` (alloc.c:377). On a heap in balance no decrement of the sweep meets a count of zero: `SweepExact` takes
  each reference out of a count that still has it, and `RootExact` shows that every root of a pass finds it so.

## Left out

- Hardware: UART, framebuffer, EFI start-up, `svc`. A division or an address that C leaves undefined has no next state
  in the modelled machine.
- `asm`, `.` and `,` in compiled programs: raw instructions and raw memory access leave the frame discipline.
- `tok` and `tokenize` (x86_64/compile.py:21-48): programs are syntax trees here, so that names and numbers are told
  apart, and operators named, before the compiler begins.
- Assembler.Compile: texts are shorter than 2^45 characters, so that a label fits an immediate; allocation of its
  tables succeeds.
- The queues and scratch nodes of the collector are values and their allocation succeeds; the tree that holds
  `gc_set` and `refuse` is the one of AvlSets, and the collector's heap refers to it as a set.
- Collector.Heap.ReleaseType: `object_delete` of a type whose count would reach zero is not modelled, because types are
  strings that the program holds for as long as it runs.
- Collector.Heap.NewObject: objects start empty; `object` can also copy words into a new object, whose references its
  caller then has to count.
- Collector.Heap.GcCollect: reference counts stay below 2^31 - 1, which NewObject, AppendRef and Hold require before the
  call; from there on a temporary count that equals the real one would spill into the mark (CountAgainCell).
- Collector.Heap.AppendRef: the object has room; `object_append` may also move a full object to a larger block.
- Collector.Heap.SweepTr: the nodes of a swept set's tree are not memory here, so that their release is not either.
- Collector.Heap.constructor: an empty heap, before `init_heap` has allocated `gc_set` and the types.
- The words of blocks (`words`) and the headers and nodes of the heap's own lists (`nodes`) are kept in two memories;
  that they do not meet is the clause with `MissesLive` in Alloc, Free and Realloc.
- Allocator.Heap.InitHeap: up to the first allocation; the sets allocated after it are AvlSets.
- Allocator.Heap.Free: the address is that of a live block, in place of the source's range test, which compares an
  absolute end with an offset (alloc.c:195).
- Allocator.Heap.Realloc: requests below 2^64 - 1 words, see the finding above.
- Loops of programs that need not end (`run`, `_run_prog`, recursive evaluation) have a bound as a parameter; the
  theorems about them hold for every large enough bound.
- VirtualMachine.CompiledProgramReturns: for terminating programs; nothing is said of a program without a meaning.
- The evaluators' `<` operator, byte code, strings beyond their use as names, and memory management: the store of
  name spaces grows.
- The labels of the frame machine that only fall through to the next one are not separate steps.
- RingBuffers.Fifo.Pop: in place only without interrupts; interrupts between its steps are the state machine of
  ConcurrentFifo, whose uninterrupted outcome PopAlone gives.
- BignumTexts.UintToStr: bases 2 to 62, those that the digit table has.
- `num_shift`, `num_and`, `num_or`, `num_xor` and division of bignums.
- The near-duplicates of the root files under `x86_64/`, and the root `compile.py` and `asm.c`, whose calling
  conventions do not match each other.
