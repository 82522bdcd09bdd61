# Verified models of the unisym assembler

A Dafny model of the hard parts of the `unisym` repository: the NASM-derived assembler and disassembler in `asm/` and the
data structures and arithmetic in `lib/` that they rest on. Each part is modelled as the source runs it - the same state,
branches, limits and error cases - and proved equal to, or within stated bounds of, a short definition that says what it
is for.

`dafny verify dfyconfig.toml` verifies everything.

## What is modelled

| module | part of the system | main result |
|---|---|---|
| `SingleLineMacros`, `MacroNames` | token loop of `expand_smacro` for macros without parameters | it is recursive substitution with a hide set; the step limit strikes exactly when the substitution takes that many steps; otherwise flags are as before afterwards; which words call a macro is known letter by letter |
| `LineMachine` | `do_directive` and `pp_getline` for conditions and repeats | every well-nested program is emitted exactly as its tree says, and every stack ends empty |
| `PassLoop` | passes, label table, phases | when no EQU's segment moves between passes the loop ends with phases 0,...,0,1,2, no phase error and every label at the sum of the sizes before it; it ends whatever the passes report, and when it gives up is known exactly |
| `DataEmission`, `LittleEndian` | size and emission of data statements | as much is written as was counted exactly when no item is refused and TIMES is not negative |
| `Vectors`, `Evaluator`, `EvaluatorLaws` | the expression evaluator | it accepts exactly the grammar's token strings and computes the tree's 64-bit value, which obeys the laws of arithmetic, bits and truth values |
| `HashTable` | open addressing with rehash | it is a finite map; probing ends |
| `ChunkedBuffer` | the block buffer `Strbuff` | it is one flat byte sequence under any mix of operations |
| `RadixArray` | the growing radix array `Strpage` and the section offsets kept in it | it is a total map with default 0 |
| `Crc64` | table-driven and bitwise CRC-64 | they are mirror images for every polynomial, start value and string |
| `Quote`, `QuoteLaws`, `Unquote` | quoting, unquoting in place, skipping | the round trip holds for every byte string; no unread byte is overwritten; every escape stands for what its digits or letter say |
| `Queens` | the N-queens backtracker | its chain is exactly the solutions, each once, in lexicographic order |
| `SyncHeap`, `Listing`, `SyncRanges`, `Disassembler` | the disassembler's buffering loop and its sync points | every byte of the file lies in exactly one printed item or skip, at its true offset; the listing does not depend on how the file is read; ranges are kept clear exactly when no two cross that a third does not enclose |
| `Limbs`, `FloatMultiply`, `DecimalFloat`, `DecimalDigits`, `DecimalConvert`, `DecimalScan`, `DecimalPrinting` | decimal to binary floating point | the value of every decimal constant whose exponent is at most 5000 is met within an exact two-sided bound |
| `FloatShift`, `FloatRound`, `FloatFormat` | shifting, rounding to nearest, the IEEE formats | the bytes written are read back as the rounded number |
| `DecimalToFloat` | `to_float` for names and decimal numbers | the bytes of a constant are those of a number within the conversion's bounds and one rounding of its value, and of the nearest one where no rounding boundary is that near |
| `Common`, `Powers` | shared types and arithmetic | |

Macros of the source without a visible definition are taken to mean: `MIN(a, b)` and `MAX(a, b)` assign the smaller and
larger value to `a`; `ABS(a, b)` is the distance; `AssignParallel(a, b, c)` assigns `b` to `a` and `c` to `b` at once;
`foreach_byt` goes over the bytes before the terminating NUL.

## Where the code differs from what it is meant to do

Each of these is kept as the code has it, with the exact condition under which the intended property holds.

- An EQU whose segment changes between passes is not counted as a change, so the loop can finish with a label table that is not settled (`PassLoop.NoOffsetChangeIsNotEnough`). A pass leaves the table alone if and only if no offset *and* no segment changed (`PassLoop.UnchangedIffSettled`). No segment moves whenever EQUs look at earlier labels and their own section only (`PassLoop.LookingBackIsFixed`).
- A number added behind a far-absolute part that stands alone is not sorted in before it, so the sum is no longer taken for a simple value; added in the other order it is (`EvaluatorLaws.FarFirst`).
- Ordered comparisons look at the low 32 bits of a difference. They are right if and only if that half has the sign of the whole (`Evaluator.ComparisonIsRight`).
- A mantissa is shifted into its format before it is rounded, which loses the bits that tell a tie from more than half. The result is the nearest if and only if those bits alone do not decide (`FloatRound.ShiftThenRound`, `FloatFormat.RoundedIsNearest`).
- A number just too large for a format is written with a full exponent field: infinite if it is close enough to a power of two to be rounded to it, otherwise not a number. `FloatFormat.NumberBecomesNaN` gives the range of mantissas, and `FloatFormat.ToFloat` states it of the bytes.
- `ieee_shr` by more than 192 bits that is not a whole number of limbs reads a limb before the mantissa, and by no others (`FloatShift.ShiftRight`). The constant 1e-100 as a single, shifted by 215 bits, does so (`DecimalToFloat.TinyConstantLeavesTheMantissa`). Whatever is read there, the bytes written are right (`FloatFormat.ShiftAndRound`).
- An exponent over 5000 is cut to 5000. A constant is read as the number it writes if and only if its exponent is at most 5000 or its digits are all zero (`DecimalScan.ReadIsMeant`): 0.000...01e6001 with 6000 zeros after the point is 1 and is read as 10^-1001 (`DecimalScan.RemoteIsMisread`).
- `ieee_shr` by no bits clears the first limb (`FloatShift.ShiftRight`).
- Sync ranges that cross make the disassembler print inside a range it was told to skip, in every run (`Disassembler.CrossingRangesAreRunOver`). When ranges that begin together also end together, this happens if and only if the file begins inside a range or two ranges cross inside the file that no third one encloses (`SyncRanges.RangesAreKeptClear`). Of ranges that begin together but end apart the heap decides which one is taken first (`SyncRanges.TheHeapDecidesTies`); then the exact condition is what the calls of `next_sync` find pending, `SyncRanges.CallsClear`, and if `disasm` adds no points that is the course of calls computed from the heap alone, `SyncRanges.CourseClear`.
- A sync point that `disasm` adds under `-a` is waited for if and only if it lies at or after the sync point in force; these are kept exactly when the ranges of the command line are. Without a sync point on the command line no added one is ever looked at (`Listing.UnsyncedPointsAreIgnored`, `Listing.AddedPointIsRunOver`).
- `aasm_skip_string` and `aasm_unquote` agree on the end of a string if and only if a backquoted one is closed (`Unquote.SkipAgrees`).
- `%exitrep` lets the current turn of its repeat finish, although the comment in the source says it stops emission at once (`LineMachine.Preprocessor.ExitRepeat`).
- A data item in error, such as an integer in data wider than 64 bits, is counted but not written (`DataEmission.WrittenIsCounted`, `DataEmission.WideIntegerIsNotWritten`).
- When the step limit of `expand_smacro` strikes, the flags of exactly those macros stay set whose end markers are still pending (`SingleLineMacros.Expander.Expand`); a macro with a body of 2^20 tokens is then not expanded in the next line either (`SingleLineMacros.FlagOutlivesTheLine`).

## Model

| member | source | states |
|---|---|---|
| `SingleLineMacros.Lookup` | asm/aasm-prep.cpp:3755-3757 | the macro used is the first of the chain whose name matches, and none before it does |
| `SingleLineMacros.Expander.Expand` | asm/aasm-prep.cpp:3733-3996 | the result is recursive substitution under the flags set before; it succeeds if and only if the substitution takes fewer than 2^20 steps; flags are then as they were, and otherwise those of the macros whose end markers are pending after 2^20 - 1 turns are set too |
| `SingleLineMacros.Expander.Step` | asm/aasm-prep.cpp:3740-3995 | a flag is set exactly while it was set before or its end marker is pending; what is still to be written is unchanged; one step fewer is left |
| `SingleLineMacros.Expander.PushBody` | asm/aasm-prep.cpp:3941-3970 | pushing the reversed stored tokens puts the body in reading order in front of the list |
| `SingleLineMacros.CallStep` | asm/aasm-prep.cpp:3932-3980 | replacing a call by body and end marker keeps what is to be written and costs one step |
| `SingleLineMacros.LongBody` | asm/aasm-prep.cpp:3733-3738 | the limit strikes inside a body of 2^20 - 2 tokens or more with the macro's end marker pending, and the macro is hidden from then on |
| `SingleLineMacros.FlagOutlivesTheLine` | asm/aasm-prep.cpp:3733-3738 | after such a line the macro is left as it is in the next one |
| `SingleLineMacros.StepsBound` | asm/aasm-prep.cpp:3733-3996 | the steps for a line are bounded by the number of macros and their longest body, so expansion ends without the step limit |
| `SingleLineMacros.Survivors` | asm/aasm-prep.cpp:3912-3924 | a macro name left in the result was hidden to begin with or belongs to a macro that can reach itself |
| `SingleLineMacros.AcyclicExpansionIsComplete` | asm/aasm-prep.cpp:3699-3996 | without circular definitions no macro name is left, and expanding again changes nothing |
| `MacroNames.MatchesMeans` | asm/aasm-prep.cpp:926-936 | a case-sensitive macro is called by its own name only; any other by exactly the words of the same length in which every character is the same or the other case of the same letter of A to Z |
| `MacroNames.LookupMeans` | asm/aasm-prep.cpp:3748-3757 | lookup finds the first macro of the chain that the word so calls, or none if it calls none |
| `MacroNames.CaseDoesNotMatter` | asm/aasm-prep.cpp:3733-3996 | changing the case of words that name no case-sensitive macro changes a line's expansion in nothing but case, and takes the same number of steps |
| `MacroNames.CaseOfCall` | asm/aasm-prep.cpp:3755-3757 | and a call of a macro without `%?` gives exactly the same words |
| `MacroNames.CallGives` | asm/aasm-prep.cpp:3941-3970 | a body that calls nothing comes out in its defined order, `%?` as the word that was written and `%??` as the name in the definition |
| `MacroNames.BufferSize` | asm/aasm-prep.cpp:3755-3757 | BUFSIZE defined without regard to case is expanded as bufsize too, and otherwise not |
| `LineMachine.ProgramRuns` | asm/aasm-prep.cpp:4635-4820 | every well-nested program runs to the output and environment of its tree, with every stack as it was |
| `LineMachine.BlockRuns` | asm/aasm-prep.cpp:4719-4820 | a block of lines met in any live state has exactly its tree's effect |
| `LineMachine.DeadRuns` | asm/aasm-prep.cpp:1870-1879 | any well-nested lines under a dead branch leave the state alone |
| `LineMachine.ClosedArms` | asm/aasm-prep.cpp:2359-2447 | once a branch was taken, the remaining branches up to %endif do nothing |
| `LineMachine.SeekingArms` | asm/aasm-prep.cpp:2359-2447 | after failed tests the first %elif that holds or the first %else is carried out, and no other |
| `LineMachine.RecordRuns` | asm/aasm-prep.cpp:1881-1916 | inside %rep any well-nested lines, nested repeats included, are recorded in order |
| `LineMachine.LoopRuns` | asm/aasm-prep.cpp:4635-4718 | the marker runs the body max(n, 0) times, or to the end of the turn that hit %exitrep, and frees its block |
| `LineMachine.Preprocess` | asm/aasm-prep.cpp:4635-4830 | handing out lines one by one gives the tree's lines in order, then the end, with all stacks empty |
| `LineMachine.Preprocessor.GetLine` | asm/aasm-prep.cpp:4635-4830 | one call advances the same run to the next line or to its end |
| `LineMachine.Preprocessor.DoDirective` | asm/aasm-prep.cpp:1860-1916 | which lines are taken as directives, and what the others leave changed |
| `LineMachine.Preprocessor.CarryOut` | asm/aasm-prep.cpp:2344-2684 | the new state after each directive |
| `LineMachine.Preprocessor.ChangeCondition` | asm/aasm-prep.cpp:2359-2431 | the state changes of %elif and %else, the orphaned ones fatal |
| `LineMachine.Preprocessor.ExitRepeat` | asm/aasm-prep.cpp:2667-2684 | the repeat of the first pending marker gets one turn |
| `LineMachine.Preprocessor.HandleMarker` | asm/aasm-prep.cpp:4635-4718 | a marker with turns left pushes its block again, otherwise the active block is dropped |
| `LineMachine.Preprocessor.PushBody` | asm/aasm-prep.cpp:4654-4672 | the stored lines come out in reading order |
| `LineMachine.Preprocessor.HandleLine` | asm/aasm-prep.cpp:4784-4830 | a line is a directive, recorded, dropped or emitted |
| `PassLoop.UnchangedIffSettled` | asm/aasm-label.cpp:264-281 | a later pass changes no entry if and only if every label stands for its place and every EQU for its value; a settled table then goes through every further pass unchanged |
| `PassLoop.NoOffsetChangeMeansSettled` | asm/aasm-assembler.cpp:484-486 | when the table has the segments that every line agrees with, the source's own test, no offset changed, means settled and conversely |
| `PassLoop.LookingBackIsFixed` | asm/aasm-statement.cpp:777-810 | segments are fixed in every program without double names whose EQUs depend on the segments of earlier labels and their own section only |
| `PassLoop.LocatedIsFixed` | asm/aasm-statement.cpp:777-810 | so in one with an EQU of the location and an EQU of an earlier label |
| `PassLoop.NoOffsetChangeIsNotEnough` | asm/aasm-label.cpp:279-281 | a chain of EQUs of later labels, whose segments move, passes that test unsettled |
| `PassLoop.EveryRunEnds` | asm/aasm-assembler.cpp:102-103 | the loop ends for every sequence of change counts, even without the limit on passes |
| `PassLoop.StallsMean` | asm/aasm-assembler.cpp:487-495 | the stalls counted are the passes without a new phase since some pass, the last one, that reported fewer changes than every pass before it that reported any, or since the beginning |
| `PassLoop.GivingUpTakesTime` | asm/aasm-assembler.cpp:498-507 | the loop does not give up before it made 998 passes |
| `PassLoop.SettledRun` | asm/aasm-assembler.cpp:102-508 | if the first pass leaves a settled table the phases are exactly 0, 0, 1, 2, nothing fails, nothing is given up and the table stays |
| `PassLoop.FirstPassSettles` | asm/aasm-statement.cpp:777-810 | the first pass leaves a settled table whenever no size and no EQU depends on a label that comes later |
| `PassLoop.GrowingGivesUp` | asm/aasm-assembler.cpp:498-507 | `FOO EQU FOO + 1`, the example of the source's comment, is given up after exactly 1000 passes |
| `PassLoop.Assembler.SetLabelTo` | asm/aasm-label.cpp:301-322 | a second definition is an error, a redefinition with a new offset is counted |
| `PassLoop.Assembler.ProcessLine` | asm/aasm-statement.cpp:777-810 | the effect of a section, a labelled statement and an EQU on table and offsets |
| `PassLoop.Assembler.RunPass` | asm/aasm-assembler.cpp:109-470 | a pass starts every section at 0 and treats the lines in order |
| `PassLoop.Assembler.OnePass` | asm/aasm-assembler.cpp:476-494 | the next phase, fewer changes or a stall, and what each keeps |
| `PassLoop.Assembler.AssembleFile` | asm/aasm-assembler.cpp:102-508 | it makes exactly the passes of a whole run, each on the table that the one before it left, and leaves the last table; it gives up if and only if there was no error and there were 998 stalls or 2^30 + 1 passes; it ends within a number of passes set by the number of labels; if no segment moves and nothing fails or is given up the phases were 0,...,0,1,2, there was no phase error and the table is settled |
| `DataEmission.PaddedSize` | asm/aasm-statement.cpp:211-221 | a text takes the least whole number of units that holds it |
| `DataEmission.WrittenIsCounted` | asm/aasm-statement.cpp:711-752 | what is written is as long as what was counted if and only if nothing is counted, or the count is positive and no item is refused |
| `DataEmission.WideIntegerIsNotWritten` | asm/aasm-statement.cpp:734-752 | an integer in data of ten bytes is counted as ten and writes nothing |
| `DataEmission.EmitItem` | asm/aasm-statement.cpp:727-765 | one item's writes are its image, and the offset moves on by its counted size |
| `DataEmission.EmitAll` | asm/aasm-statement.cpp:724-771 | the statement's image goes out as often as TIMES says; without refused items every write is listed at its true place |
| `LittleEndian.LittleRoundTrip` | asm/inc/aasm.h:152-160 | the bytes of a number give it back, cut to their width |
| `Vectors.AddVectorsIsAddition` | asm/aasm-eval.cpp:102-142 | on plain sorted vectors the sum is sorted and adds every coefficient modulo 2^64 |
| `Vectors.ScalarMultIsScaling` | asm/aasm-eval.cpp:156-170 | on plain vectors every coefficient is multiplied modulo 2^64 |
| `Vectors.EqualityTest` | asm/aasm-eval.cpp:362-373 | the difference is not unknown, and the test on it holds if and only if the operands denote the same vector |
| `Vectors.SumVectors` | asm/aasm-eval.cpp:102-142 | the merge loop computes that sum, the early stop at an unknown and the far-absolute rule included |
| `Vectors.MergeOnce` | asm/aasm-eval.cpp:115-130 | one turn of the merge keeps what the two rests add up to |
| `Vectors.ScaleInPlace` | asm/aasm-eval.cpp:156-170 | the loop in place computes the scaled vector and ends it at a far-absolute part |
| `Evaluator.ParsesExactlyTheGrammar` | asm/aasm-eval.cpp:238-257 | a token string is accepted with a value if and only if the grammar gives it a tree with that value |
| `Evaluator.ParseTree` | asm/aasm-eval.cpp:266-609 | before tokens that end it, a tree's tokens are consumed exactly, with the tree's value or its failure |
| `Evaluator.ParseSound` | asm/aasm-eval.cpp:266-609 | whatever is accepted is the tokens of a tree of that level, left associated |
| `Evaluator.WrittenTreeIsEvaluated` | asm/aasm-eval.cpp:238-257 | every tree, parenthesised where its place needs it, is evaluated to its value |
| `Evaluator.NumericTree` | asm/aasm-eval.cpp:279-607 | on numbers the vectors carry the 64-bit result of every operator, division by zero included |
| `Evaluator.NumbersAreEvaluated` | asm/aasm-eval.cpp:718-889 | a numeric expression, written out, is evaluated to its 64-bit number or fails on division by zero |
| `EvaluatorLaws.SumLaw` | asm/aasm-eval.cpp:506-607 | the number that `a + b`, `a - b` and `a * b` evaluate to is their sum, difference and product modulo 2^64 |
| `EvaluatorLaws.DivisionLaw` | asm/aasm-eval.cpp:550-591 | `a / b` and `a % b` evaluate to q and r with a = q b + r and r < b, and fail for b = 0 |
| `EvaluatorLaws.SignedDivisionLaw` | asm/aasm-eval.cpp:592-605 | `//` and `%%` divide the two's complement numbers, the remainder smaller than b and zero or of the sign of a; they fail for b = 0 |
| `EvaluatorLaws.BitLaw` | asm/aasm-eval.cpp:402-479 | bit i of what `|`, `^` and `&` evaluate to is that function of the two bits |
| `EvaluatorLaws.ShiftLaw` | asm/aasm-eval.cpp:480-505 | bit i of a shift by n below 64 is bit i - n or i + n of the operand, or 0 outside it |
| `EvaluatorLaws.TruthLaw` | asm/aasm-eval.cpp:266-343 | `||`, `^^` and `&&` are 1 or 0 by the truth table on "not zero" |
| `EvaluatorLaws.EqualityLaw` | asm/aasm-eval.cpp:362-373 | `=` and `<>` of numbers are 1 or 0 as they are equal or not |
| `EvaluatorLaws.OrderLaw` | asm/aasm-eval.cpp:374-392 | `<`, `>`, `<=` and `>=` of numbers less than 2^31 apart are the signed comparisons |
| `EvaluatorLaws.OrderOfVectors` | asm/aasm-eval.cpp:362-392 | of vectors they are never true when a component other than the scalar differs, and otherwise those of the scalar parts |
| `EvaluatorLaws.UnaryLaw` | asm/aasm-eval.cpp:729-767 | `-a` is the negative modulo 2^64, `+a` is a, `!a` is 1 for zero and 0 otherwise |
| `EvaluatorLaws.ComplementLaw` | asm/aasm-eval.cpp:741-753 | every bit of `~a` is the other one |
| `EvaluatorLaws.UnaryOnOthers` | asm/aasm-eval.cpp:729-767 | complement and not of an unknown are unknown and of a composite value an error; a minus sign negates every component |
| `EvaluatorLaws.SegmentLaw` | asm/aasm-eval.cpp:769-781 | SEG asks the output format |
| `EvaluatorLaws.CompositeLaw` | asm/aasm-eval.cpp:472-565 | with an operand that is not a number a division is an error and a shift leaves its left operand |
| `EvaluatorLaws.ProductLaw` | asm/aasm-eval.cpp:566-577 | a product of plain vectors is an error if and only if neither is a number, and otherwise multiplies every component modulo 2^64 |
| `EvaluatorLaws.VectorSumLaw` | asm/aasm-eval.cpp:506-540 | sums and differences of plain vectors are taken component by component modulo 2^64 |
| `EvaluatorLaws.UnknownLaw` | asm/aasm-eval.cpp:266-607 | an operator without an error has an unknown result when one operand is unknown and the other a number; dividing an unknown by zero is an error |
| `EvaluatorLaws.UnknownProduct` | asm/aasm-eval.cpp:566-577 | the product of two unknowns is unknown, with a composite value an error, with a number the multiple |
| `EvaluatorLaws.UnknownComparison` | asm/aasm-eval.cpp:362-381 | a comparison with an unknown has an unknown result |
| `EvaluatorLaws.FarIsKept` | asm/aasm-eval.cpp:102-142 | a number and a vector with a far-absolute part, added either way round, keep that part |
| `EvaluatorLaws.FarIsLost` | asm/aasm-eval.cpp:102-142 | two operands with more than a number each lose it, and the rest is added |
| `EvaluatorLaws.FarFirst` | asm/aasm-eval.cpp:102-142 | a number added behind a far-absolute part alone is not sorted in: the sum is no simple value, while the number before it gives one |
| `EvaluatorLaws.PrecedenceLaw` | asm/aasm-eval.cpp:266-609 | without parentheses the tighter of two operators of a table of ten groups is applied first, and of two in one group the left one |
| `Evaluator.EqualityIsSameness` | asm/aasm-eval.cpp:362-398 | on plain vectors = gives 1 and <> gives 0 if and only if the operands denote the same vector |
| `Evaluator.ComparisonIsRight` | asm/aasm-eval.cpp:383-389 | an ordered comparison is right if and only if the low half of the difference has the sign of the whole |
| `Evaluator.ComparisonLosesTheHighHalf` | asm/aasm-eval.cpp:383-389 | 2^32 > 0 and 2^31 > 0 come out false |
| `Evaluator.Descent.ParseLevel` | asm/aasm-eval.cpp:266-291 | the loops of rexp0 to expr5 compute the recursive definition and leave the position after it |
| `Evaluator.Descent.ParsePrimary` | asm/aasm-eval.cpp:718-889 | so does expr6 |
| `Evaluator.Evaluate` | asm/aasm-eval.cpp:899-929 | a whole token string has a value if and only if the grammar gives it one |
| `HashTable.ProbesDiffer` | asm/inc/hashtbl.hpp:69-76 | an odd stride over a power of two meets every slot before it repeats one |
| `HashTable.ProbesFit` | asm/inc/hashtbl.hpp:72-76 | a run of probes over used slots is no longer than their number, so probing ends |
| `HashTable.AbsentKey` | asm/inc/hashtbl.hpp:72-83 | an empty slot at the end of a key's probes proves the key absent |
| `HashTable.FillSlot` | asm/inc/hashtbl.hpp:152-156 | filling that slot keeps every entry reachable |
| `HashTable.Table.Find` | asm/inc/hashtbl.hpp:63-105 | found if and only if the map has the key, with its value and in its only slot; otherwise the place to insert |
| `HashTable.Table.Search` | asm/inc/hashtbl.hpp:67-76 | the probe loop ends at the key's entry or at the first empty slot |
| `HashTable.Table.Add` | asm/inc/hashtbl.hpp:148-188 | the map gains exactly this binding, through a rehash if one is due, and the slot returned holds it; without a rehash no other slot changes |
| `HashTable.Table.FindOrAdd` | asm/inc/hashtbl.hpp:148-188 | the slot returned is the one the next find returns, through a rehash too |
| `HashTable.Table.FindAddFind` | asm/inc/hashtbl.hpp:148-188 | a key keeps its slot when another one is added, unless the table grows |
| `HashTable.Table.MoveAll` | asm/inc/hashtbl.hpp:167-180 | the larger table holds exactly the old entries, and the followed entry's new slot is known |
| `HashTable.Table.Grow` | asm/inc/hashtbl.hpp:157-187 | doubling keeps the map and brings the load back to at most half |
| `ChunkedBuffer.JoinedWrite` | lib/c/strbuff.c:104-115 | writing inside a block is writing at the global position |
| `ChunkedBuffer.JoinedRead` | lib/c/strbuff.c:160-167 | reading inside a block is reading at the global position |
| `ChunkedBuffer.Buffer.constructor` | lib/c/strbuff.c:35-48 | an empty buffer whose blocks hold whole elements |
| `ChunkedBuffer.Buffer.AddBlock` | lib/c/strbuff.c:60-74 | one more block, contents unchanged |
| `ChunkedBuffer.Buffer.Send` | lib/c/strbuff.c:98-123 | the bytes, or zeros, overwrite exactly their range at the write cursor, growing the contents |
| `ChunkedBuffer.Buffer.SendAt` | lib/c/strbuff.c:204-226 | the same at a given position, position 0 with its cursor one before the first block included; beyond the end nothing happens |
| `ChunkedBuffer.Buffer.Rewind` | lib/c/strbuff.c:125-129 | the read cursor is at 0 |
| `ChunkedBuffer.Buffer.Read` | lib/c/strbuff.c:148-168 | the bytes at the read cursor, none only at the end |
| `ChunkedBuffer.Buffer.Pop` | lib/c/strbuff.c:170-183 | exactly the bytes asked for, across blocks, or nothing |
| `ChunkedBuffer.Buffer.PopAt` | lib/c/strbuff.c:186-203 | exactly the bytes of a range |
| `ChunkedBuffer.Buffer.WriteThenRead` | lib/c/strbuff.c:186-226 | what is written at a position is read back from it |
| `RadixArray.SlotOf` | lib/c/strpage.c:67-72 | shifting and masking the masked index gives the same digits as the whole index |
| `RadixArray.PageIsCovered` | lib/c/strpage.c:65-66 | an index with a page is covered by the top page |
| `RadixArray.Array.constructor` | lib/c/strpage.c:38-51 | every value is 0 |
| `RadixArray.Array.Get` | lib/c/strpage.c:63-74 | the value at any index, 0 where nothing was set |
| `RadixArray.Array.Cover` | lib/c/strpage.c:80-84 | added root levels change no value |
| `RadixArray.Array.Set` | lib/c/strpage.c:76-97 | the value at one index below 2^60, and every other value as it was |
| `RadixArray.Sections.Current` | asm/aasm-assembler.cpp:31-35 | the current section's offset, or the absolute one |
| `RadixArray.Sections.SetCurrent` | asm/aasm-assembler.cpp:37-47 | that offset and no other section's; the absolute one cut to 32 bits |
| `Crc64.StepMirrored` | lib/c/crc64.c:57-58 | a step from the high end is, in the mirror, a step from the low end |
| `Crc64.StepsLinear` | asm/todata/_crc64_tab.to.c:17-27 | bit steps are linear over exclusive or |
| `Crc64.TableStepIsEightSteps` | asm/aasm-lib.cpp:127-131 | one table step does the work of eight bit steps |
| `Crc64.CrcMirrored` | lib/c/crc64.c:26-36 | the two registers are mirror images for every polynomial, start value and string |
| `Crc64.BitReflect64` | lib/c/binary.c:25-36 | the low bits are reversed and the others cleared; 0 bits leave the value |
| `Crc64.HashOnce` | lib/c/crc64.c:54-60 | one byte, reflected or not |
| `Crc64.HashBytes` | lib/c/crc64.c:26-36 | the register after the string with the final exclusive or, bytes reflected or not by bit 3 of `refl` and the result by bit 6; bit 3 alone reflects each byte of the string, bit 6 alone the result |
| `Crc64.InitTable` | asm/todata/_crc64_tab.to.c:14-28 | entry i is eight bit steps of i |
| `Crc64.TableCrc` | asm/aasm-lib.cpp:127-131 | the loop over the table is the low-end CRC |
| `Crc64.BothCrcs` | asm/aasm-lib.cpp:127-131 | both computations on one string give the same register up to the final exclusive or |
| `Quote.UnquotedQuoted` | asm/aasm-quote.cpp:27-162 | the quoted form of any byte string stands for it, up to the closing quote |
| `Quote.SameEnd` | asm/aasm-quote.cpp:446-453 | two states find the same closing quote as the full reader |
| `Quote.Utf8RoundTrip` | asm/aasm-quote.cpp:164-197 | the bytes written for a code point give it back |
| `Quote.NoNul` | asm/aasm-quote.cpp:86-160 | the quoted form has no NUL, even where the string has |
| `QuoteLaws.DigitsMean` | asm/aasm-quote.cpp:25 | a hexadecimal digit is an entry of "0123456789ABCDEF" or "0123456789abcdef", an octal one an entry before the eighth |
| `QuoteLaws.WrittenNumber` | asm/aasm-quote.cpp:25 | the digits of a number by that table, in either case, are read as the number |
| `QuoteLaws.HexEscape` | asm/aasm-quote.cpp:337-352 | `\x` or `\X` and the one or two digits of a byte stand for the byte |
| `QuoteLaws.OctalEscape` | asm/aasm-quote.cpp:304-336 | a backslash and up to three octal digits stand for the low eight bits of their number |
| `QuoteLaws.CodePointEscape` | asm/aasm-quote.cpp:354-373 | `\u` and up to four digits, `\U` and up to eight, stand for the UTF-8 bytes of their number, and for nothing from 2^31 on |
| `QuoteLaws.OneUtf8` | asm/aasm-quote.cpp:164-198 | the bytes of a code point are its one shortest UTF-8 form |
| `QuoteLaws.OneEscape` | asm/aasm-quote.cpp:337-352 | so a backquoted `\x` with the two digits of a byte unquotes to that byte |
| `QuoteLaws.LetterEscape` | asm/aasm-quote.cpp:262-320 | each letter of "abefnrtv" stands for its control character, any other byte without digits for itself |
| `QuoteLaws.QuotesChosen` | asm/aasm-quote.cpp:27-161 | single quotes for a printable text without one, else double quotes for one without these, else backquotes |
| `QuoteLaws.PlainText` | asm/aasm-quote.cpp:231-239 | between single or double quotes everything stands for itself up to the next such quote |
| `Quote.Measure` | asm/aasm-quote.cpp:34-84 | which quotes will do, and exactly the length the second pass writes |
| `Quote.WriteEscaped` | asm/aasm-quote.cpp:97-156 | the second pass writes the escapes in order |
| `Quote.Quote` | asm/aasm-quote.cpp:27-162 | the block is filled exactly with the quoted form and a NUL |
| `Unquote.EmitUtf8` | asm/aasm-quote.cpp:164-197 | the bytes of the code point, none for a negative one, and nothing else touched |
| `Unquote.Step` | asm/aasm-quote.cpp:245-374 | one byte in any state; the write cursor stays before the escape being read, and nothing unread is changed |
| `Unquote.UnquoteBack` | asm/aasm-quote.cpp:241-393 | the result stands at the front, the end pointer at the closing quote or the NUL, partial escapes included |
| `Unquote.Unquote` | asm/aasm-quote.cpp:208-404 | what any text stands for, its length and end; from the end on the array is as it was |
| `Unquote.QuoteThenUnquote` | asm/aasm-quote.cpp:27-404 | quoting and unquoting in place gives every byte string back |
| `Unquote.SkipString` | asm/aasm-quote.cpp:410-462 | where it stops, for every kind of text |
| `Unquote.SkipAgrees` | asm/aasm-quote.cpp:406-457 | it stops where unquoting stops if and only if a backquoted string is closed, and then at its closing backquote |
| `Queens.ListingExact` | demo/algorithm/algo-chess-queen.cpp:8-21 | a board is listed if and only if it is a solution with that beginning |
| `Queens.ListingIsRight` | demo/algorithm/algo-chess-queen.cpp:23-58 | the listing has every solution, once, in lexicographic order, and nothing else |
| `Queens.Match` | demo/algorithm/algo-chess-queen.cpp:8-21 | true if and only if the new queen is attacked by none before it |
| `Queens.NQueen` | demo/algorithm/algo-chess-queen.cpp:23-58 | for every size above 3 it ends with exactly that listing |
| `SyncHeap.RootIsLeast` | asm/dasm-sync.cpp:78-81 | in a heap the first entry has the least position |
| `SyncHeap.InsertedIsOrdered` | asm/dasm-sync.cpp:39-45 | adding keeps heap order and gains exactly the new entry |
| `SyncHeap.InsertedFirst` | asm/dasm-sync.cpp:39-45 | a new entry comes first only if it is before the first |
| `SyncHeap.RemovedIsOrdered` | asm/dasm-sync.cpp:51-75 | removing keeps heap order and loses exactly the first entry |
| `SyncHeap.PendingIs` | asm/dasm-sync.cpp:48-87 | what next_sync takes out is over; what it leaves is a heap whose first entry is not over |
| `SyncHeap.PendingAhead` | asm/dasm-sync.cpp:48-87 | the first entry left lies at or after the position if and only if no entry straddles it |
| `SyncHeap.Heap.Add` | asm/dasm-sync.cpp:25-46 | the sift-up loop gives that heap; the multiset gains one entry |
| `SyncHeap.Heap.RemoveFirst` | asm/dasm-sync.cpp:51-75 | the swap and the sift-down loop give that heap; the multiset loses the first entry |
| `SyncHeap.Heap.Next` | asm/dasm-sync.cpp:48-87 | entries that are over are taken out, the least one left is shown; it lies ahead if and only if no entry straddles the position |
| `Listing.Partition` | asm/dasm.cpp:252-297 | every byte lies in exactly one event, shown there truly, at its true offset |
| `Listing.RunIsTold` | asm/dasm.cpp:252-297 | whatever disasm says, items and skips follow each other without gap at their true places |
| `Listing.RunIsRooted` | asm/dasm.cpp:266-287 | the heap's first entry is the sync point in force or a point added before it |
| `Listing.ChunksDoNotMatter` | asm/dasm.cpp:255-265 | if disasm looks at no more bytes than its instruction has, two runs over one file print the same, one perhaps further after the end of the file |
| `Listing.UnsyncedPointsAreIgnored` | asm/dasm-dasm.cpp:1249-1253 | without a sync point to begin with, added points change nothing in what is printed |
| `Listing.AddedPointIsRunOver` | asm/dasm-dasm.cpp:1249-1253 | an instruction that refers to its own second byte is printed across the point it adds |
| `SyncRanges.TidyNeverCrosses` | asm/dasm.cpp:266-276 | ranges of which the later lies inside the earlier, if they overlap, do not cross |
| `SyncRanges.RangesAreKeptClear` | asm/dasm.cpp:252-297 | in every run, whatever disasm says and adds: added points that are waited for are kept clear if and only if the given ranges are; these are if and only if no call of next_sync inside the file finds a pending range straddled; when ranges that begin together end together, that is the case if and only if no two cross that a third does not enclose; and without added points if and only if the heap's course meets no straddled range |
| `SyncRanges.TheHeapDecidesTies` | asm/dasm-sync.cpp:48-87 | two ranges that begin together are kept clear or run over as the heap has them |
| `Disassembler.Session.Run` | asm/dasm.cpp:252-297 | for any disasm, fread and feof the loop ends with a lawful listing of the whole file; every byte is told, and when ranges are kept clear is known from the ranges |
| `Disassembler.Session.Turn` | asm/dasm.cpp:255-296 | one turn keeps buffer and listing, and makes progress |
| `Disassembler.Session.Print` | asm/dasm.cpp:278-287 | one item of the listing, with the points that disasm adds |
| `Disassembler.Session.AtSync` | asm/dasm.cpp:266-276 | the range is passed over and the next sync point is found |
| `Disassembler.Session.Room` | asm/dasm.cpp:255-258 | not past the buffer's end nor past the sync point |
| `Disassembler.Session.Compact` | asm/dasm.cpp:289-296 | the buffered bytes are kept |
| `Disassembler.CrossingRangesAreRunOver` | asm/dasm.cpp:266-276 | every run over thirty bytes with the ranges 0 to 10 and 5 to 25 prints an instruction inside one of them |
| `FloatMultiply.SumIsProduct` | lib/cpp/floating.cpp:92-99 | the partial products add up to the product |
| `FloatMultiply.Accumulate` | lib/cpp/floating.cpp:90-99 | so does the double loop, without overflow of 64 bits |
| `FloatMultiply.Multiply` | lib/cpp/floating.cpp:78-123 | the product cut to six limbs, normalised by at most one bit, also of an array with itself |
| `DecimalFloat.NumberProduct` | lib/cpp/floating.cpp:78-123 | a product is at most the exact one and short of it by less than one part in 2^191 |
| `DecimalFloat.TimesPower` | lib/cpp/floating.cpp:344-366 | square and multiply keeps both bounds through any power |
| `DecimalDigits.ToBits` | lib/cpp/floating.cpp:260-304 | the mantissa holds the leading bits of the digits, all or all but less than one part in 2^191 |
| `DecimalConvert.FifthIs` | lib/cpp/floating.cpp:318-323 | the constant for one fifth is too large by exactly one part in 2^194 |
| `DecimalConvert.Convert` | lib/cpp/floating.cpp:260-375 | X (1 - 2^-191)^(t+1) <= result <= X for t >= 0, and with the excess of one fifth to the power t above for t < 0; normalised, or zero if X is |
| `DecimalScan.ReadExponent` | lib/cpp/floating.cpp:130-170 | the exponent clipped to 5000, or an error exactly on other characters |
| `DecimalScan.ReadConstant` | lib/cpp/floating.cpp:187-242 | it accepts exactly the decimal constants; the kept digits write the value that is read, or all but one part in 10^51 of it when there are more than 52; that is the constant's value if and only if the exponent is not cut or the digits are all zero |
| `DecimalScan.ReadIsMeant` | lib/cpp/floating.cpp:145-160 | a constant is read as the number it writes if and only if its exponent is at most 5000 or its digits are all zero |
| `DecimalScan.RemoteIsMisread` | lib/cpp/floating.cpp:145-160 | a one after k zeros times 10^6001 is 10^(6000-k) and is read as 10^(4999-k) |
| `DecimalScan.FlConvert` | lib/cpp/floating.cpp:177-376 | the whole conversion: accepted exactly on constants, the value that is read within both bounds, and the constant's own value when its exponent is not cut; normalised, or zero if the constant is |
| `DecimalPrinting.PrintedIsMeant` | lib/cpp/floating.cpp:130-242 | digits of a table, a point, more digits, an E in either case, a sign or none and digits write the number they say |
| `DecimalPrinting.PrintedPlain` | lib/cpp/floating.cpp:187-242 | without an exponent they write the digits with their point |
| `FloatShift.ShiftRight` | lib/cpp/floating.cpp:577-601 | division by 2^i for every i > 0 below 192 or divisible by 32; exactly the other shifts read a limb before the mantissa and leave its bits |
| `FloatRound.NearestMeans` | lib/cpp/floating.cpp:447-463 | the rounded multiple is the one at most half a unit away, even if exactly half |
| `FloatRound.RoundNearest` | lib/cpp/floating.cpp:439-463 | the kept bits are that multiple, carried across any number of limbs; a run-over is reported |
| `FloatRound.ShiftThenRound` | lib/cpp/floating.cpp:839-840 | shifting first gives the nearest if and only if the bits shifted out do not alone decide |
| `FloatRound.JustOverHalf` | lib/cpp/floating.cpp:839-840 | a number just over half is rounded down |
| `FloatFormat.FormatsAreSane` | lib/cpp/floating.cpp:629-634 | the six formats fill their bytes |
| `FloatFormat.NumbersOf8` | lib/cpp/floating.cpp:629 | how 1 and the largest number are written in 8 bits |
| `FloatFormat.NumbersOf16` | lib/cpp/floating.cpp:630 | how 1 and the largest number are written in 16 bits |
| `FloatFormat.NumbersOf32` | lib/cpp/floating.cpp:631 | how 1 and the largest number are written in 32 bits |
| `FloatFormat.NumbersOf64` | lib/cpp/floating.cpp:632 | how 1 and the largest number are written in 64 bits |
| `FloatFormat.NumbersOf80` | lib/cpp/floating.cpp:633 | how 1 and the largest number are written in 80 bits |
| `FloatFormat.NumbersOf128` | lib/cpp/floating.cpp:634 | how 1 and the largest number are written in 128 bits |
| `FloatFormat.RoundedIsNearest` | lib/cpp/floating.cpp:815-840 | the same of a mantissa and a format |
| `FloatFormat.ShiftAndRound` | lib/cpp/floating.cpp:815-816 | the kept bits are the rounded significand after any shift, one that reads before the mantissa included |
| `FloatFormat.RoundedToPower` | lib/cpp/floating.cpp:837-841 | the mantissas that are rounded to a power of two |
| `FloatFormat.DecodeComposed` | lib/cpp/floating.cpp:603-616 | sign, exponent field and fraction are read back from the bits they are put in |
| `FloatFormat.EncodeNormal` | lib/cpp/floating.cpp:837-855 | the rounded significand, halved with the exponent raised if it ran over, and the fields; when that is too large |
| `FloatFormat.EncodeDenormal` | lib/cpp/floating.cpp:811-835 | the rounded significand without its leading one, the least normal number, or zero under flushing, for every shift; which shifts stay inside the mantissa |
| `FloatFormat.SetInfinite` | lib/cpp/floating.cpp:857-865 | the fields of infinity |
| `FloatFormat.WriteSpecial` | lib/cpp/floating.cpp:857-876 | the bytes of a quiet or signalling NaN or of infinity, with their fields |
| `FloatFormat.QuietBit` | lib/cpp/floating.cpp:866-869 | the first bit of the fraction is set in a quiet NaN and clear in a signalling one |
| `FloatFormat.WriteBytes` | lib/cpp/floating.cpp:875-876 | the kept bits, lowest byte first |
| `FloatFormat.NumberBecomesNaN` | lib/cpp/floating.cpp:785-792 | a number is written as not a number if and only if its exponent equals the largest and its mantissa lies between two given bounds |
| `FloatFormat.TooLarge` | lib/cpp/floating.cpp:785-792 | one and a half times the first power too large is such a number, in every format |
| `FloatFormat.ToFloat` | lib/cpp/floating.cpp:778-879 | the bytes, read back by the rules of the format, are the rounded number, zero, infinity or, for exactly that range, not a number |
| `DecimalToFloat.RoundedIsClose` | lib/cpp/floating.cpp:815-840 | a rounded significand lies within half a unit, and the part the shift hides, of the number |
| `DecimalToFloat.EncodedIsWritten` | lib/cpp/floating.cpp:778-865 | what is written is close to the number, zero for a flushed denormal, and not finite only from half a unit above the largest number on |
| `DecimalToFloat.BoundedIsNearest` | lib/cpp/floating.cpp:260-463 | away from the rounding boundaries conversion and rounding together give the nearest multiple of the unit |
| `DecimalToFloat.NothingNearer` | lib/cpp/floating.cpp:439-463 | then no other number of the format is as near, unless its unit changes at the one written |
| `DecimalToFloat.DecimalConstant` | lib/cpp/floating.cpp:748-879 | the decimal reader, from text to bytes: for a constant the number written lies within the conversion's bounds and one rounding of its value, and is the nearest multiple of its unit when no rounding boundary is that near; for any other text a NaN is written |
| `DecimalToFloat.TextToFloat` | lib/cpp/floating.cpp:710-879 | only the empty text is refused and then nothing is written; `__infinity__` in any case writes infinity, `__nan__` and `__qnan__` a NaN with the first fraction bit set, `__snan__` one with it clear; a constant writes its number, and any other text for the decimal reader a quiet NaN |
| `DecimalToFloat.PlainDecimal` | lib/cpp/floating.cpp:748-776 | a text goes to the decimal reader as it is unless it is a name, begins with $ or a prefix, or ends in P |
| `DecimalToFloat.PrefixedDecimal` | lib/cpp/floating.cpp:763-766 | behind 0d or 0t exactly the text that follows goes to it, so it writes what that text does |
| `DecimalToFloat.ElsewhereMeans` | lib/cpp/floating.cpp:716-776 | which texts the packed and the binary readers get |
| `DecimalToFloat.TinyConstantLeavesTheMantissa` | lib/cpp/floating.cpp:813-815 | 1e-100 as a single reads a limb before the mantissa |

## Left out

- SingleLineMacros.Expander.Expand: does not model macros with parameters, `%+` pasting, the context of local macros, nor `__FILE__`, `__LINE__` and `__BITS__`, because they delete end markers early, retokenize or read outside state.
- LineMachine.Preprocess: does not model multi-line macros, includes, a %rep whose count cannot be evaluated, nor conditions left open at the end of the file; every other directive and every expression is an arbitrary function of an abstract environment.
- PassLoop.Assembler.AssembleFile: instruction sizes and expression values are arbitrary functions of text, label table and location; the absolute section, local label names, `..@` labels and the offset a label created after the first pass is compared with are not modelled.
- Vectors.AddVectorsIsAddition: stated for vectors without unknown and far-absolute terms, because with them the source drops or keeps terms by other rules, which `Vectors.SumVectors` follows.
- Evaluator.Evaluate: does not model WRT, the float and string functions, nor hints; what an atom and SEG stand for is a parameter.
- Evaluator.NumbersAreEvaluated: shift counts of 64 and more and the signed quotient that overflows are excluded, because C does not define them.
- EvaluatorLaws.ShiftLaw: for shift counts below 64 only, and EvaluatorLaws.SignedDivisionLaw without the quotient that overflows, for the same reason.
- EvaluatorLaws.OrderLaw: numbers 2^31 and more apart are compared right or not as `Evaluator.ComparisonIsRight` says.
- HashTable.Table.Find: the hash function and the case folding are parameters; `hash_iterate` and freeing are not modelled.
- ChunkedBuffer.Buffer.Send: does not model running out of memory nor lengths beyond the machine's size type.
- RadixArray.Array.Set: indices of 2^60 and more are excluded, because the coverage shift then leaves the 64-bit word; leaves and branches are two fields where the source has a union.
- Disassembler.Session.Run: instruction decoding, the printing itself and command-line options are not modelled.
- SyncRanges.RangesAreKeptClear: for ranges that begin together and end apart while `disasm` also adds points, the exact condition is on the calls of a run, not on the ranges alone, because adding points rearranges the heap that decides between them; ranges and file are taken to stay within 32 bits.
- DecimalScan.FlConvert: digit counts are not limited to 32 bits; constants with a base prefix (`ieee_flconvert_bin`) and packed BCD are not modelled.
- FloatRound.RoundNearest: directed rounding modes are not modelled; for them adding the guard bit where it is clear does not carry.
- DecimalToFloat.TextToFloat: does not model texts for the packed and the binary readers; the letter of a name of one character, which the source reads behind the text, is taken to be NUL; a limb read before the mantissa is an arbitrary one. Of the bytes of a constant it says which numbers they may stand for, so two texts of one constant, with 0d and without, are shown to meet the same bounds rather than to give equal bytes.
- DecimalToFloat.NothingNearer: not stated for a number that is a power of two, where the unit below it is half as large.
- Output formats, instruction tables, listing, logging, files and the command line: only easy members or interfaces without visible implementations.
- The red-black tree, `regar.c` and the host arithmetic of `arith.c`: not modelled.
