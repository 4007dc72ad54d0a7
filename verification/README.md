# Compiler infrastructure: a verified model of its hard parts

Dafny models of seven components of a compiler infrastructure, each with proofs of what the component is for.

* **BrainF compiler** (`brainf_*.dfy`). A one-pass recursive compiler from characters to an SSA control-flow graph,
  with one token of lookahead and fusion of runs. `BrainFLanguage` interprets the language table one character at a
  time, `BrainFTokens` the fused tokens, `BrainFIR` gives the blocks a step semantics, `BrainFCodegen` is the generator
  as a fold over tokens, `BrainFCompiler` the class that reads characters and appends to blocks. The theorems relate
  characters to the blocks (`BrainFTheorems`) and show that the blocks are well-formed SSA (`BrainFSSA`).
* **Address arithmetic of the basic alias analysis** (`aa_*.dfy`). Machine-width arithmetic (`MachineArithmetic`), reading
  an index as `Scale*V + Offset` (`LinearExpressions`), the walk over a chain of GEPs (`GepDecomposition`) and its indices
  narrower than the pointer (`NarrowIndices`), bytes on the address circle (`AddressCircle`), differences and the tests
  (`GepAliasing`, `OffsetHeuristics`), the alias query itself (`AliasAnswers`), across iterations of loops (`AliasCycles`),
  when it must decide (`AliasCompleteness`), and fields of structs in arrays (`FieldOverlap`).
* **Mass distribution of block frequencies** (`bfi_*.dfy`). Fixed-point probabilities (`BranchProbabilities`), combining
  weights (`WeightCombining`, `Distributions`, `Proportions`), the dithering distributer (`Dithering`), a whole pass over a loop
  (`MassDistribution`) and the headers of irreducible loops (`IrreducibleLoops`).
* **Control-flow walks** (`cfg_*.dfy`). Back edges by a depth-first search (`Backedges`) and bounded reachability
  (`Reachability`) over the graphs of `ControlFlow`.
* **Alias set tracker** (`ast_*.dfy`). A forest of forwarding sets with reference counts: the invariant
  (`AliasSetForest`), the steps that keep it (`AliasSetSteps`), dropping references and compressing chains
  (`AliasSetReferences`), merging (`AliasSetMerging`), what becomes of unknown instructions (`AliasSetInstructions`), which
  sets are joined (`AliasSetJoining`), the tracker (`AliasSetTracking`), and what it is for: that no two sets have to do with
  the same memory (`AliasSetDisjointness`), over whole runs (`AliasSetRuns`).
* **Thread gate** (`gate_threads.dfy`). Critical sections as atomic steps over any number of threads and rounds.
* **Post-dominance by unreachable and cold code** (`bpi_unreachable.dfy`). The pass over a post-order.

`dafny verify dfyconfig.toml` checks everything.

## Where the code does not do what it says

Each of these is proved, with the input that shows it and with the condition under which the code does meet the property.

* The field overlap test adds offsets and sizes in 64 bits, and an end that wraps can pass its guards
  (`FieldTestCounterexample`; right exactly if none does, `FieldTestExactIff`).
* Folding constants below a sign extension is exact if and only if their signed sum fits in the narrow width
  (`FoldExactIff`, `SExtFoldCounterexample`).
* A factor below a sign extension is kept unsigned (`SExtProductCounterexample`; right exactly under the condition of
  `SExtProductIff`).
* A sign extension of a value with a zero extension further inside is taken for a zero extension
  (`SExtAsZExtCounterexample`; right exactly if the sign bit is clear, `SExtAsZExtIff`).
* An index narrower than the pointer is extended by the decomposition although its sum may have wrapped
  (`NarrowIndexCounterexample`; per valuation `NarrowIndexExactIff`, for all valuations `NarrowIndexAlwaysExactIff` and,
  without flags, `UnflaggedExactIff`). In one bit the scale 1 is read as -1, so that an index of one bit is decomposed
  wrongly even if it is a plain variable.
* With pointers narrower than 64 bits the comparison of constant distances is made in 64 bits
  (`ConstantBranchCounterexample`; right exactly under the condition of `ConstantAnswerHoldsIff`).
* The constant-offset heuristic takes the distance of the narrow values, scaled, for a distance of addresses. It is one
  on the line. On the address circle the answer holds if every difference that the two variables can have, scaled, leaves
  room there; for variables without flags exactly then (`HeuristicCounterexample`, `HeuristicWithRoom`, `HeuristicExactIff`).
* After the total of a distribution has overflowed, shifting by 33 need not make it fit in 32 bits
  (`TwoHeavyTargets`; for any number of targets `FitsIff`).
* A saturated alias set tracker loses its only set when its last pointer is deleted and no unknown instruction is left, and
  goes on to point to it (`SaturateAndEmpty`, `DeleteFromSaturated`).
* Alias sets are meant to be disjoint. Each single operation keeps them so as long as, in a set of pointers that must alias,
  the first is as large as any, because only that one is compared; but a known pointer can grow beyond the first, and the
  first can be deleted. Then a later pointer can be put in another set although it conflicts (`GrownCounterexample`). The
  first pointers stay in the lead exactly under the conditions of `GrownApart` and `DeletedApart`; without that, a new pointer
  is put right exactly under the condition of `InsertedDisjointIff`; sizes that never grow are enough (`Run`).
* A second releaser that asks the thread gate for fewer workers lets the first one through too early
  (`SecondReleaserCounterexample`, `SecondReleaserIff`; with any number of releasers `EnoughForAllIff`).
* The instruction form of the reachability query answers true for an instruction in the entry block even if the
  other block cannot be reached from there (`EntryCounterexample`; right exactly if it can, `IsPotentiallyReachable`).

## Model

| member | source | states |
|---|---|---|
| BrainFLanguage.Brackets | examples/BrainF/BrainF.cpp:12-22 | at every place of the text stands its bracket; everything else stands for no bracket |
| BrainFLanguage.NestingIsBalance | examples/BrainF/BrainF.cpp:426-430 | the depth at a place is the number of loops begun less the number ended, as long as no bracket before closes a loop that was not open, and negative for good after one that does; so it counts what `readloop` has open |
| BrainFLanguage.SkipForwardMatches | examples/BrainF/BrainF.cpp:20-21 | skipping a loop whose cell is zero ends just behind the matching bracket: the first one that closes one loop more than were opened since; at the end if there is none |
| BrainFLanguage.ScanBackMatches | examples/BrainF/BrainF.cpp:21-22 | jumping back ends at the matching bracket: the nearest one that opens one loop more than were closed since; at the beginning if there is none |
| BrainFLanguage.CharRunStays | examples/BrainF/BrainF.cpp:12-22 | a text that has been read to its end, one character at a time, stays there |
| BrainFTokens.LexCases | examples/BrainF/BrainF.cpp:324-423 | reading one character either starts, continues or ends a run, and comments disappear |
| BrainFTokens.RunsAreMaximal | examples/BrainF/BrainF.cpp:338-422 | runs are as long as they can be: behind a run of changes comes no change, behind a run of moves no move |
| BrainFTokens.FusedPair | examples/BrainF/BrainF.cpp:345-381 | doing a fused run is doing its parts one after the other, for all counts, modulo 256 for cells |
| BrainFTokens.SkipAgrees | examples/BrainF/BrainF.cpp:292-312 | jumping over a loop in the characters and in the tokens arrives at the same place |
| BrainFTokens.BackAgrees | examples/BrainF/BrainF.cpp:426-456 | jumping back to the beginning of a loop in the characters and in the tokens arrives at the same place |
| BrainFTokens.NestingAgrees | examples/BrainF/BrainF.cpp:292-312 | characters and tokens are nested equally deeply at corresponding places |
| BrainFTokens.CharactersKeepPace | examples/BrainF/BrainF.cpp:324-423 | for every number of token steps there is a number of character steps that leads to the same machine |
| BrainFTokens.FusionPreservesMeaning | examples/BrainF/BrainF.cpp:324-423 | run fusion and one-token lookahead preserve meaning: the fused tokens end in a machine if and only if the text, interpreted character by character, does |
| BrainFIR.RunAdds | examples/BrainF/BrainF.cpp:192-476 | running a graph for a + b steps is running it for b steps from where a steps lead |
| BrainFCodegen.HeaderShape | examples/BrainF/BrainF.cpp:65-190 | the blocks made before any text is read, with and without bounds checks, satisfy the shape invariant of the generator |
| BrainFCodegen.EmitShape | examples/BrainF/BrainF.cpp:202-320 | every token keeps the shape invariant: one open insertion block, finished blocks elsewhere, one waiting test block with a half-made phi per open loop |
| BrainFCodegen.AbortsIffUnbalanced | examples/BrainF/BrainF.cpp:426-475 | compilation aborts if and only if the brackets of the text are not balanced; with an extra bracket error or a missing bracket error |
| BrainFCodegen.OpensTrack | examples/BrainF/BrainF.cpp:292-312 | after any part of the text the open loops of the generator are those of the brackets, innermost last |
| BrainFCodegen.LoopInGraph | examples/BrainF/BrainF.cpp:292-467 | in the finished graph every loop has its test block: a phi with the entering and the returning head, a load, a test for zero, and branches to body and exit |
| BrainFSimulation.SimpleToken | examples/BrainF/BrainF.cpp:209-244 | the code of a read, a write or a change does to the world what the token does |
| BrainFSimulation.FreeMove | examples/BrainF/BrainF.cpp:246-252 | the code of an unchecked move moves the head by the count of the run |
| BrainFSimulation.RunCheckedMove | examples/BrainF/BrainF.cpp:254-274 | the code of a checked move branches to the error block exactly when the head is outside the tape |
| BrainFSimulation.StepLoop | examples/BrainF/BrainF.cpp:292-312 | entering a loop, or skipping it, is what the branch in the test block does |
| BrainFSimulation.StepEndLoop | examples/BrainF/BrainF.cpp:426-467 | coming back to the test of a loop goes into the body again or to the block behind it |
| BrainFSimulation.TokenIsSteps | examples/BrainF/BrainF.cpp:192-476 | whatever one token does, some positive number of instructions of the graph does, keeping world, head and position related |
| BrainFTheorems.GraphKeepsPace | examples/BrainF/BrainF.cpp:192-476 | for any number of token steps the graph takes at least as many instruction steps and is in the related place |
| BrainFTheorems.CompilerCorrect | examples/BrainF/BrainF.cpp:192-476 | without bounds checks, for every accepted text, every memory size, every initial contents of the memory and every input: interpreting the text one character at a time ends in a machine if and only if the generated graph returns with that output, tape and head; so one ends exactly when the other does |
| BrainFTheorems.RunsSafely | examples/BrainF/BrainF.cpp:119-127 | with bounds checks and a tape that is not empty, after any number of steps the graph is not stuck: no load or store is outside the tape, no register is undefined |
| BrainFTheorems.CheckedAgrees | examples/BrainF/BrainF.cpp:254-274 | a run with bounds is lost exactly if some move of the run without bounds leaves the tape before, and otherwise the two are equal |
| BrainFTheorems.ErrorIffMoveLeavesTape | examples/BrainF/BrainF.cpp:254-274 | the graph prints the error and returns exactly when a fused move of the text ends outside the tape |
| BrainFTheorems.CheckedCompilerCorrect | examples/BrainF/BrainF.cpp:192-476 | with bounds checks, if no fused move leaves the tape, text and graph agree as without them |
| BrainFSSA.CertifiedIsWellFormed | examples/BrainF/BrainF.cpp:246-312 | the invariant of the generator implies single definitions, one terminator per block, one phi entry per predecessor, and uses dominated by definitions on every path from the entry |
| BrainFSSA.TerminateCertified | examples/BrainF/BrainF.cpp:292-467 | ending a block with a branch and giving the phi of its target an entry keeps the invariant |
| BrainFSSA.GeneratedCodeIsWellFormed | examples/BrainF/BrainF.cpp:65-476 | the graph of every accepted text, for both flag settings, is well formed in that sense |
| BrainFCompiler.BrainF.WriteHeader | examples/BrainF/BrainF.cpp:65-190 | the builder makes the entry, the end and the error block of the specification |
| BrainFCompiler.BrainF.WriteRead | examples/BrainF/BrainF.cpp:209-224 | appends the code of a read at the insertion point |
| BrainFCompiler.BrainF.WriteWrite | examples/BrainF/BrainF.cpp:226-244 | appends the code of a write |
| BrainFCompiler.BrainF.WriteChange | examples/BrainF/BrainF.cpp:278-290 | appends the code of a change |
| BrainFCompiler.BrainF.WriteMove | examples/BrainF/BrainF.cpp:246-276 | appends the code of a move and, if checked, the test and the next block |
| BrainFCompiler.BrainF.BeginLoop | examples/BrainF/BrainF.cpp:292-310 | makes test and body block and the first half of the phi |
| BrainFCompiler.BrainF.EndTheLoop | examples/BrainF/BrainF.cpp:432-464 | completes the phi, writes the test and goes on behind the loop |
| BrainFCompiler.BrainF.ReadLoop | examples/BrainF/BrainF.cpp:192-476 | the recursion: with no lookahead pending when a bracket is handled, what has been emitted and what is left of the text are those of the token fold; false exactly when the source aborts |
| BrainFCompiler.BrainF.TakeChar | examples/BrainF/BrainF.cpp:338-422 | one character read by the inner loop extends the run, starts the next symbol or is ignored, so that the symbols in hand and the rest of the text stay the same tokens |
| BrainFCompiler.BrainF.Parse | examples/BrainF/BrainF.cpp:53-63 | the outcome is that of the token fold; compiled if and only if the brackets balance; the graph is well formed and, unchecked, means what the text means |
| MachineArithmetic.SignedCong | lib/Analysis/BasicAliasAnalysis.cpp:365-369 | sign extension from w bits changes a number by a multiple of 2^w only |
| MachineArithmetic.SignedUnique | lib/Analysis/BasicAliasAnalysis.cpp:365-369 | the w-bit signed number congruent to a number is the only one |
| MachineArithmetic.LowestBitIsPower | lib/Analysis/BasicAliasAnalysis.cpp:1364-1364 | `m ^ (m & (m - 1))` is the largest power of two that divides m |
| MachineArithmetic.MaskIsRemainder | lib/Analysis/BasicAliasAnalysis.cpp:1369-1369 | masking with a power of two less one is the remainder |
| MachineArithmetic.DisjointOrAdds | lib/Analysis/BasicAliasAnalysis.cpp:259-268 | the or of numbers without a common bit is their sum |
| LinearExpressions.LinearIsAffine | lib/Analysis/BasicAliasAnalysis.cpp:221-359 | for every index built from constants, add, sub, mul, shl, disjoint or, zero extensions, and sign extensions that can be read (of something taken as it is, of a zero extension, or of a sum without signed wraps whose constants fit), and every valuation without poison: Scale*V + Offset, V extended as its bits say, is the value modulo its own width and, while the no-unsigned-wrap flag holds, modulo the outermost width |
| LinearExpressions.FoldExactIff | lib/Analysis/BasicAliasAnalysis.cpp:320-327 | for every sum of constants without signed wraps below a sign extension, additions, subtractions and disjoint ors mixed and as deep as the analysis looks, and every valuation without poison: folding the constants is exact if and only if their signed sum fits in the narrow width |
| LinearExpressions.SExtFoldExactIff | lib/Analysis/BasicAliasAnalysis.cpp:320-327 | so it is for chains of additions |
| LinearExpressions.SExtFoldCounterexample | lib/Analysis/BasicAliasAnalysis.cpp:320-327 | two additions of 100 in 8 bits below a sign extension are decomposed to a wrong value |
| LinearExpressions.SExtAsZExtIff | lib/Analysis/BasicAliasAnalysis.cpp:338-350 | a sign extension of anything with a zero extension further inside is taken for a zero extension, which is exact if and only if the sign bit of what is extended is clear |
| LinearExpressions.SExtAsZExtCounterexample | lib/Analysis/BasicAliasAnalysis.cpp:338-350 | 0, zero extended to 8 bits, plus 200, sign extended to 16 bits, is decomposed to a wrong value |
| LinearExpressions.SExtProductIff | lib/Analysis/BasicAliasAnalysis.cpp:279-284 | a multiplication by a constant below a sign extension keeps its factor unsigned, which is exact if and only if the factor is not negative or the variable makes the difference vanish |
| LinearExpressions.SExtProductCounterexample | lib/Analysis/BasicAliasAnalysis.cpp:279-284 | 1 times -1 in 8 bits, sign extended to 16 bits, is decomposed to 255 times 1 |
| GepDecomposition.GetLinearExpression | lib/Analysis/BasicAliasAnalysis.cpp:221-359 | the recursion that changes scale, offset, extensions and flags by reference computes the specification |
| GepDecomposition.DecomposedGEP.TakeEntry | lib/Analysis/BasicAliasAnalysis.cpp:499-510 | the entry for the variable, if there is one, is taken out of the list and its scale returned |
| GepDecomposition.DecomposedGEP.AddVariable | lib/Analysis/BasicAliasAnalysis.cpp:474-523 | changes the list and the offset as the specification of one variable index does |
| GepDecomposition.DecomposedGEP.AddIndex | lib/Analysis/BasicAliasAnalysis.cpp:448-523 | the same for struct members, constant and variable indices |
| GepDecomposition.DecomposedGEP.DecomposeGEPExpression | lib/Analysis/BasicAliasAnalysis.cpp:384-539 | the walk that changes base, offsets and variables in place computes the specification, for every pointer, and reports whether it stopped at its limit |
| GepDecomposition.MovesVariable | lib/Analysis/BasicAliasAnalysis.cpp:483-523 | what a variable index adds to the constants and to the variables is its offset |
| GepDecomposition.LinearWidth | lib/Analysis/BasicAliasAnalysis.cpp:479-491 | the variable, with its extensions, is as wide as the index |
| GepDecomposition.WithVariableExact | lib/Analysis/BasicAliasAnalysis.cpp:474-523 | folding in one index, as wide as the pointer or wider, or narrower and a sum without signed wraps, is exact: constants and variables together move by its offset for every valuation |
| GepDecomposition.DecomposeIsExact | lib/Analysis/BasicAliasAnalysis.cpp:384-539 | for every chain of GEPs and casts with such indices, of any width, every valuation and every placement of the bases: base + constants + the sum of Scale*V is congruent to the address modulo 2^pointer width; for every chain: no key twice, no scale zero, every scale in range |
| NarrowIndices.NarrowIndexExactIff | lib/Analysis/BasicAliasAnalysis.cpp:479-523 | for every index narrower than the pointer that is a chain of additions of constants, with any flags, for every element size, every list so far and every valuation: the decomposition moves by the offset of the index if and only if the signed variable plus the folded constant fits in the width of the index (in one bit: the variable is zero or the constant is not), or a wrap goes around the whole address circle |
| NarrowIndices.NarrowIndexAlwaysExactIff | lib/Analysis/BasicAliasAnalysis.cpp:479-523 | it does so for all valuations without poison if and only if it does at the 2n + 2 values where one of the n + 1 partial sums is zero or the least signed number |
| NarrowIndices.UnflaggedExactIff | lib/Analysis/BasicAliasAnalysis.cpp:479-497 | without flags that is so if and only if the folded constant is zero; in one bit, if and only if it is not zero |
| NarrowIndices.NswExactIff | lib/Analysis/BasicAliasAnalysis.cpp:479-497 | if all additions promise not to wrap signed, then for every value that keeps the promise the sum fits if and only if the sum of the signed constants fits |
| NarrowIndices.NarrowIndexCounterexample | lib/Analysis/BasicAliasAnalysis.cpp:483-497 | 127 + 1 in 8 bits, extended to 16, is decomposed to a wrong offset, whatever was decomposed before |
| GepAliasing.LessExact | lib/Analysis/BasicAliasAnalysis.cpp:1737-1771 | the symbolic difference is exact for every valuation modulo 2^64; scales stay in range, none is zero, only variables of the two lists occur, and distinct ones stay distinct unless a value is unstable across cycles |
| GepAliasing.DifferenceBelow | lib/Analysis/BasicAliasAnalysis.cpp:1744-1768 | the scales of the difference of two lists for pointers of some width are smaller than 2^width in size |
| GepAliasing.SubtractOne | lib/Analysis/BasicAliasAnalysis.cpp:1744-1768 | subtracting one variable in place computes the specification |
| GepAliasing.GetIndexDifference | lib/Analysis/BasicAliasAnalysis.cpp:1737-1771 | subtracting one list from the other in place, entry after entry, gives that difference |
| GepAliasing.ModuloIsLargest | lib/Analysis/BasicAliasAnalysis.cpp:1328-1364 | the bit trick on the or of the scales yields the largest power of two that divides every scale |
| GepAliasing.ScaleModulo | lib/Analysis/BasicAliasAnalysis.cpp:1328-1364 | the loop over the scales computes that power |
| GepAliasing.ModuloTestIsSound | lib/Analysis/BasicAliasAnalysis.cpp:1366-1373 | if the modulo test fires, the two accesses are disjoint on the address circle for every assignment to any number of variables |
| GepAliasing.LeastDistanceIsLeast | lib/Analysis/BasicAliasAnalysis.cpp:1810-1816 | numbers that differ by d modulo 2^w are at least the smaller of the two distances apart |
| GepAliasing.ConstantOffsetHeuristic | lib/Analysis/BasicAliasAnalysis.cpp:1773-1825 | computes the specification of the heuristic |
| GepAliasing.HeuristicKeepsApart | lib/Analysis/BasicAliasAnalysis.cpp:1773-1825 | whenever the heuristic answers, then for every value of the shared variable, wrap-around of the narrow sums included, the exact difference of the addresses leaves room for both accesses |
| AddressCircle.RoomIffDisjoint | lib/Analysis/BasicAliasAnalysis.cpp:1820-1824 | two accesses have no byte in common on the address circle if and only if the distance leaves room for both on its two sides |
| AddressCircle.DisjointByDifference | lib/Analysis/BasicAliasAnalysis.cpp:1366-1373 | whether accesses have a byte in common depends on the difference of their addresses modulo 2^width only |
| OffsetHeuristics.TwoDifferences | lib/Analysis/BasicAliasAnalysis.cpp:1805-1810 | two numbers from one range of 2^w, signed or not, that differ by d modulo 2^w have one of two exact differences; and which, depends on the residues the second can have |
| OffsetHeuristics.MultiplesReached | lib/Analysis/BasicAliasAnalysis.cpp:1785-1803 | in w bits, multiplying by S reaches every multiple of the common power of two of S and 2^w |
| OffsetHeuristics.HeuristicWithRoom | lib/Analysis/BasicAliasAnalysis.cpp:1773-1824 | for two variables of the form S*V + a and S*V + b, whatever their flags, extended by zeros or by their sign: if every difference they can have, scaled, leaves room on the circle, the answer holds for every value |
| OffsetHeuristics.HeuristicExactIff | lib/Analysis/BasicAliasAnalysis.cpp:1773-1824 | without flags, and with V as wide as they are: the accesses are disjoint for every value of V if and only if every difference they can have leaves room; with d = a - b and g the common power of two of S and 2^w, the difference d occurs if and only if b modulo g + d < 2^w, and d - 2^w if and only if b modulo g + d >= g |
| OffsetHeuristics.HeuristicExactlyWhen | lib/Analysis/BasicAliasAnalysis.cpp:1805-1824 | for x + c and x: if and only if c and, unless it is zero, c - 2^w leave room |
| OffsetHeuristics.HeuristicAtFullWidth | lib/Analysis/BasicAliasAnalysis.cpp:1805-1824 | when the heuristic answers for variables as wide as the pointer, the answer holds for every value if the distance it computes does not, with the sizes, go around the circle |
| OffsetHeuristics.HeuristicIsSound | lib/Analysis/BasicAliasAnalysis.cpp:1773-1825 | when the heuristic answers and the scaled range of the variables cannot go around the address circle, the answer holds for every value |
| AliasAnswers.ConstantAnswerHoldsIff | lib/Analysis/BasicAliasAnalysis.cpp:1291-1326 | for pointers of any width and accesses of any size, unknown sizes included, the answer for a constant distance holds if and only if: no alias, the distance leaves room for both accesses on the circle; partial alias, it is no multiple of 2^width and no access is empty; must alias, always |
| AliasAnswers.ConstantAnswerHolds | lib/Analysis/BasicAliasAnalysis.cpp:1291-1326 | with 64-bit pointers it holds for all accesses of one up to 2^63 bytes |
| AliasAnswers.ConstantBranchCounterexample | lib/Analysis/BasicAliasAnalysis.cpp:1303-1309 | with 32-bit pointers the query answers no alias for two indices of elements of eight bytes, x + 2^29 and x, which are always the same address |
| AliasAnswers.AliasGEP | lib/Analysis/BasicAliasAnalysis.cpp:1173-1390 | decomposes both pointers, subtracts, and answers by the constant distance, the modulo test and the heuristic, in that order; for all pointers of up to 64 bits. When each of them must and may answer is said by the next rows |
| AliasAnswers.DifferenceIsExact | lib/Analysis/BasicAliasAnalysis.cpp:1173-1290 | for pointers of any width, every valuation and placement of the bases, the addresses differ by the constant and the variables of the symbolic difference |
| AliasCycles.LessMixed | lib/Analysis/BasicAliasAnalysis.cpp:1708-1771 | for two iterations of a loop in which all values but the unstable ones are the same: the difference of two lists, one looked at in the first and one in the second iteration, is exact when each entry of the result is looked at in one of them; an entry is subtracted from another only if both iterations have the same value for it |
| AliasCycles.DifferenceIsMixed | lib/Analysis/BasicAliasAnalysis.cpp:1173-1290 | so the addresses in the two iterations differ by the constant and those variables |
| AliasCycles.AliasAnswerHolds | lib/Analysis/BasicAliasAnalysis.cpp:1291-1390 | end to end, for pointers of any width looked at in the same or in different iterations, every valuation, every placement of the bases and accesses of any size: an answer by the constant distance holds if and only if the condition above is met, is must alias if and only if the distance is zero, and is left open only between different addresses with an unknown size that matters; an answer by the modulo test always holds; an answer by the heuristic holds when every difference leaves room on the circle |
| AliasCompleteness.SameBaseIff | lib/Analysis/BasicAliasAnalysis.cpp:384-539 | two pointers are compared if and only if they start from the same base, through fewer than six casts and GEPs each |
| AliasCompleteness.ReadsThrough | lib/Analysis/BasicAliasAnalysis.cpp:221-302 | an index is read through up to six additions, subtractions, multiplications, shifts and disjoint ors, to what is below them |
| AliasCompleteness.ReadsThroughExtension | lib/Analysis/BasicAliasAnalysis.cpp:303-353 | a zero extension of such operations that do not wrap around, and a sign extension of such operations that do not as signed ones, is read through as well, and its bits are counted |
| AliasCompleteness.DistanceAnswerExact | lib/Analysis/BasicAliasAnalysis.cpp:1291-1326 | for 64-bit pointers a constant apart, in the same or in different iterations: must alias is answered if and only if the addresses are equal; for sizes of 1 to 2^63 bytes no alias if and only if the accesses are disjoint, and partial alias if and only if the addresses differ and the accesses overlap; otherwise a size is unknown |
| AliasCompleteness.ModuloFiresIff | lib/Analysis/BasicAliasAnalysis.cpp:1366-1373 | for known sizes that are not zero the modulo test with a power of two fires if and only if the accesses are apart modulo that power |
| AliasCompleteness.ModuloDecidesIff | lib/Analysis/BasicAliasAnalysis.cpp:1328-1373 | the query is decided by the modulo test if and only if there is any power of two that divides every scale and keeps the accesses apart |
| AliasCompleteness.HeuristicFiresIff | lib/Analysis/BasicAliasAnalysis.cpp:1805-1825 | for two variables that differ by a constant, as long as no sum and no product leaves 64 bits: the heuristic fires if and only if every distance the two can have, scaled, leaves room for either access and the constant offset |
| AliasAnswers.HeuristicAnswerIff | lib/Analysis/BasicAliasAnalysis.cpp:1381-1383 | end to end, for pointers without flagged operations whose two variables have V of their own width in common: an answer by the heuristic holds for every valuation and placement of the bases if and only if every difference they can have leaves room |
| AliasAnswers.HeuristicCounterexample | lib/Analysis/BasicAliasAnalysis.cpp:1815-1824 | two pointers off one base, 4*(x + 2^62-1 + 0 + ... + 0) and 4*x with 64 bits, are answered no alias by the heuristic; when x is zero the accesses of eight bytes overlap |
| FieldOverlap.FieldTestExactIff | lib/Analysis/BasicAliasAnalysis.cpp:1087-1103 | for all 64-bit offsets and sizes: the answer holds, however many structs of the array lie between the accesses, if and only if an access is empty or no end passes the guards only because it wraps; accesses that cannot overlap always pass; so for accesses that are not empty the test is exact if and only if no end passes only because it wraps |
| FieldOverlap.WrappedEndOverlaps | lib/Analysis/BasicAliasAnalysis.cpp:1092-1097 | accesses that pass only because an end wraps do overlap |
| FieldOverlap.FieldTestCounterexample | lib/Analysis/BasicAliasAnalysis.cpp:1092-1097 | a size that makes the end of an access wrap is answered wrongly |
| BranchProbabilities.Numerator | lib/Support/BranchProbability.cpp:39-48 | the probability is the nearest fraction over 2^31, and exact for certainty |
| BranchProbabilities.Scale | lib/Support/BranchProbability.cpp:67-108 | multiplying and dividing in 32-bit digits is the quotient rounded down, held at 2^64-1, for every numerator, fraction and denominator |
| BranchProbabilities.DigitsOfProduct | lib/Support/BranchProbability.cpp:78-90 | the three digits are the product, and the carry does not overflow the highest |
| BranchProbabilities.LongDivision | lib/Support/BranchProbability.cpp:92-107 | dividing digit after digit is dividing the whole |
| BranchProbabilities.AddMass | include/llvm/Analysis/BlockFrequencyInfoImpl.h:103-110 | the wrap-around test makes addition saturate |
| BranchProbabilities.SubtractMass | include/llvm/Analysis/BlockFrequencyInfoImpl.h:112-120 | the wrap-around test makes subtraction stop at zero |
| WeightCombining.CombineWeight | lib/Analysis/BlockFrequencyInfoImpl.cpp:140-154 | adds a weight, saturating |
| WeightCombining.CombineWeightsBySorting | lib/Analysis/BlockFrequencyInfoImpl.cpp:156-175 | the in-place compaction leaves one entry per target with the saturated sum of all weights of that target, whatever order the sort gives to equal targets |
| WeightCombining.CombinedOnlyOneWay | lib/Analysis/BlockFrequencyInfoImpl.cpp:156-204 | any two ways of combining give the same multiset |
| WeightCombining.TargetSumPermutation | lib/Analysis/BlockFrequencyInfoImpl.cpp:157-160 | the sum for a target does not depend on the order |
| Distributions.CombineWeightsByHashing | lib/Analysis/BlockFrequencyInfoImpl.cpp:177-194 | the hash version, whatever the order of the table, also leaves one entry per target with the saturated sum |
| Distributions.FewTargets | lib/Analysis/BlockFrequencyInfoImpl.cpp:186-188 | if the table is as large as the list, no target occurs twice |
| Distributions.CombinedSum | lib/Analysis/BlockFrequencyInfoImpl.cpp:233-255 | combining never makes the sum larger, keeps it if it is below 2^64, and leaves at least 2^64-1 otherwise |
| Distributions.ShiftRounds | lib/Analysis/BlockFrequencyInfoImpl.cpp:206-212 | the shifted number is nearest to the quotient, ties upwards |
| Distributions.ShiftFits | lib/Analysis/BlockFrequencyInfoImpl.cpp:228-237 | the shift chosen from the leading zeros brings the total to between 2^30 and 2^31 |
| Distributions.NormalizedFits | lib/Analysis/BlockFrequencyInfoImpl.cpp:214-268 | after normalizing there is one entry per target and every amount is between 1 and 2^32-1; the total is their sum; it fits in 32 bits, as the final assertion demands, exactly under the condition below, and surely if the sum of the weights is below 2^64 and there are at most 2^31 of them, or if the sum plus 2^33 per weight is at most 2^65 |
| Distributions.FitsIff | lib/Analysis/BlockFrequencyInfoImpl.cpp:228-268 | for any number of targets: the total fits if and only if there is one target, nothing is shifted, or the combined weights with what each gains by rounding or by the lower limit of 1 are less than 2^32 times the shift |
| Distributions.TwoHeavyTargets | lib/Analysis/BlockFrequencyInfoImpl.cpp:231-268 | after an overflow with two targets the total does not fit exactly when both weights are at least 2^64 - 2^32 |
| Distributions.Distribution.Add | lib/Analysis/BlockFrequencyInfoImpl.cpp:123-138 | total and overflow flag together stay the sum of the weights; the assertion about a second overflow holds when the sum stays below 2^65 |
| Distributions.Distribution.CombineWeights | lib/Analysis/BlockFrequencyInfoImpl.cpp:196-204 | one entry per target, by either way |
| Distributions.Distribution.Normalize | lib/Analysis/BlockFrequencyInfoImpl.cpp:214-268 | weights and total become the normal form, which the next rows describe; the assertions inside hold |
| Proportions.NormalizedIffProportional | lib/Analysis/BlockFrequencyInfoImpl.cpp:214-268 | a distribution is the normal form if and only if, for the combined weights: one target has 1; a total that fits in 32 bits leaves the weights as they are; otherwise every amount is the quotient, rounded to the nearest number, upwards from the middle and at least 1, by one power of two, which brings the total to between 2^30 and 2^31, or is 2^33 after an overflow; and the total is the sum |
| Proportions.ProportionsAreKept | lib/Analysis/BlockFrequencyInfoImpl.cpp:228-268 | the proportions are kept: |r*Sum(c) - c*Sum(r)| <= Sum(c) + n*c for every one of the n targets, with combined weight c and amount r |
| Proportions.TotalIsLarge | lib/Analysis/BlockFrequencyInfoImpl.cpp:228-268 | no precision is given away: if anything is divided among n targets, twice the total is at least 2^31 - n and the total less than 2^31 + n; after an overflow, at least 2^32 - n and less than 2^32 + n |
| Dithering.Portion | lib/Analysis/BlockFrequencyInfoImpl.cpp:112-121 | a portion is at most the remaining mass, and all of it when the weight is all the remaining weight |
| Dithering.DitheringDistributer.constructor | lib/Analysis/BlockFrequencyInfoImpl.cpp:105-110 | normalizes and starts with the total weight and the whole mass |
| Dithering.DitheringDistributer.TakeMass | lib/Analysis/BlockFrequencyInfoImpl.cpp:112-121 | takes a portion and subtracts it and its weight |
| Dithering.NothingRemains | lib/Analysis/BlockFrequencyInfoImpl.cpp:76-92 | no mass is lost: when the weights add up to the total, nothing is left after the last portion |
| Dithering.ErrorBound | lib/Analysis/BlockFrequencyInfoImpl.cpp:76-121 | after k portions the remaining mass differs from Mass*RemWeight/Total by at most k*(Mass/(2D)+1), for every weight list and mass |
| MassDistribution.DeliverAdds | lib/Analysis/BlockFrequencyInfoImpl.cpp:440-456 | a delivery adds exactly what is delivered: no addition saturates |
| MassDistribution.SpreadGives | lib/Analysis/BlockFrequencyInfoImpl.cpp:440-456 | every block gets the portions of the local edges to it, every header those of the backedges to it, and every exit, in order, is a pair of its target and its portion; a portion is what is left before an edge less what is left after it |
| MassDistribution.SpreadConserves | lib/Analysis/BlockFrequencyInfoImpl.cpp:424-457 | the portions delivered and what is left add up to the mass that was there |
| MassDistribution.BlockConserves | lib/Analysis/BlockFrequencyInfoImpl.cpp:424-457 | a block with edges passes its whole mass on, one without keeps it |
| MassDistribution.LoopMasses.GetHeaderIndex | include/llvm/Analysis/BlockFrequencyInfoImpl.h:255-261 | the binary search finds the place of the header |
| MassDistribution.LoopMasses.DistributeMass | lib/Analysis/BlockFrequencyInfoImpl.cpp:424-457 | delivers to every edge of the normal form its portion, and to each block, header and exit what the edges of its kind to it are given and no more; no assertion of the distributer fails |
| MassDistribution.LoopMasses.DistributeIrrLoopHeaderMass | lib/Analysis/BlockFrequencyInfoImpl.cpp:833-842 | gives every header of an irreducible loop that has a weight its portion of the full mass, and changes no other block |
| MassDistribution.AssignedHolds | lib/Analysis/BlockFrequencyInfoImpl.cpp:833-842 | the masses given to the headers, and what is left, are the full mass |
| MassDistribution.GivesExactly | lib/Analysis/BlockFrequencyInfoImpl.cpp:424-457 | while no more than the full mass is there, nothing is cut off, and blocks visited before get nothing |
| MassDistribution.BalancedNext | include/llvm/Analysis/BlockFrequencyInfoImpl.h:1150-1222 | one more block visited keeps the equations of the masses |
| MassDistribution.LoopMasses.ComputeMassInLoop | include/llvm/Analysis/BlockFrequencyInfoImpl.h:1150-1222 | over a whole pass, with local edges only to later blocks: the masses solve the equations of the loop (every block has what it started with and the portions of the local edges to it, every header has got back the portions of the backedges to it, and what has left is the list of the portions of the exits, where portions are of the mass of the block the edge leaves, by a normal form of its edges); and what came back, what left and what stays at blocks without edges add up to exactly the full mass. An irreducible loop starts with the portions of its header weights, and with nothing if all are zero |
| IrreducibleLoops.FindIrreducibleHeaders | lib/Analysis/BlockFrequencyInfoImpl.cpp:676-741 | headers and others partition the component, sorted; the headers are exactly the entries and the nodes reached from a node that is neither an entry nor earlier: each header has a predecessor outside, or one inside that is not earlier and that no outside block leads to, and no other member has |
| IrreducibleLoops.EdgeBetweenOthers | lib/Analysis/BlockFrequencyInfoImpl.cpp:708-733 | an edge between two others leads to a strictly larger index |
| IrreducibleLoops.CycleHasHeader | lib/Analysis/BlockFrequencyInfoImpl.cpp:670-675 | every cycle of the component goes through a header |
| IrreducibleLoops.AddToDist | lib/Analysis/BlockFrequencyInfoImpl.cpp:290-350 | the edge is classified by the block it resolves to: a header, another member, or outside; gives up exactly at an edge from a block that is no header to an earlier member that is none |
| IrreducibleLoops.NeverAborts | lib/Analysis/BlockFrequencyInfoImpl.cpp:326-341 | in a loop made from a component no edge is such a backedge |
| IrreducibleLoops.LocalEdgesLeadLater | lib/Analysis/BlockFrequencyInfoImpl.cpp:743-763 | with the headers first, every local edge of the new loop leads to a later block, which is what the conservation of mass asks for |
| IrreducibleLoops.HeadersThenOthers | lib/Analysis/BlockFrequencyInfoImpl.cpp:743-763 | that order visits every block of the component once |
| Backedges.FindFunctionBackedges | lib/Analysis/CFG.cpp:27-66 | for every graph: the edges are those that the recursive depth-first search finds to close a cycle, in that order; every reported edge lies on a cycle that can be reached from the entry; every cycle that can be reached crosses a reported edge; every reported edge is needed for that (some cycle crosses no other), and is reported exactly as often as its source has slots to its target; every successor slot of every reachable block is looked at exactly once |
| Backedges.LookAtVisited | lib/Analysis/CFG.cpp:46-55 | looking at a successor that was visited, and reporting it if it is on the stack, keeps what the search knows |
| Backedges.GoDown | lib/Analysis/CFG.cpp:57-60 | so does going down to a new block |
| Backedges.GoUp | lib/Analysis/CFG.cpp:61-64 | so does finishing the top of the stack |
| Backedges.CyclesAreCut | lib/Analysis/CFG.cpp:27-66 | when the stack is empty, every cycle from the entry crosses a reported edge |
| Backedges.FinishedIsReachable | lib/Analysis/CFG.cpp:27-66 | when the stack is empty, exactly the reachable blocks are finished |
| Backedges.FinishDown | lib/Analysis/CFG.cpp:57-60 | going down to a new block does not change what the recursion will find |
| Backedges.StackTreePath | lib/Analysis/CFG.cpp:27-66 | up the stack there is a path of edges that led to new blocks |
| Backedges.WalkEnds | lib/Analysis/CFG.cpp:27-66 | such edges are never reported, so putting back one reported edge closes a cycle |
| Reachability.GetOutermostLoop | lib/Analysis/CFG.cpp:111-120 | follows the parents to the outermost loop |
| Reachability.LoopContainsBoth | lib/Analysis/CFG.cpp:122-128 | whether both blocks have the same outermost loop |
| Reachability.DominatorReaches | lib/Analysis/CFG.cpp:148-149 | a block that dominates a reachable block reaches it |
| Reachability.CoveredIsClosed | lib/Analysis/CFG.cpp:159-166 | skipping from a loop to its exits misses no edge |
| Reachability.NoPath | lib/Analysis/CFG.cpp:130-172 | when the worklist is empty, no visited block reaches the block |
| Reachability.IsPotentiallyReachableFromMany | lib/Analysis/CFG.cpp:130-172 | true if and only if a path leads from some start to the block, or at least 32 blocks can be reached from the starts when the walk goes on from a loop to its exits only; terminates; given that dominators and loops are what they are defined to be |
| Reachability.IsBlockPotentiallyReachable | lib/Analysis/CFG.cpp:174-184 | the same for one block |
| Reachability.IsPotentiallyReachable | lib/Analysis/CFG.cpp:186-234 | false only if the second instruction cannot be executed after the first; outside the entry block true if and only if it can or 32 blocks can be reached in that way, and always false for the entry block as the second; from the entry block to another the answer is true, and right if and only if that block can be reached; within the entry block it is right |
| Reachability.EntryCounterexample | lib/Analysis/CFG.cpp:229-230 | two blocks without an edge: true for the entry block, though the other block cannot be reached from it |
| AliasSetForest.ExactlyOneSet | lib/Analysis/AliasSetTracker.cpp:49-121 | in every valid tracker a record is in the list of exactly one set, which does not forward, and the forwarding chain from its own set ends there |
| AliasSetForest.LiveHasMember | include/llvm/Analysis/AliasSetTracker.h:145-147 | a live set without unknown instructions has, at the end of its chain, a pointer |
| AliasSetForest.MustAliasNotEmpty | lib/Analysis/AliasSetTracker.cpp:185-201 | so a set of pointers that must alias is never empty: the assertion holds and the first pointer exists |
| AliasSetForest.SaturatedIsOneSet | lib/Analysis/AliasSetTracker.cpp:305-323 | in a saturated tracker every record resolves to the one set: the assertion holds |
| AliasSetForest.ResolveMerged | lib/Analysis/AliasSetTracker.cpp:92-93 | forwarding one root to another redirects exactly the chains that ended in it |
| AliasSetForest.ResolveCompressed | include/llvm/Analysis/AliasSetTracker.h:274-286 | pointing a set directly to the end of its chain changes no chain's end |
| AliasSetForest.Removed | lib/Analysis/AliasSetTracker.cpp:111-121 | removing a set without references keeps the invariant; nothing pointed to it and it listed nothing |
| AliasSetForest.CountForward | include/llvm/Analysis/AliasSetTracker.h:145-147 | redirecting a set moves one reference |
| AliasSetForest.CountHome | include/llvm/Analysis/AliasSetTracker.h:106-115 | giving a record another home moves one reference |
| AliasSetSteps.AbsorbedInvariant | lib/Analysis/AliasSetTracker.cpp:49-109 | splicing lists, moving unknown instructions and forwarding keep lists, forest and counts right |
| AliasSetSteps.RecordAdded | lib/Analysis/AliasSetTracker.cpp:150-164 | adding a record at the end of a list keeps the invariant |
| AliasSetSteps.RecordForgotten | lib/Analysis/AliasSetTracker.cpp:507-530 | unlinking a record keeps the invariant and frees one reference |
| AliasSetSteps.Compressed | include/llvm/Analysis/AliasSetTracker.h:276-286 | compressing a chain keeps the invariant |
| AliasSetTracking.AliasSetTracker.DropRef | include/llvm/Analysis/AliasSetTracker.h:185-189 | gives up one reference; removes the set, and sets up the chain, only if they have no reference left, and those were empty |
| AliasSetTracking.AliasSetTracker.RemoveAliasSet | lib/Analysis/AliasSetTracker.cpp:111-121 | takes a set without references out and gives up its reference to where it forwarded |
| AliasSetTracking.AliasSetTracker.GetForwardedTarget | include/llvm/Analysis/AliasSetTracker.h:276-286 | returns the end of the chain and compresses it; no chain ends elsewhere than before |
| AliasSetTracking.AliasSetTracker.GetAliasSet | include/llvm/Analysis/AliasSetTracker.h:106-115 | moves the record to the end of its chain; the sets that do not forward and their lists stay the same |
| AliasSetTracking.AliasSetTracker.MergeSetIn | lib/Analysis/AliasSetTracker.cpp:49-109 | the one set has the pointers, unknown instructions, accesses and volatility of both; its pointers may alias if and only if those of either did, or the analysis does not say that the first pointers must alias; exactly the chains that ended in the other now end in it |
| AliasSetTracking.AliasSetTracker.AliasesPointer | lib/Analysis/AliasSetTracker.cpp:185-220 | computes whether the analysis says that the location may alias something in the set |
| AliasSetTracking.AliasSetTracker.AliasesUnknownInst | lib/Analysis/AliasSetTracker.cpp:222-246 | the same for an instruction |
| AliasSetTracking.AliasSetTracker.MergeAliasSetsForPointer | lib/Analysis/AliasSetTracker.cpp:264-285 | exactly the sets that may alias the location are merged, into the first of them, which then has all that they had and nothing else; the others are untouched; no set has gone from the list before the walk reaches it |
| AliasSetTracking.AliasSetTracker.FindAliasSetForUnknownInst | lib/Analysis/AliasSetTracker.cpp:289-301 | the same for an instruction |
| AliasSetMerging.GatheredIsCoarser | lib/Analysis/AliasSetTracker.cpp:264-301 | merging never separates pointers that were together |
| AliasSetTracking.AliasSetTracker.AddPointerTo | lib/Analysis/AliasSetTracker.cpp:128-164 | puts the pointer at the end of the list; all may alias from then on if and only if they did or the first is not said to must alias the new one, and otherwise the first is at least as large as it; the assertion that it is not known not to alias holds |
| AliasSetTracking.FoundAliases | lib/Analysis/AliasSetTracker.cpp:135-148 | why it holds: if the set that was found is still a must-alias set, its first pointer was found to alias |
| AliasSetTracking.AliasSetTracker.GetAliasSetForPointer | lib/Analysis/AliasSetTracker.cpp:305-346 | keeps the tracker valid, separates no pointers, loses no unknown instruction, and returns the set that the pointer's chain ends in. A new pointer: every set that aliases everything, whose first pointer (if all must alias) or any of whose pointers the analysis does not tell apart from the location, or that has an unknown instruction touching it, ends in the set returned, which has what they had and the pointer; every other set is as it was. A known pointer that has grown: all those sets end in one. Otherwise all sets are as they were |
| AliasSetTracking.AliasSetTracker.AddUnknown | lib/Analysis/AliasSetTracker.cpp:427-456 | every set with a pointer the instruction touches or an instruction it interacts with ends in the set that the instruction is now in, which has what they had and is read, and written if the instruction may write; every other set is as it was; nothing is separated, and no other instruction is added or lost |
| AliasSetTracking.AliasSetTracker.DeleteValue | lib/Analysis/AliasSetTracker.cpp:507-530 | forgets the pointer, changes no other list and no size, and removes its set if and only if that leaves it without pointers and unknown instructions |
| AliasSetTracking.AliasSetTracker.CopyValue | lib/Analysis/AliasSetTracker.cpp:535-552 | the copy is at the end of the list of the original's set, as large as the original; no other list and no size changes |
| AliasSetTracking.AliasSetTracker.MergeAllAliasSets | lib/Analysis/AliasSetTracker.cpp:554-589 | never visits a removed set; afterwards every other set forwards directly to the new one and every record's chain ends there |
| AliasSetMerging.NextToMerge | lib/Analysis/AliasSetTracker.cpp:562-585 | the next set of the list is still there; if it forwards, then to a set that was visited before |
| AliasSetTracking.AliasSetTracker.AddPointer | lib/Analysis/AliasSetTracker.cpp:591-604 | what is said of finding the set, and then the access is noted there, and nowhere else; if there are too many pointers, every chain ends in one set that aliases everything; before and after saturation the tracker stays valid |
| AliasSetTracking.SaturatedMembers | lib/Analysis/AliasSetTracker.cpp:310-323 | the one set of a saturated tracker has all its pointers and all its unknown instructions |
| AliasSetTracking.DeleteFromSaturated | lib/Analysis/AliasSetTracker.cpp:507-530 | for every saturated tracker: after a pointer is deleted the one set is still there if and only if a pointer or an unknown instruction is left; the tracker goes on to point to it in any case |
| AliasSetTracking.SaturateAndEmpty | lib/Analysis/AliasSetTracker.cpp:507-604 | for every nonempty list of pointers, made, saturated and emptied by calls: the tracker has lost its one set and still points to it |
| AliasSetInstructions.MergedInsts | lib/Analysis/AliasSetTracker.cpp:83-88 | merging two sets loses no unknown instruction and invents none |
| AliasSetDisjointness.NotFoundApart | lib/Analysis/AliasSetTracker.cpp:185-220 | in any world the analysis is right about: nothing in a set that is not found conflicts with the location, if in a set of pointers that must alias the first leads, that is, points to where all do and is as large as any |
| AliasSetDisjointness.InsertedApart | lib/Analysis/AliasSetTracker.cpp:337-346 | a new pointer keeps alias sets disjoint, and first pointers in the lead |
| AliasSetDisjointness.InsertedDisjointIff | lib/Analysis/AliasSetTracker.cpp:337-346 | without that: a new pointer keeps sets disjoint if and only if it conflicts with no pointer of a must-alias set from whose first pointer it is told apart |
| AliasSetDisjointness.GrownApart | lib/Analysis/AliasSetTracker.cpp:326-334 | a known pointer that has grown keeps sets disjoint; the first pointers stay in the lead if and only if its set may alias, another set joins, it is the first itself, or the first is as large |
| AliasSetDisjointness.UnknownApart | lib/Analysis/AliasSetTracker.cpp:427-456 | an instruction without a location keeps sets disjoint, and first pointers in the lead |
| AliasSetDisjointness.DeletedApart | lib/Analysis/AliasSetTracker.cpp:507-530 | a deletion keeps sets disjoint; the first pointers stay in the lead if and only if the set may alias, the pointer was not the first or the only one, or the next is as large as any |
| AliasSetDisjointness.CopiedApart | lib/Analysis/AliasSetTracker.cpp:535-552 | a copy that points to where the original does keeps both |
| AliasSetRuns.Run | include/llvm/Analysis/AliasSetTracker.h:10-13 | after every run of accesses and unknown instructions in which no pointer is accessed with a larger size than before, saturation included: no two sets have to do with the same memory, in any world the analysis is right about |
| AliasSetRuns.GrownCounterexample | lib/Analysis/AliasSetTracker.cpp:326-334 | four accesses, one through a known pointer with a larger size, leave two sets with one byte in common |
| ThreadGate.WaitForThreads.Block | examples/ParallelJIT/ParallelJIT.cpp:166-192 | one critical section of a worker is one step of the gate; the assertion on the counters holds |
| ThreadGate.WaitForThreads.ReleaseThreads | examples/ParallelJIT/ParallelJIT.cpp:197-217 | one critical section of a releaser is one step of the gate |
| ThreadGate.WaitForThreads.UnblockThreads | examples/ParallelJIT/ParallelJIT.cpp:220-233 | the counters are reset and every waiting thread is freed |
| ThreadGate.AlwaysSane | examples/ParallelJIT/ParallelJIT.cpp:166-233 | on every run, with any number of workers and releasers, the counter is the number of waiting workers and is below what a releaser waits for |
| ThreadGate.WaitingSinceOpened | examples/ParallelJIT/ParallelJIT.cpp:222-230 | the workers that wait are those that came since the gate was last open |
| ThreadGate.OpeningFreesTheRound | examples/ParallelJIT/ParallelJIT.cpp:220-233 | opening the gate frees exactly the workers of the round |
| ThreadGate.NobodyPassesEarly | examples/ParallelJIT/ParallelJIT.cpp:194-217 | with one releaser at a time nobody gets through, on any run, before as many workers of the round have come as its releaser asked for |
| ThreadGate.NoLostWakeup | examples/ParallelJIT/ParallelJIT.cpp:194-217 | no releaser waits while enough workers are there |
| ThreadGate.GateOpensInTime | examples/ParallelJIT/ParallelJIT.cpp:175-181 | a waiting releaser gets through just when the last missing worker comes |
| ThreadGate.EnoughForAllIff | examples/ParallelJIT/ParallelJIT.cpp:194-217 | on every run, with any number of releasers waiting: the event that opens the gate frees enough workers for all of them if and only if the last request is as large as any of theirs |
| ThreadGate.WaitsForLastRequest | examples/ParallelJIT/ParallelJIT.cpp:208-213 | on every run the gate waits for what was asked last |
| ThreadGate.SecondReleaserIff | examples/ParallelJIT/ParallelJIT.cpp:208-213 | if a second releaser asks while the first waits, the gate next opens with enough workers for the first if and only if the second asks for at least as many |
| ThreadGate.SecondReleaserCounterexample | examples/ParallelJIT/ParallelJIT.cpp:203-213 | a releaser that asked for three workers gets through when there is one |
| PostDominance.BranchProbabilityInfo.UpdatePostDominatedByUnreachable | lib/Analysis/BranchProbabilityInfo.cpp:136-161 | one block of the pass, loop and early exits included |
| PostDominance.BranchProbabilityInfo.UpdatePostDominatedByColdCall | lib/Analysis/BranchProbabilityInfo.cpp:164-198 | the same for cold calls |
| PostDominance.BranchProbabilityInfo.Calculate | lib/Analysis/BranchProbabilityInfo.cpp:842-849 | the sets are those of the pass over the given order |
| PostDominance.CollectedIsDoomed | lib/Analysis/BranchProbabilityInfo.cpp:134-161 | whatever the order, from every block in the set all walks without unwinding come to an unreachable, deoptimizing or cold block within |set| - 1 steps |
| PostDominance.CollectedIsOnNoCycle | lib/Analysis/BranchProbabilityInfo.cpp:134-161 | no block in the set for unreachable lies on a cycle of normal edges |
| PostDominance.ExactWhenSuccessorsFirst | lib/Analysis/BranchProbabilityInfo.cpp:842-849 | if successors come before blocks, the set is exactly the blocks with the property |
| PostDominance.CollectedByTerminator | lib/Analysis/BranchProbabilityInfo.cpp:134-195 | and by how a block ends: unreachable and deoptimizing blocks are in the first set and not in the second, returning ones in neither; an invoke is in a set exactly if its normal destination is, or, for the second, if it calls a cold function; a branch exactly if it has targets and all are, or, for the second, if it calls a cold function |
| PostDominance.ExactOnAcyclicGraphs | lib/Analysis/BranchProbabilityInfo.cpp:842-849 | so it is on acyclic graphs, where a depth-first search finishes successors first |

## Left out

- CompilerCorrect: the counts of runs are unbounded integers, where the source counts in an `int`; addresses are counted
  from the beginning of the tape and do not wrap; the tape without bounds is unbounded and, outside the allocated part, zero.
- Lex: whitespace is skipped by the source's stream and ignored by its switch, with the same result; one rule does both here.
- LinearIsAffine: of values with sign extensions below which constants or factors are folded, only those are claimed where
  that is right for every valuation; when it is right is said by `FoldExactIff`, `SExtProductIff` and `SExtAsZExtIff`. Nested
  multiplications, extensions and additions mixed below one sign extension have no such condition here.
- DecomposeIsExact: indices are claimed as far as `LinearIsAffine` goes, and narrower ones if they are sums without signed
  wraps whose constants fit; what holds for other narrow ones is `NarrowIndexExactIff`, for chains of additions. Simplification
  of instructions, returned arguments of calls and aliases are not modelled: a chain consists of casts and GEPs. Unsized
  types do not occur.
- NswExactIff: for values that keep the promise of every addition; a chain with both flagged and other additions is
  covered by `NarrowIndexAlwaysExactIff` only.
- HeuristicIsSound: one direction only, because a range may go around and still leave room; `HeuristicExactIff` is exact.
- HeuristicExactIff: for variables without flags that are extended by zeros, or by their sign up to the pointer's width, and
  where V is as wide as they are. With flags, or a narrower V, fewer differences may occur: `HeuristicWithRoom` is one-way then.
- ConstantOffsetHeuristic: if the first variable is wider than the second, the source adds numbers of different widths when it
  meets a constant, which its assertions forbid; the model does not answer there.
- AliasGEP: begins where the bases are known to be the same; the query for the bases, the test on negative offsets, the
  two-GEP shortcut for identical offsets and the test by known sign bits (`AllPositive`) are not modelled.
- ReadsThroughExtension: extensions one inside the other, and operations below an extension that may wrap around, are
  covered as far as `LinearIsAffine` goes.
- HeuristicFiresIff: where a sum or product does leave 64 bits the source compares what is left of it; only the answers that
  then come out wrong are described, by `HeuristicExactIff`.
- AliasAnswerHolds: for an answer by the heuristic one direction only; `HeuristicAnswerIff` is exact. It needs variables in
  which every sign extension can be read and that are extended in one way, which all are if no index has a sign extension
  inside. An access of unknown size may have any number of bytes.
- GetIndexDifference, AliasCycles: whether a value is the same in every cycle of a loop is given, as a set of unstable values.
- Identity of values: two expressions are the same value when they are equal, names included; the known-bits analysis that
  allows `or` to be read as an addition is a flag that the value is defined to honour.
- FieldTestExactIff: models the overlap test only; which pairs of GEPs it is applied to is not modelled.
- DitheringDistributer: distributions for which the final assertion of the normalization fails are excluded; `FitsIff` says
  which. Without assertions the total would be cut to 32 bits there.
- SortByTarget: stands for the library's sort; only that the result is sorted and a permutation is used.
- ComputeMassInLoop: a loop that is packaged is one block with one mass; the loop scale, the frequencies, the adjustment of
  header masses by backedge masses and the weights read from metadata are not modelled. The weights of edges are given.
- FindIrreducibleHeaders: the components are given; the order in which the hash map is walked is that of the component, and
  does not matter because the results are sorted.
- AddToDist: what a block resolves to and which blocks have the loop as their containing loop are given.
- updateLoopWithIrreducible: removing packaged blocks from a list would only add an easy member.
- IsPotentiallyReachableFromMany: dominators and loops are given and are required to be what they are defined to be.
- AliasSetTracker: sets and records are entries of maps of the tracker, and numbers take the place of pointers; lists are
  sequences, so the links inside records are not modelled. Sets are numbered in the order in which they are made.
- RemoveAliasSet: the set is taken out of the list before the reference to its target is given up, and a chain is redirected
  before the old reference is given up; the source does it the other way round. Nothing reads the set in between.
- AddPointer: the accounting of sizes is not modelled, as it keeps no simple invariant; whether there are too many pointers
  is a parameter. Metadata and instructions that have been deleted from under the tracker are not modelled.
- GetAliasSetForPointer, AddPointer: in a saturated tracker they need the one set to be there, because the source follows
  the pointer to it; `DeleteFromSaturated` says exactly when it is not.
- Run: of the sequences of operations, those of accesses and unknown instructions; the lemmas about single operations cover
  deletions and copies. Pointers are where they are during the whole run, and accesses of size zero do not occur there. The
  analysis is any that is right about one such world; what the analyses in the repository answer is not part of this.
- WaitForThreads: a critical section is one step, and there are no spurious wake-ups; initialisation and destruction of
  mutex and condition are not modelled.
- Calculate: the post-order is given; the probabilities that the heuristics assign are tables and not modelled.
- Value numbering of the intermediate representation, memory allocation, input and output, and the just-in-time compiler:
  input and output are sequences, memory is a map.
- Pass management, printing, command-line options, caching of alias queries, phi and select rules, mod/ref chaining,
  exception tables and the smaller examples: plumbing, or dependent on analyses that are not part of this model.
