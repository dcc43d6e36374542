# Dolmos, modelled and proved

Dolmos is a symbolic executor for EVM bytecode. This project models the parts of it in
which a clever representation has to agree with a simple one, and proves that it does.

| files | component |
|---|---|
| Bits, BvTerms, BvFacts, Symbols | bitvector terms, their meaning and their symbols |
| IntTerms, IntFacts, Prover, Encoding, EncodingFacts, NodeFacts, NodeMeanings, Exactness, Scopes, Translator | the compiler from bitvector terms to integer constraints |
| Lasso, LassoFacts, LassoProofs, LassoExact, LassoBuilder, Slice, LassoSlices | lasso programs for termination proofs |
| EvenLoop, IdleLoop | loops on which lassos do not keep what is said of them |
| Paths, Exploration, Explorer | depth-first exploration with one shared solver |
| Chunks, ByteVec, Unwrap | byte vectors of concrete and symbolic chunks |
| Words32, Abi, Layouts, Calldata | ABI codec and symbolic calldata |
| WordOps, Clz | word arithmetic and counting leading zeros |
| Exponent, Refinement | exact exponent definitions and solver refinement loops |
| Expectations | matching of expected events |
| World, Traces, SolidityStorage | value transfers, rollback, storage layout |

`dafny verify dfyconfig.toml` checks everything.

**Translation.** Bitvector and integer terms are two datatypes with their own meaning. Each
auxiliary variable of a translator has a recorded value, its witness, as a function of the
valuation. One contract covers both modes: the assignment that gives every auxiliary
variable its witness satisfies all constraints and gives every term its bitvector value,
and for terms without opaque parts and, with small numbers only, without a wrap-around
that the solver does not rule out, or as long as nothing was approximated, any assignment
that satisfies the constraints does. Such terms never cause an approximation. From this
follow the simulation of loops by lassos, and for exact lassos the equivalence of
termination with what they see of the loop: the stem is sliced, so this is the loop itself
exactly for inputs that satisfy all stem conditions, and for all runs if the dropped
conditions have nothing in common with the lasso and have a model.

**Exploration.** The solver is a stack of assertion levels. The invariant says what each
waiting path will find on it, that the counters of symbolic branches are within the bound,
that every path agrees with the concrete execution of the program under each valuation of
its conditions, and that each valuation belongs to exactly one path. Whatever is not
followed is recorded, with the reason: a direction of an undecided branch whose counter is
at the bound, a step beyond the limit, or a jump to no valid destination.

**Calls and creations.** The state is updated in place and restored from copies. The
reference is a log that only grows, in which a failure marks where its frame began: what
runs leave behind is what stands of the log.

**Refinement.** Solvers answer each query as they like. A run of the refinement is the list
of the queries that were asked; what each adds, and the only reasons to stop, are stated
over that list.

**Byte vectors, ABI, calldata.** Chunks refine flat bytes for every interpretation of the
symbols. Encodings are layouts that may hold more elements than their length fields say, so
that one theorem covers the ordinary round trip and the generalized calldata.

**Where code and documentation differ.** docs/loop-termination.md:58-61 takes an infinite
run of an exact lasso for one of the loop; the sliced stem admits inputs that the loop is
never entered with (`SlicedStemExample.EvenLasso`, with the exact conditions in
`SlicedLassos`). docs/loop-termination.md:169-170 promises that an over-approximating lasso
is marked; the dropped upper bounds of small mode are not
(`SmallRangeExample.IdleLassoIsLoose`, with the exact conditions for entries, steps and runs
in `ExactLassos.EntryIsExact`, `ExactLassos.StepIsExact` and `ExactLassos.RunIsExact`). The text in src/dolmos/calldata.py:247-258 follows the
ABI specification, but a tuple counts as static when it has no tail, which is wrong for
types that are dynamic only within arrays of length zero
(`SymbolicCalldata.Calldata.Encode`, `SymbolicCalldata.EmptyFixedArray`). Strict decoding
of such encodings, and of arrays of zero-sized elements, can fail
(`Layouts.DecodesEncoding`).

The solver, its simplifier and the hash function are parameters; what is assumed of them is
stated by `Prover.Trusted`, `Refinement.Trusted`, `Unwrapping.Sound` and
`SolidityStorage.Injective`.

## Model

| member | source | states |
|---|---|---|
| `Prover.WrapProver.IsValid` | src/dolmos/lasso.py:189-201 | A condition is valid exactly if it simplifies to true, or does not simplify to false and the solver refutes the prover's conditions with its negation, memoised or not; then it holds in every model of these conditions |
| `Translation.Registry.InvariantIndex` | src/dolmos/lasso.py:220-225 | A loop-invariant term gets one index for ever; known terms keep theirs |
| `Translation.Registry.BigConstant` | src/dolmos/lasso.py:227-230 | A large literal gets one constant variable; distinct literals never share one |
| `Translation.Translator.FreshAux` | src/dolmos/lasso.py:269-277 | A new auxiliary variable takes the recorded value in every intended assignment and is confined to its width by the constraints |
| `Translation.Translator.Number` | src/dolmos/lasso.py:279-285 | A literal, or a constant variable for a large one, denotes its value; small mode emits no large literal |
| `Translation.Translator.Wrap` | src/dolmos/lasso.py:287-333 | The result denotes `expr mod 2^width` whenever expr lies in the stated multiples of 2^width, in both modes |
| `Translation.Translator.SmallWrap` | src/dolmos/lasso.py:304-316 | Small mode: if the prover shows that there is no wrap-around, the result is the expression itself, without a constraint or mark; otherwise a marked variable that keeps every real value, at most the expression without a wrap below, and the expression if it is not negative without one above |
| `Translation.Translator.WrapByCases` | src/dolmos/lasso.py:319-329 | The disjunction over the wrap counts holds for the real value and forces it |
| `Translation.Translator.WrapByEquation` | src/dolmos/lasso.py:330-332 | The equation with a free wrap count holds for the real value and forces it |
| `Translation.Translator.IfThenElse` | src/dolmos/lasso.py:335-342 | The fresh variable denotes the branch selected by the condition |
| `Translation.Translator.DivConst` | src/dolmos/lasso.py:344-357 | The fresh quotient denotes integer division by the constant; only for a large divisor in small mode is it approximated, between zero and the operand |
| `Translation.Translator.RemConst` | src/dolmos/lasso.py:359-366 | The term denotes the remainder by the constant; only for a large divisor in small mode is it approximated, between zero and the operand |
| `Translation.Translator.Truncate` | src/dolmos/lasso.py:368-373 | The term denotes the low bits of a wider operand |
| `Translation.Translator.Opaque` | src/dolmos/lasso.py:375-386 | A term that does not depend on loop variables is represented by the variable that all iterations share, any other by a fresh variable with its value; a bare symbol is not an approximation |
| `Translation.Translator.Translate` | src/dolmos/lasso.py:394-547 | For every valuation the prover allows, the emitted constraints can be met by the intended auxiliary values, under which the integer term equals the bitvector term; for a term whose parts the mode can express or the prover settles, whatever was approximated before, and for any term while this translator approximated nothing, every assignment meeting the constraints forces that equality; such a term never causes an approximation |
| `Translation.Translator.TranslateNode` | src/dolmos/lasso.py:414-547 | The same for one term: every operator of the source's case analysis, with its error-free fall-through to an opaque value |
| `Translation.Translator.TranslateBorrow` | src/dolmos/lasso.py:428-442 | An addition of constants above 2^(w-1) is translated as a subtraction of their complements, recursing on the freshly built sum of the rest |
| `Translation.Translator.TranslateSub` | src/dolmos/lasso.py:449-451 | A subtraction denotes its value modulo 2^w |
| `Translation.Translator.TranslateNeg` | src/dolmos/lasso.py:453-454 | A negation denotes its value modulo 2^w |
| `Translation.Translator.TranslateMul` | src/dolmos/lasso.py:456-467 | A product with at most one symbolic factor denotes its value, with the constants folded modulo 2^w |
| `Translation.Translator.TranslateMask` | src/dolmos/lasso.py:485-496 | A conjunction with a mask 2^n - 1 denotes the low n bits; other masks are opaque |
| `Translation.Translator.TranslateExtract` | src/dolmos/lasso.py:498-509 | An extraction denotes the selected bits, in all four boundary cases |
| `Translation.Translator.TranslateConcat` | src/dolmos/lasso.py:511-525 | A concatenation denotes the big-endian value of its fields, with the early exit of small mode |
| `Translation.Translator.TranslateIte` | src/dolmos/lasso.py:530-531 | A conditional term denotes its selected branch |
| `Translation.Translator.TranslateApp` | src/dolmos/lasso.py:533-547 | Abstractions of division, remainder and product by a constant denote the EVM operation |
| `Translation.Translator.Scale` | src/dolmos/lasso.py:549-561 | A product with a constant denotes its value modulo 2^w; large coefficients are approximated in small mode |
| `Translation.Translator.TranslateB` | src/dolmos/lasso.py:400-404 | The integer formula has the truth value of the bitvector formula under the same assignments |
| `Translation.Translator.TranslateRel` | src/dolmos/lasso.py:609-620 | Equalities and comparisons have the truth value of the bitvector relation |
| `Translation.Translator.SignedCmp` | src/dolmos/lasso.py:570-581 | A signed comparison is exact in exact mode and when both operands are provably non-negative, and approximated otherwise |
| `Translation.Translator.SignedValue` | src/dolmos/lasso.py:565-568 | The two's complement reading of a word |
| `Translation.Translator.TranslateTerm` | src/dolmos/lasso.py:406-410 | A boolean stack value is translated to 0 or 1 |
| `Bits.MaskTest` | src/dolmos/lasso.py:490-492 | mask & (mask + 1) is zero exactly for masks of the form 2^n - 1, with n the bit length |
| `Exactness.ExactRest` | src/dolmos/lasso.py:428-442 | The sum rebuilt from the remaining addends is exact if the addition is: no part that the mode cannot express and the prover does not settle |
| `Exactness.IncrementExact` | src/dolmos/lasso.py:303-305 | With small numbers only, the successor of a symbol is exact if and only if the prover shows that it does not wrap around |
| `NodeFacts.NoWrapMeans` | src/dolmos/lasso.py:368-573 | The conditions that the prover is asked hold of a valuation exactly if the difference, the complement or the truncation stays within its width |
| `NodeFacts.BorrowNoWrapMeans` | src/dolmos/lasso.py:438-442 | The condition of a sum with large addends holds exactly if the rest covers what is borrowed |
| `BvFacts.BorrowSplits` | src/dolmos/lasso.py:428-436 | Replacing large addends by their complements changes the sum by a multiple of 2^w only |
| `LassoFacts.ConjHolds` | src/dolmos/lasso.py:627-633 | Dropping true parts and unwrapping singletons keeps the meaning of a conjunction |
| `LassoFacts.OrderMeans` | src/dolmos/lasso.py:773-781 | What is asserted of the constant variables holds exactly if they are not negative and ordered as their literals |
| `LassoProofs.PreviousHolds` | src/dolmos/lasso.py:699-718 | The facts about the previous iteration, with renamed variables, hold exactly if the conditions of some body path hold in the previous state and its results are the current one |
| `LassoProofs.DisjunctMeaning` | src/dolmos/lasso.py:720-733 | A disjunct holds for the intended assignment of every iteration along its path; if nothing on the path was approximated, or it has no parts that could have been, it holds for no other |
| `LassoProofs.StepIsSimulated` | src/dolmos/lasso.py:720-748 | Every iteration of the bitvector loop is a step of the integer transition |
| `LassoProofs.StepIsReflected` | src/dolmos/lasso.py:720-748 | Every step of an exact transition is an iteration along some body path, if no body path was approximated |
| `LassoProofs.EnterIsSimulated` | src/dolmos/lasso.py:752-772 | Every entry of the loop under the encoded stem conditions, and in small mode under all of them, is one of the integer stem |
| `LassoProofs.StepIsAlong` | src/dolmos/lasso.py:720-748 | The integer transition is the disjunction of its body paths |
| `LassoProofs.StepAlongIsIteration` | src/dolmos/lasso.py:691-748 | In both encodings, along a body path on which nothing was approximated, or whose parts the mode can express or the prover settles, whatever happened on other paths: under the prover's conditions an iteration is exactly a step of the integer transition in which all loop variables are below their widths |
| `LassoProofs.EnterIsReflected` | src/dolmos/lasso.py:752-772 | Every entry of an exact, unapproximated stem is one under the stem conditions that were kept, for inputs read back from the assignment |
| `ExactLassos.EntryIsExact` | src/dolmos/lasso.py:752-772 | In both encodings, without approximation in the stem: the loop is entered in a state exactly if it consists of words and the stem leads to it by an assignment that agrees with the inputs |
| `ExactLassos.AgreementIsRange` | src/dolmos/lasso.py:752-772 | Inputs agree with an assignment of the stem exactly if its variables of symbols and the shared symbols are below their widths and the prover's conditions hold of them |
| `ExactLassos.HeadIsRepresented` | src/dolmos/lasso.py:691-748 | Some inputs explain a state of the lasso exactly if its loop variables and the constants that stand for bare symbols are below their widths |
| `ExactLassos.StepIsReal` | src/dolmos/lasso.py:720-748 | In both encodings, without approximation: from a state of the lasso that the inputs explain, a step to words along a body path for which the prover's conditions hold is an iteration of the loop |
| `ExactLassos.StepIsExact` | src/dolmos/lasso.py:699-748 | Between loop states, under the facts on the previous iteration, these are exactly the iterations |
| `ExactLassos.RunIsExact` | src/dolmos/lasso.py:673-816 | In both encodings, without approximation: an infinite run of the loop is exactly one of the lasso in which all variables are words and the prover's conditions hold of the inputs at the entry and at each step |
| `ExactLassos.HeadRunIsReal` | src/dolmos/lasso.py:673-816 | So any infinite run of the lasso, in which these conditions hold, is one of the loop |
| `LassoProofs.LassoIsSmall` | src/dolmos/lasso.py:783-785 | No literal above 2^52 appears in a small lasso, so the check of the literals cannot fail |
| `LassoBuilder.BuildLasso` | src/dolmos/lasso.py:673-816 | The lasso simulates the loop in both modes, with or without the facts on the previous iteration, and is made of translations of the body paths and the stem; without approximation the exact lasso adds no behaviour to what it sees of the loop, the kept stem conditions; body paths and stems whose parts the mode can express, or in small mode the solver shows not to wrap around under the conditions of the path, count as unapproximated in any loop, and a loop of such parts is not marked; small lassos have only small literals; there is none exactly when a previous-iteration fact would compare a word with a boolean |
| `SmallRangeExample.IdleLassoIsLoose` | src/dolmos/lasso.py:691-777 | In small mode the lasso of any loop with one variable that starts with an unconstrained input and keeps it is not marked as an approximation, and yet may start with every number, words or not: dropped upper bounds do not set the flag |
| `SmallRangeExample.IdleWf` | src/dolmos/sevm.py:3446-3465 | There are such loops |
| `LassoFacts.SmallRangesAreLoose` | src/dolmos/lasso.py:695-698 | The ranges of the two modes differ on an assignment exactly for a wide variable at or above its bound, and for every wide variable there is such an assignment |
| `Lasso.RunsAreMatched` | src/dolmos/lasso.py:673-816 | Every infinite run of the loop is matched step by step by an infinite run of its lasso, also under the previous-iteration facts |
| `Lasso.TerminationTransfers` | docs/loop-termination.md:53-57 | A termination proof of the lasso is one of the bitvector loop |
| `Lasso.RunsAreReflected` | docs/loop-termination.md:58-61 | Every infinite run of an exact lasso is an infinite run of the loop for some inputs that satisfy the kept stem conditions |
| `Lasso.SlicedTerminationAgrees` | docs/loop-termination.md:53-61 | With exact constants and no approximation the lasso terminates if and only if the loop does from all inputs that satisfy the kept stem conditions |
| `SlicedStemExample.EvenLasso` | src/dolmos/sevm.py:3446-3465 | For the loop over even i up to n under n % 2 == 0, slicing drops every stem condition: the lasso is exact and unmarked and runs forever, although the loop terminates |
| `SlicedLassos.RunIsReal` | src/dolmos/sevm.py:3446-3465 | A run that the encoding allows is a run of the loop if and only if its inputs satisfy all stem conditions |
| `SlicedLassos.RunIsCompleted` | src/dolmos/sevm.py:3446-3465 | If no dropped stem condition shares a symbol with the kept ones, the initial values, the guard or the body paths, then every run that the encoding allows is a run of the loop for other inputs, given a model of the dropped conditions that agrees on shared operators |
| `SlicedLassos.TerminationAgrees` | docs/loop-termination.md:53-61 | If they share no operators either, an exact, unmarked lasso terminates if and only if the loop does, or the dropped conditions contradict each other and the loop is never entered |
| `SlicedLassos.WholeStemAgrees` | docs/loop-termination.md:53-61 | With a stem that is not sliced, an exact, unmarked lasso terminates if and only if the loop does |
| `Slice.SliceConditions` | src/dolmos/lasso.py:641-654 | Terminates and keeps exactly the least set of conditions that transitively share symbols with the seeds, in order |
| `Slice.SliceCombines` | src/dolmos/lasso.py:641-642 | A model of the kept and a model of the dropped conditions that agree on the operators occurring on both sides combine to a model of all that gives the seeds their values |
| `Slice.SliceIsExact` | src/dolmos/lasso.py:641-654 | All conditions have a model if and only if both sides have models that agree on these operators |
| `Slice.SlicesMayClash` | src/dolmos/lasso.py:641-654 | Models of both sides are not enough: slicing looks at symbols only, and a concrete slice has models of both halves and none of the whole |
| `Paths.Solver.Check` | src/dolmos/sevm.py:1026-1027 | An unsat answer means that no valuation satisfies all assertion levels and the condition |
| `Paths.Path.Branch` | src/dolmos/sevm.py:1029-1065 | The new path saves the scope number, the conditions and the pending one; the solver gets a fresh level; an inactive path cannot branch |
| `Paths.Path.Activate` | src/dolmos/sevm.py:1070-1079 | The solver is cut back to the saved scope and holds these levels plus the pending conditions; it fails exactly if the scope is gone |
| `Paths.Path.Append` | src/dolmos/sevm.py:1106-1130 | Simplified, non-trivial, new conditions are added to path and solver alike |
| `Paths.Path.ExtendPath` | src/dolmos/sevm.py:1136-1153 | All conditions are taken over, and the solver gets all or only the sliced ones |
| `Paths.PickedKeeps` | src/dolmos/sevm.py:1136-1153 | Slicing keeps exactly the chosen conditions: each comes after as many as are chosen before it |
| `Paths.AppendedAllMeans` | src/dolmos/sevm.py:1132-1134 | Simplifying, skipping and deduplicating keeps the meaning of the path conditions |
| `Exploration.StackedActivate` | src/dolmos/sevm.py:1070-1079 | Activating the topmost waiting path leaves the solver with exactly the conditions of that path, and all lower paths still wait on increasing scopes |
| `Exploration.StackedAppend` | src/dolmos/sevm.py:1106-1130 | Adding conditions to the active path does not disturb the waiting ones |
| `Exploration.StackedPush` | src/dolmos/sevm.py:1029-1065 | Branching puts a waiting path below the active one on a higher scope than all others |
| `Exploration.Replaced` | src/dolmos/sevm.py:3343-3392 | Replacing one path by others that share its valuations keeps the invariant of the exploration |
| `Exploration.DirectionTracks` | src/dolmos/sevm.py:3278-3280 | Following a direction of a JUMPI leads the executions of the path to the state of that direction, and only those |
| `Exploration.BumpedCounts` | src/dolmos/sevm.py:3377-3392 | The visit counters count the symbolic branches of the path, never beyond the unrolling bound |
| `Exploration.JumpiDivides` | src/dolmos/sevm.py:3282-3341 | Followed, cut and impossible directions share out the valuations of the path |
| `Exploration.JumpSplits` | src/dolmos/sevm.py:3972-3988 | The destinations of a symbolic JUMP and the jumps elsewhere share out the valuations of the path |
| `Exploration.Coverage` | src/dolmos/sevm.py:3343-3392 | When the worklist is empty, every valuation of the initial conditions satisfies exactly one finished or cut path, whose state its concrete execution reaches and whose ending it has |
| `Exploration.OnlyBoundedLoopsAreCut` | src/dolmos/sevm.py:3308-3316 | Without depth bound and symbolic jumps, only JUMPIs logged as bounded loops are cut: each at a branch that the solver did not decide, with the counters of the path at the bound for a possible direction |
| `Explorer.Exec.Check` | src/dolmos/sevm.py:1491-1532 | Unsat for an excluded condition or one whose negation is on the path, sat for one that is on the path, and otherwise the answer of the solver for its levels and the condition; unsat excludes every considered valuation of the path |
| `Explorer.Explorer.Fetch` | src/dolmos/sevm.py:3822-3844 | The next path is the current one or the top of the worklist, active, with the solver holding exactly its conditions |
| `Explorer.Explorer.Activate` | src/dolmos/sevm.py:3843-3844 | Activation never fails, and restores the solver to the conditions of the path |
| `Explorer.Explorer.Directions` | src/dolmos/sevm.py:3278-3292 | Each direction is possible unless its condition is answered unsat, and the branch is decided exactly if one is answered sat and the other unsat; a direction that is not possible has no valuation |
| `Explorer.Explorer.TakeOne` | src/dolmos/sevm.py:3359-3377 | One direction followed by the path itself keeps the invariant, and leads to the state, conditions and counters of that direction |
| `Explorer.Explorer.TakeBoth` | src/dolmos/sevm.py:3365-3392 | Both directions: a waiting path with its own counters jumps, the path itself falls through |
| `Explorer.Explorer.TakeBadJump` | src/dolmos/sevm.py:3346-3363 | An invalid target ends only the jumping executions; the fall-through is still followed |
| `Explorer.Explorer.Jumpi` | src/dolmos/sevm.py:3271-3392 | A JUMPI keeps coverage, scopes, counters and agreement with concrete execution, for any solver answers and any unrolling bound; the paths that go on, the path that ends at an invalid target, the cut directions and the log are exactly those that the answers and the counters ask for |
| `Exploration.DecidedFollows` | src/dolmos/sevm.py:3284-3337 | A decided branch goes on in that direction alone, whatever the counters are: nothing is cut, logged or counted |
| `Exploration.SymbolicFollows` | src/dolmos/sevm.py:3306-3334 | Where a branch is not decided, a possible direction is followed and counted exactly if its counter is below the bound, and cut otherwise |
| `Exploration.ElsewhereWeight` | src/dolmos/sevm.py:3972-3988 | A valuation of the path is lost at a symbolic JUMP exactly if its destination is none of those that are followed |
| `Explorer.Explorer.JumpAll` | src/dolmos/sevm.py:3984-3988 | A symbolic JUMP leaves one waiting path for each possible destination and records exactly the jumps elsewhere as lost |
| `Explorer.Explorer.SymbolicJump` | src/dolmos/sevm.py:3968-3992 | A symbolic JUMP leaves one path for exactly the destinations that are not answered unsat, ends as an invalid jump if there are none, or gets stuck when it is not enabled |
| `Explorer.Explorer.Step` | src/dolmos/sevm.py:3822-3992 | One round of the explorer keeps the invariant and counts one step; exactly the path of a step beyond the limit is cut as too deep |
| `Explorer.Explorer.Explore` | src/dolmos/sevm.py:3822-4470 | So does any number of rounds |
| `ByteVecs.ByteVec.LoadChunk` | src/dolmos/bytevec.py:440-456 | The chunk found contains the offset; there is none exactly past the end, and a negative offset is an error |
| `ByteVecs.ByteVec.Append` | src/dolmos/bytevec.py:475-496 | The flat bytes grow by exactly those of the value; vectors are taken apart |
| `ByteVecs.ByteVec.SetByte` | src/dolmos/bytevec.py:498-543 | The flat byte is overwritten with zero back-fill past the end, with the errors of the source in its order |
| `ByteVecs.ByteVec.SetSlice` | src/dolmos/bytevec.py:545-615 | The flat slice is overwritten, from any well-formed state: back-fill, aligned, splitting, deleting and overhanging writes; the error cases leave the vector unchanged |
| `ByteVecs.ByteVec.Overwrite` | src/dolmos/bytevec.py:576-615 | A write that starts inside the vector |
| `ByteVecs.ByteVec.SetItem` | src/dolmos/bytevec.py:617-628 | Slice assignment syntax, in which an end of 0 is taken for a missing one |
| `ByteVecs.ByteVec.Slice` | src/dolmos/bytevec.py:675-723 | The flat bytes from start to stop, padded with zeros; a negative start of a non-empty range is an error |
| `ByteVecs.ByteVec.CutChunk` | src/dolmos/bytevec.py:131-147 | A part of a chunk, nested vectors included, has the bytes of that part |
| `ByteVecs.ByteVec.GetByte` | src/dolmos/bytevec.py:725-740 | The flat byte, or zero past the end |
| `ByteVecs.ReadAfterWrite` | src/dolmos/bytevec.py:545-557 | Reading what was written returns it, and every other byte is as before or zero |
| `ByteVecs.SplicedFlat` | src/dolmos/bytevec.py:588-615 | Prefix, value and suffix chunks are contiguous and hold the overwritten bytes |
| `Chunks.BisectFinds` | src/dolmos/bytevec.py:453-456 | In contiguous chunks the last key at or before an offset is that of its chunk |
| `Unwrapping.Defrag` | src/dolmos/bytevec.py:38-66 | Merging keeps the bytes and leaves no two adjacent native items |
| `Unwrapping.Unwrap` | src/dolmos/bytevec.py:773-796 | The single value has the flat bytes, and is native if nothing is symbolic |
| `Unwrapping.Concretize` | src/dolmos/bytevec.py:658-671 | The new vector has the flat bytes under the substituted symbols |
| `Chunks.SubstituteMeans` | src/dolmos/bytevec.py:167-180 | Substituting symbols is reading them from their replacements |
| `Abi.DecodeValue` | src/dolmos/pcex.py:333-358 | Computes strict decoding |
| `Abi.DecodeItems` | src/dolmos/pcex.py:361-373 | Computes strict decoding of components, failing at the first one that fails |
| `Abi.DecodeWf` | src/dolmos/pcex.py:333-373 | What is decoded has the type asked for, and no array in it exceeds 4096 elements |
| `Abi.DecodeInside` | src/dolmos/pcex.py:333-373 | Decoding reads nothing outside the data: what is decoded stays the same whatever follows |
| `Layouts.EncodeValue` | src/dolmos/pcex.py:376-386 | Computes the encoding of the Contract ABI Specification |
| `Layouts.EncodeWords` | src/dolmos/pcex.py:376-402 | An encoding consists of whole words |
| `Layouts.Padding` | src/dolmos/pcex.py:382-384 | Bytes are filled up with zeros to the next word |
| `Layouts.EncodeItems` | src/dolmos/pcex.py:389-402 | Computes heads and tails: a dynamic component is encoded in the tail that its head points to |
| `Layouts.DecodesLayout` | src/dolmos/pcex.py:333-373 | Decoding any layout that may hold surplus elements, at any offset of any data, returns the value its length fields select if every array has at most 4096 elements and as many words behind it and every offset is inside the data, and fails otherwise |
| `Layouts.DecodesEncoding` | src/dolmos/pcex.py:333-402 | For every value, decoding its encoding at any offset inside larger data returns the value exactly under that condition, and fails otherwise |
| `Layouts.RoundTrip` | src/dolmos/pcex.py:333-402 | Decoding an encoded value at any offset inside larger data returns the value, for all types without zero-sized components, arrays up to 4096 elements and data below 2^256 bytes |
| `Layouts.ZeroSizedFails` | src/dolmos/pcex.py:346-368 | Two values whose encoding, taken alone, cannot be decoded: an array of empty tuples, and the tuple of bytes[0] |
| `Words32.BigEndianValue` | src/dolmos/pcex.py:327-330 | A word is read back as the number written |
| `SymbolicCalldata.Calldata.DynSizes` | src/dolmos/calldata.py:129-152 | Every dynamic parameter is recorded once with its candidates and a new length symbol |
| `SymbolicCalldata.Calldata.EncodeTuple` | src/dolmos/calldata.py:247-282 | For all components: static exactly if all are taken for static, with the size of its data, short of the specified size by one word for each component taken for static by mistake; if all components represent their layouts, the heads, offsets and tails of the specification |
| `SymbolicCalldata.Calldata.Encode` | src/dolmos/calldata.py:154-245 | For every type: the size is that of the data, so that the check of create never fails; the encoding has the shape of the type, on distinct symbols, with one record for each array and byte string and as many items or bytes as the largest candidate of its record; it represents the specified layout, with the right staticness, for every choice of the symbols if and only if no part that occurs is dynamic only within arrays of length zero |
| `SymbolicCalldata.PicksAllowed` | src/dolmos/calldata.py:218-231 | For any combination of candidates of the records there is a choice of the symbols with these lengths for which there is room in the encoding |
| `SymbolicCalldata.StaticIsTaken` | src/dolmos/calldata.py:279-280 | A static type is taken for static, and without zero-sized parts so is no other |
| `SymbolicCalldata.EmptyFixedTypes` | src/dolmos/calldata.py:279-280 | T[0], T[0][n] and (T[0]) are taken for static; this is right exactly for a static T |
| `SymbolicCalldata.EmptyFixedArray` | src/dolmos/calldata.py:279-280 | Parameters without words, such as these, are encoded as nothing; strict decoding fails exactly if the specification calls one of them dynamic |
| `SymbolicCalldata.GeneralizedEncoding` | src/dolmos/calldata.py:191-208 | For every choice of each length up to its largest candidate, strict decoding yields exactly the first that-many elements or bytes, through nested dynamic types, unless it fails on an array or offset as above |
| `SymbolicCalldata.CandidatesWithin` | src/dolmos/calldata.py:218-223 | With array candidates up to 4096, no array of the encoding is longer than the decoder accepts |
| `SymbolicCalldata.SizedEncoding` | src/dolmos/calldata.py:191-208 | It never fails for types without zero-sized parts and candidates up to 4096 for arrays |
| `SymbolicCalldata.EverySizeDecodes` | src/dolmos/calldata.py:191-231 | For any combination of candidates of the records there is a choice for which strict decoding yields a value of exactly these lengths |
| `SymbolicCalldata.ChosenLength` | src/dolmos/calldata.py:207-231 | The part of the value for an array or byte string has as many elements or bytes as its length symbol says |
| `WordOps.MulMeans` | src/dolmos/bitvec.py:503-543 | Shortcuts for constants and powers of two, and the abstraction, denote the EVM product |
| `WordOps.DivMeans` | src/dolmos/bitvec.py:545-576 | Denotes EVM division if and only if there is an abstraction, the divisor is concrete, or it is not zero |
| `WordOps.ModMeans` | src/dolmos/bitvec.py:607-656 | Denotes EVM remainder if and only if there is an abstraction, the divisor is concrete, or it or the dividend rules the zero case out |
| `WordOps.AddmodMeans` | src/dolmos/bitvec.py:726-754 | Denotes the EVM operation without overflow if and only if there is an abstraction, the modulus is concrete or not zero, or the sum is zero modulo 2^w |
| `WordOps.MulmodMeans` | src/dolmos/bitvec.py:756-788 | Likewise for the widened product |
| `WordOps.ShlMeans` | src/dolmos/bitvec.py:804-819 | Left shift, with its shortcuts |
| `WordOps.ShrMeans` | src/dolmos/bitvec.py:821-839 | Logical right shift, with its shortcuts |
| `WordOps.ExpOp` | src/dolmos/bitvec.py:691-724 | Repeated multiplication denotes the power; otherwise the abstraction is applied, or there is none |
| `Clz.LadderStep` | src/dolmos/bitvec.py:880-890 | One halving step keeps the count in the remaining window of the word |
| `Clz.CountLeadingZeros` | src/dolmos/bitvec.py:852-895 | The ladder of eight steps counts the leading zeros of every 256-bit word, including zero |
| `Exponent.ExpTable` | src/dolmos/solve.py:922-949 | The table equals base^e mod 2^256 for every e if the base is even or 1, and below 256 otherwise, beyond which it is the given fallback |
| `Exponent.EvenPowMod` | src/dolmos/solve.py:926-927 | Powers of an even base vanish from exponent 256 on |
| `Exponent.SquareAndMultiply` | src/dolmos/solve.py:952-981 | The definitions hold exactly if the result is base^exponent mod 2^256, for suitable intermediate values, with at most two definitions per bit |
| `Refinement.ExactFact` | src/dolmos/solve.py:984-992 | The definition made for one application, by table or by squares and products: its models have the real power wherever there is one, and with the intended products and squares every such interpretation is a model |
| `Refinement.ExactFacts` | src/dolmos/solve.py:984-992 | The same for all applications at once |
| `Refinement.RealSatisfies` | src/dolmos/solve.py:894-999 | The real functions, with these products and squares, satisfy every declaration and fact that is added to a query |
| `Refinement.CheckUnsatCores` | src/dolmos/solve.py:1187-1192 | Finds a core all of whose names are asserted, if there is one |
| `Refinement.SolverCore` | src/dolmos/solve.py:359-368 | The core of any query, with whatever facts and definitions, names conditions that cannot hold together with the real functions |
| `Refinement.CoreExcludes` | src/dolmos/solve.py:1187-1192 | A query that contains such a core has no counterexample with the real functions |
| `Refinement.SolveEndToEnd` | src/dolmos/solve.py:589-625 | No call if the query contains a known core, a second one with real arithmetic exactly if the first finds an invalid model, and then its answer; unsat only if there is no counterexample with the real functions, and a core that is returned is such a core |
| `Refinement.CheckModel` | src/dolmos/solve.py:1090-1125 | A model is confirmed exactly if all applications and all hashes have their real values and nothing else is abstracted |
| `Refinement.RefineExp` | src/dolmos/solve.py:1055-1184 | Each further query is asked because of a model that is not confirmed, and asserts the definitions, the real powers at all operands that this model has wrong, and all its new hashes; the result is that of the last answer, unsat if it is, confirmed if its model is; a model is given up only for an undecided or unreadable answer, an incomplete list, the number of rounds, or if all that it has wrong is asserted already; never unsat if there is a real counterexample; no core is reused |
| `Refinement.ExpRunUnsat` | src/dolmos/solve.py:1066-1069 | As soon as a query of such a run has no model, neither has the result |
| `Refinement.RefineKeccak` | src/dolmos/solve.py:702-769 | The same for hashes: each further query adds the real hashes of all arguments in the model before it, up to the number of rounds; a valid result has only hashes pinned to their real values |
| `Refinement.SolvingContext.Solve` | src/dolmos/solve.py:569-586 | A query with exactly the refinements that it needs, given the cores that are known |
| `Refinement.SolvingContext.Report` | src/dolmos/__main__.py:1084-1090 | The non-empty core of an unsatisfiable query is stored; all stored cores exclude the real functions |
| `Refinement.SolvingContext.SolveAll` | src/dolmos/__main__.py:1012-1090 | Over any interleaving of started and reported queries that share their cores, none that ends unsat has a counterexample with the real functions |
| `Expectations.LogMatchesMeans` | src/dolmos/expectations.py:395-412 | The condition holds exactly when emitter, checked topics and data agree |
| `Expectations.EmbedsStep` | src/dolmos/expectations.py:443-449 | The recurrence of the matcher is that of ordered subsequences |
| `Expectations.EmbedsTooMany` | src/dolmos/expectations.py:441-442 | Pruning is right: too few remaining logs leave no embedding |
| `Expectations.Matcher.MatchesFrom` | src/dolmos/expectations.py:438-450 | The memoised, pruned recursion denotes that the remaining expectations are an ordered subsequence of the remaining logs |
| `Expectations.CountMeans` | src/dolmos/expectations.py:429-432 | The sum condition says that exactly the expected number of logs match |
| `Expectations.EmitsMatch` | src/dolmos/expectations.py:415-455 | The condition is true exactly when all counted expectations have their counts and the plain ones embed in order; an unfilled expectation is an error |
| `Expectations.LogsInOrder` | src/dolmos/expectations.py:386-392 | The logs of a call are those of its trace in execution order, with the logs of nested calls in their place |
| `Expectations.PlainInOrder` | src/dolmos/expectations.py:433-436 | The expectations without a count, in order |
| `Expectations.Pending.CaptureLog` | src/dolmos/expectations.py:127-132 | A log fills the first expectation without one, and nothing else |
| `Expectations.FindReverter` | src/dolmos/expectations.py:368-383 | The target at the end of the chain of calls that bubbled up the same revert data |
| `Expectations.LastCall` | src/dolmos/sevm.py:618-627 | The last call of a trace, which no other call follows, if there is one |
| `World.Exec.TransferValue` | src/dolmos/sevm.py:2696-2724 | Exactly the two balances move by the amount without wrap-around, self-transfer included; it is considered exactly if the caller has enough and no balance read is above the cap |
| `World.MovedConserves` | src/dolmos/sevm.py:2720-2724 | Moving an amount keeps the total and changes no other account |
| `World.Exec.CallKnown` | src/dolmos/sevm.py:2785-2849 | With a storage that is shared and updated in place, saved copies and restoring, a call has the outcome and the state of a call on values, where a failed callee simply leaves the state of the caller |
| `World.Exec.CreateContract` | src/dolmos/sevm.py:3085-3222 | The same for creations; the code is installed only on success, and a collision changes nothing but the nonce |
| `World.Exec.Deploy` | src/dolmos/sevm.py:3146-3222 | The new account, the creation code and its result, on saved copies |
| `World.Exec.Run` | src/dolmos/sevm.py:2785-2849 | Any tree of nested calls and creations ends with the outcome and the state of the same tree on values |
| `World.RunConserves` | src/dolmos/sevm.py:2696-2849 | The total balance is conserved over any tree of nested calls and creations, failed ones included |
| `World.FailureRollsBack` | src/dolmos/sevm.py:2833-2838 | A failed call or creation leaves code, storage, transient storage and balances as before |
| `Traces.RunLeaves` | src/dolmos/sevm.py:2696-3222 | Over any tree of calls and creations that ends with success or failure: each slot holds the word of the last write that is in no failed frame and after any reset, else its old word; each balance is the old one plus and minus the values sent in no failed frame; code is what creations in no failed frame deployed; nonces count failed creations too. The outcome is that of a log from which nothing is ever removed |
| `Traces.CallInlines` | src/dolmos/sevm.py:2785-2849 | A call within the funds whose body succeeds does what a bare transfer and the body would do in the calling frame |
| `Traces.TransferSucceeds` | src/dolmos/sevm.py:2696-2724 | A bare transfer within the funds, with no balance above the cap, succeeds and moves exactly the value |
| `SolidityStorage.StorageData.MigrateFlatSlot` | src/dolmos/sevm.py:2004-2047 | Moving a flat entry to its structured place changes no value of the plain slot map |
| `SolidityStorage.StorageData.Load` | src/dolmos/sevm.py:1957-1979 | A load returns the last value stored at the slot, or zero, no matter when the preimage became known |
| `SolidityStorage.StorageData.Store` | src/dolmos/sevm.py:1981-2002 | A store changes exactly its slot of the plain slot map |
| `SolidityStorage.StorageData.Learn` | src/dolmos/sevm.py:1245-1257 | Learning a preimage changes no value |

## Left out

- `LassoBuilder.BuildLasso`: that no behaviour is added is stated for the whole lasso in exact mode only, as the dropped upper bounds do add behaviours in small mode; which runs are those of the loop there is `ExactLassos.RunIsExact`.
- Identity of z3 terms (`get_id`) is structural equality, and identifiers are assumed not to be recycled while a memo holds them.
- Array terms, n-ary `distinct`, equality of non-bitvectors and opaque operators without arguments other than symbols are not modelled as terms of their own; they are uninterpreted operators.
- JSON output, the PaSTTeL run, the extraction of loop bodies and the text form of formulas: formulas are datatypes with a meaning.
- Solver timeouts are `Unknown` answers; the solver is a function of its query.
- `Lasso`: body paths are assumed to exist (the caller stops otherwise), and the names of previous-iteration variables are assumed not to occur in the terms.
- The `related` sets, the concretization candidates and the branching flags of path conditions.
- `Explorer.Explorer.JumpAll`: executions whose symbolic jump destination is no valid destination are lost by the code when another destination is possible; they are recorded as lost, not covered.
- Opcode dispatch other than JUMPI, JUMP and halting: one abstract deterministic successor; calls, cheatcodes, precompiles, address aliasing and calldata size candidates are not explored.
- The extraction of lassos inside `jumpi`, statistics and status output.
- `ByteVecs.ByteVec.SetSlice`: a vector stored by an aligned write is kept by reference in the source; later changes to that vector are not visible in the model, which stores a copy.
- Appending a vector to itself, comparison of vectors, `set_word` and `get_word` (thin wrappers).
- Names and internal types of ABI parameters, reading values from models, clean-value checks and rendering of counterexamples.
- `Layouts.EncodeValue`: offsets and lengths beyond 2^256 are an overflow error in the source; the theorems about decoding ask for lengths and data below that.
- `SymbolicCalldata.Calldata.Encode`: an empty list of size candidates is an error in the source, and counts as zero here.
- The function selector, JSON type parsing and the uniqueness suffix of symbol names (a counter here).
- Simplification of terms after each word operation; the signed operations, bit operations and `byte`, which map to one solver operation each (`sdiv` without an abstraction fails in the code, as src/dolmos/bitvec.py:602-603 divides two wrappers that have no division).
- SMT-LIB text, regular expressions and solver processes; keccak is a given function; the explanation text of potentially invalid models. Queries run in threads in the source: here they interleave between starting and reporting.
- Revert expectations (`expectRevert`) and the fork of failing paths.
- `World.Exec.CreateContract`: nonces are not rolled back on failure, as in the code; address derivation, precompiles, static calls, call depth and self-destruction are left out.
- `SolidityStorage.KeccakRegistry.Register`: preimages are one hash deep and looked up exactly; nested hashes whose inner preimage is learned later can lose values in the code, and offsets into arrays are not modelled.
- Symbolic storage and symbolic slots; generic storage.
