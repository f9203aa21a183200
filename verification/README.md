# Verified models of NOELLE's core algorithms

NOELLE is a layer over LLVM for parallelizing compilers. This project models its algorithmic core in
Dafny and proves properties of the models. LLVM objects are small datatypes here: blocks, instructions,
functions and SCCs are numbers, a function body is a map from labels to blocks, machine integers are
residues modulo a power of two, and locks are booleans. Code that edits objects in place is modelled by
classes and loops, each tied to a specification function or predicate about which the lemmas speak.
Code that runs concurrently is modelled as a state machine over its atomic steps, and its properties
are stated for every interleaving.

| component | files | main results |
|---|---|---|
| partition graph of SCCs | `PartitionSpec.dfy`, `SccPartition.dfy`, `SccPartitioner.dfy` | merge and collapse is the finest acyclic partition; topological order; exact cycle prediction |
| loop whilification | `ControlFlow.dfy`, `WhilifySpec.dfy`, `Whilify.dfy` | the rewritten function has the same runs, and the new loop is a while loop if and only if the loop is accepted |
| chunked induction variables | `MachineInt.dfy`, `ChunkedIv.dfy` | exactly when every iteration runs on one core once and no other runs |
| reductions | `ReducibleUpdates.dfy`, `ParallelReduction.dfy` | parallel execution, through memory, equals sequential execution modulo 2^w; exactly which updates are accepted |
| HELIX runtime | `Helix.dfy`, `HelixSingleArray.dfy` | one token per segment, iteration order, progress, termination; when one array gets stuck |
| DOALL runtime | `DoallRuntime.dfy` | join waits for all tasks, blocks have one user, cores are conserved, every run ends |
| symbolic division | `Congruence.dfy`, `ScevExpr.dfy`, `DivisionForms.dfy`, `ScevDivision.dfy`, `RowMajor.dfy`, `ShortcutDivision.dfy` | the division law modulo 2^w and what division finds; delinearization there and back; exactly when the shortcut is right |
| disjointness of accesses | `Disjointness.dfy`, `HeaderBounds.dfy`, `MixedRadix.dfy`, `SubscriptMatching.dfy`, `DisjointAccesses.dfy`, `DifferentExtents.dfy`, `DifferentBases.dfy`, `WrongMatches.dfy` | a yes means different elements and bytes in different iterations; exactly which extents and bases never meet and which searches are right |
| transitive closure | `BitMatrix.dfy` | a bit per path although rows change while they are walked |
| data-flow engines | `DataFlowEquations.dfy`, `DataFlowEngine.dfy`, `ReachableAnalysis.dfy`, `ReachingInstructions.dfy` | least solutions; what is reachable and what reaches |
| memory regions | `MemRegions.dfy` | representatives are the maximal sets; loads meet stores |
| call-graph islands | `CallGraphIslands.dfy` | islands are the connected classes |

`Graph.dfy` (walks and reachability) and `Options.dfy` are shared.

## Where the code falls short of its intent

These are theorems of the model, each with the exact condition or a concrete case.

- `getDepthOrderedSets` fails its first assertion on the empty graph, and its second one exactly on
  graphs with a cycle (`SccPartition.SccdagPartition.GetDepthOrderedSets`).
- The partition constructor does not skip dependences inside one set; the quotient invariant holds
  after it exactly when there are none (`SccPartition.SccdagPartition.constructor`,
  `SccPartition.InnerDependenceLeavesLoop`).
- A switch that enters the latch is not rerouted, so it is left pointing at the erased latch
  (`WhilifySpec.WhilifiedClosedIff`, `WhilifySpec.SwitchIntoLatchDangles`).
- The widened exit test covers the loop exactly when it fails in every sequential iteration and holds
  where each core first finds itself at or past the trip count (`ChunkedIv.CoversIffOvershootsExit`).
  It fails early for signed loops with an equality exit that cross zero
  (`ChunkedIv.EqualityExitIffSameSign`). It is missed at an overshoot that wraps around, although the
  sequential loop does not wrap, for equality and for ordered exits (`ChunkedIv.EqualityOvershootWraps`,
  `ChunkedIv.OrderedOvershootWraps`). An NE exit is covered only if the other cores' first values miss
  the bound (`ChunkedIv.NotEqualCoversIff`).
- The identity of And is 1, so only the lowest bit is reduced: the parallel value is right for all
  iterations and splits exactly when the initial value is 0 or 1
  (`ParallelReduction.AndCorrectIffInitialBit`).
- `x + x` and `x * x` pass the pairwise checks of reducible updates, and every accepted list with one of
  them has a run in which the parallel value is wrong (`ReducibleUpdates.CombinationIffUsedOnce`,
  `ParallelReduction.ReductionCorrectIffUsedOnce`).
- `reserveCores` compares the signed idle count as unsigned; its grant is within the count exactly when
  the count is positive (`DoallRuntime.GrantWithinIdleIff`).
- A single HELIX array gives mutual exclusion only: order may be lost
  (`HelixSingleArray.SingleArrayLosesOrder`), and two iterations of different cores that take two
  segments in opposite orders, with no segment around both, may block each other for ever
  (`HelixSingleArray.CrossedMayBlock`, `HelixSingleArray.SingleArrayMayDeadlock`). With two segments that
  is the only way to get stuck (`HelixSingleArray.TwoSegmentsIff`); with any number, one common order
  rules it out (`HelixSingleArray.SingleArrayProgress`).
- The division shortcut is right if and only if the finite differences of the numerator, as a polynomial
  in the unknown, vanish from the second order on in the arithmetic of its width; without bound, if and
  only if it has no power above the first. The code does not check that
  (`ShortcutDivision.ShortcutLawIff`, `ShortcutDivision.ShortcutOnSquare`, `ShortcutDivision.ShortcutOnBits`).
- `isOneToOneFunctionOnIV` accepts squares and products with zero (`Disjointness.CheckAcceptsSquares`);
  the source notes this at src/core/loops/src/LoopIterationDomainSpaceAnalysis.cpp:493-494.
- The bound check of inner subscripts does not look at the start value and treats `i <= n` as `i < n`
  (`HeaderBounds.BoundIsRealIff`, `HeaderBounds.LooseTestIsAccepted`).
- The search for the instruction of a subscript stops at any indexed expression that is not a recurrence,
  as the cast of an induction variable is. It is right for a subscript, in whatever order the hash tables
  are walked, exactly under `SubscriptMatching.SafeIndex` (`SubscriptMatching.RightInEveryOrderIff`), and
  right for all subscripts exactly when only recurrences are indexed (`SubscriptMatching.RightForAllIff`).
  Otherwise two iterations that access one address may be declared disjoint
  (`WrongMatches.CastMatchIsWrong`).
- The disjointness decision compares neither the extents of the two accesses nor their bases. Accesses
  never meet if and only if the extents agree at the root dimension (`MixedRadix.NeverMeetIff`); rows of
  different length are accepted and meet (`DifferentExtents.ExtentsMustAgree`). With agreeing extents they
  never share a byte if and only if the bases agree there (`MixedRadix.ApartIff`); two arrays that start
  apart are accepted and share memory (`DifferentBases.BasesMustAgree`).
- Sizes and positions of a bit matrix are 32-bit: they fit exactly below 65536 rows
  (`BitMatrices.PositionsFitIff`).

## Assumptions

- The SCC iterator is used through its contract: it lists the strongly connected components reachable
  from an entry (`SccPartition.ComponentsFrom` is such a search). Top-level nodes are the nodes without
  an incoming edge.
- The code that stitches the chunked loop together is not part of this model; core c starts at
  start + c*C*step, the chunk step is (N-1)*C*step, and private copies start at the table's identity.
- A HELIX iteration waits for each segment once and signals it once, afterwards. The number of
  iterations is given.
- The expression builder of scalar evolution keeps values modulo 2^w, does not raise degrees, and when
  subtracting an expression's value at 0 simplifies at all, the difference vanishes at 0
  (`ScevExpr.Trusted`; `ScevExpr.PlainEvolutionIsTrusted` gives an instance).
- What division finds, and that delinearization recovers subscripts, is stated for builders that also keep
  forms: zeros and differences of equal expressions fold, and an unknown that is a factor in every term, or
  an operand of every product it occurs in, stays so (`DivisionForms.Canonical`;
  `RowMajor.ZeroFoldingIsTrusted` gives an instance). The division law does not need this.
- Scalar evolution gives an instruction an expression with its value, and an instruction of an induction
  variable a recurrence over that variable's loop (`DisjointAccesses.ScevIsRight`). Subscripts and loop
  bounds are unbounded integers; `HeaderBounds.AcceptedTestOfValues` relates them to machine words.
- The chunk counter can hold the chunk size, unless there is only one core (`ChunkedIv.ChunkCounts`); for
  the composed result this follows from the check against wrap-around.
- Client functions of the data-flow engines are monotone, stay within a finite universe and only
  insert, which is how the engines use them.

## Model

| member | source | states |
|---|---|---|
| SccPartition.SccdagPartition.constructor | src/core/loops/src/SCCDAGPartition.cpp:16-60 | one node per initial set; there is an edge from one set to another exactly where a member of the second is a key of the parents map and has a member of the first among its parents; the result is valid, its edges the quotient graph, if and only if no initial set holds an SCC and one of its parents |
| SccPartition.InnerDependenceLeavesLoop | src/core/loops/src/SCCDAGPartition.cpp:16-60 | one initial set with an SCC and its parent: the graph gets an edge from the set to itself |
| SccPartition.SccdagPartition.AddInitialSets | src/core/loops/src/SCCDAGPartition.cpp:16-34 | the members of the j-th initial set, and nothing else, are mapped to the j-th node |
| SccPartition.SccdagPartition.AddParentEdges | src/core/loops/src/SCCDAGPartition.cpp:35-60 | an edge A to B exactly where a member of A is a parent of a member of B, self edges included |
| SccPartition.SccdagPartition.MergeSets | src/core/loops/src/SCCDAGPartition.cpp:93-154 | the sets become one new set, no other SCC moves, and the edges are again exactly the quotient graph of the new partition |
| SccPartition.SccdagPartition.RemapMembers | src/core/loops/src/SCCDAGPartition.cpp:100-112 | exactly the members of the merged sets change set |
| SccPartition.SccdagPartition.TransferIncoming | src/core/loops/src/SCCDAGPartition.cpp:114-131 | edges into a merged set are copied onto the new set, except those from merged members, although edges are added while others are still to be copied |
| SccPartition.SccdagPartition.TransferOutgoing | src/core/loops/src/SCCDAGPartition.cpp:133-147 | the same for edges that leave a merged set |
| SccPartition.MovedIsContract | src/core/loops/src/SCCDAGPartition.cpp:114-154 | copied edges plus the edges not touching a merged set are the contracted graph |
| SccPartition.FusedIffIn | src/core/loops/src/SCCDAGPartition.cpp:120-131 | looking at any one member of a neighbour decides whether the neighbour was merged |
| SccPartition.SccdagPartition.FindComponents | src/core/loops/src/SCCDAGPartition.cpp:156-198 | one traversal per unvisited node lists every strongly connected component of the whole graph once |
| SccPartition.SccdagPartition.CollapseCycles | src/core/loops/src/SCCDAGPartition.cpp:156-215 | two SCCs share a set afterwards if and only if their sets were in one strongly connected component before |
| SccPartition.CollapseStep | src/core/loops/src/SCCDAGPartition.cpp:200-215 | merging one component leaves the other components, still to be merged, untouched |
| SccPartition.SccdagPartition.MergeSetsAndCollapseResultingCycles | src/core/loops/src/SCCDAGPartition.cpp:88-91 | the result is the finest acyclic partition that puts the given sets together: sets are fused only if requested together or put on a common cycle by the request |
| PartitionSpec.QuotientOfFuse | src/core/loops/src/SCCDAGPartition.cpp:93-154 | the quotient graph of the merged partition is the contraction of the old quotient graph |
| PartitionSpec.CollapseAcyclic | src/core/loops/src/SCCDAGPartition.cpp:156-215 | collapsing all cycles leaves none |
| PartitionSpec.CollapseLeast | src/core/loops/src/SCCDAGPartition.cpp:156-215 | collapsing puts nothing together that an acyclic coarser partition keeps apart |
| PartitionSpec.MergeThenCollapseLeast | src/core/loops/src/SCCDAGPartition.cpp:88-91 | merge followed by collapse is the least acyclic merge |
| PartitionSpec.LeastForOneMorePair | src/core/loops/src/SCCDAGPartition.cpp:574-582 | least merges compose: one more requested pair after a least merge gives the least merge for all pairs |
| PartitionSpec.LeastForPairsUnique | src/core/loops/src/SCCDAGPartition.cpp:574-582 | the partition reached from a set of pairs does not depend on the order in which they are taken |
| PartitionSpec.CycleIsBetween | src/core/loops/src/SCCDAGPartition.cpp:461-473 | after merging a and b exactly the sets strictly between them lie on a cycle with the merged set |
| PartitionSpec.MergeCyclicIffBetween | src/core/loops/src/SCCDAGPartition.cpp:447-459 | merging a and b closes a cycle if and only if some other set lies between them |
| SccPartition.SccdagPartition.GetDepthOrderedSets | src/core/loops/src/SCCDAGPartition.cpp:217-272 | on every graph the queue empties; neither assertion fails if and only if the graph is nonempty and acyclic, and then every set is listed once, after all of its parents; for every valid partition, also after merges, the set of a parent SCC comes before the set of its child |
| SccPartition.DepthOrderComplete | src/core/loops/src/SCCDAGPartition.cpp:217-272 | as many sets are placed as there are nodes if and only if the graph has no cycle |
| SccPartition.ReadyAfterPlacing | src/core/loops/src/SCCDAGPartition.cpp:240-268 | a set whose parents are all placed is placed or waiting in the queue, so skipping a set with a missing parent loses nothing |
| SccPartitioner.SccdagPartitioner.IsAncestor | src/core/loops/src/SCCDAGPartition.cpp:407-426 | true exactly when a path of edges leads from the target parent to the set; it ends without a visited set |
| SccPartitioner.PoppedBound | src/core/loops/src/SCCDAGPartition.cpp:407-426 | the measure behind that: the parents of a set weigh less than the set |
| SccPartitioner.SccdagPartitioner.GetParentChildPair | src/core/loops/src/SCCDAGPartition.cpp:428-436 | the pair is ordered by ancestry if it is related at all |
| SccPartitioner.SccdagPartitioner.GetDescendants | src/core/loops/src/SCCDAGPartition.cpp:475-496 | the sets reachable by one or more edges |
| SccPartitioner.SccdagPartitioner.GetAncestors | src/core/loops/src/SCCDAGPartition.cpp:498-519 | the sets that reach the given one by one or more edges |
| SccPartitioner.SccdagPartitioner.IsMergeIntroducingCycle | src/core/loops/src/SCCDAGPartition.cpp:447-459 | true exactly when the merged graph has a cycle |
| SccPartitioner.SccdagPartitioner.GetCycleIntroducedByMerging | src/core/loops/src/SCCDAGPartition.cpp:461-473 | exactly the sets that a collapse after the merge would fuse with the two |
| SccPartitioner.SccdagPartitioner.MergePair | src/core/loops/src/SCCDAGPartition.cpp:567-572 | returns the set that now holds both and the invariant of the partition is kept |
| SccPartitioner.SccdagPartitioner.MergeAllPairs | src/core/loops/src/SCCDAGPartition.cpp:574-582 | the finest acyclic partition in which every pair is together |
| Whilify.GetSinglePredecessor | src/core/loop_whilifier/src/LoopWhilify.cpp:337-365 | a predecessor is returned exactly when one edge enters the block |
| Whilify.IsSemanticLatch | src/core/loop_whilifier/src/LoopWhilify.cpp:337-401 | the latch is compressed away exactly if it is empty, ends in an unconditional branch, and one target of one block is the only edge that enters it |
| Whilify.IsAppropriateToWhilify | src/core/loop_whilifier/src/LoopWhilify.cpp:403-499 | true exactly when no other loop block that enters the latch leaves the loop |
| Whilify.IsDoWhile | src/core/loop_whilifier/src/LoopWhilify.cpp:502-582 | true exactly when the semantic latch leaves the loop and is appropriate; then, and only then, an empty latch is compressed away; a branch at its predecessor is needed only for that |
| Whilify.CanWhilify | src/core/loop_whilifier/src/LoopWhilify.cpp:584-636 | adds the preheader and single-latch conditions; a rejected function is unchanged, and accepted loops may have a switch at the latch |
| Whilify.CompressStructuralLatch | src/core/loop_whilifier/src/LoopWhilify.cpp:271-334 | the function graph is the compressed graph and the context describes the compressed loop |
| Whilify.TransformSingleBlockLoop | src/core/loop_whilifier/src/LoopWhilify.cpp:638-676 | the block is split before its terminator and exit edges are moved to the new latch |
| Whilify.BuildAnchors | src/core/loop_whilifier/src/LoopWhilify.cpp:679-730 | top anchor, bottom anchor and new preheader are inserted and nothing else changes |
| Whilify.CloneBlocks | src/core/loop_whilifier/src/LoopWhilify.cpp:733-790 | every loop block gets a copy at a new label, with maps that are inverse to each other |
| Whilify.RemapInstructionsInBlocks | src/core/loop_whilifier/src/LoopWhilify.cpp:733-792 | references to loop blocks become references to their copies inside the copies only |
| Whilify.RerouteLoopBranches | src/core/loop_whilifier/src/LoopWhilify.cpp:1230-1270 | every branch to the old latch goes to the new header; other terminators are not touched |
| Whilify.PeelStages | src/core/loop_whilifier/src/LoopWhilify.cpp:98-249 | the rewriting steps, in their order, produce the whilified graph block by block |
| Whilify.PeelAndReroute | src/core/loop_whilifier/src/LoopWhilify.cpp:98-249 | the steps from the anchors to the erased latch turn a prepared loop into its whilified graph |
| Whilify.WhilifyLoop | src/core/loop_whilifier/src/LoopWhilify.cpp:98-249 | a rejected loop leaves the function as it was; every accepted one becomes its whilified graph, which has no dangling target if and only if all latch predecessors end in branches, and then the same runs as before and a while loop; the semantic latch must end in a branch, as the cast at line 781 demands |
| WhilifySpec.CompressErases | src/core/loop_whilifier/src/LoopWhilify.cpp:271-334 | the graph before compression is the compressed one with the empty latch as a silent block |
| WhilifySpec.SplitErases | src/core/loop_whilifier/src/LoopWhilify.cpp:638-676 | the split graph is the unsplit one with the new latch as a silent continuation |
| WhilifySpec.WhilifyErases | src/core/loop_whilifier/src/LoopWhilify.cpp:679-792 | each block of the new graph, anchors skipped and copies renamed, does what its original does |
| WhilifySpec.WhilifiedClosedIff | src/core/loop_whilifier/src/LoopWhilify.cpp:1230-1270 | the new graph has no dangling target if and only if all latch predecessors end in branches: a switch into the latch is left pointing at the erased block |
| WhilifySpec.SwitchIntoLatchDangles | src/core/loop_whilifier/src/LoopWhilify.cpp:1230-1270 | an accepted three-block loop with a switch into its latch, whose whilified graph has a dangling target |
| WhilifySpec.NewLoopIsWhile | src/core/loop_whilifier/src/LoopWhilify.cpp:98-249 | the new loop is entered only at its header, the header leaves it, and no block that returns to the header does |
| WhilifySpec.NewLoopIsWhileIff | src/core/loop_whilifier/src/LoopWhilify.cpp:403-499 | for a prepared loop whose latch branches and leaves: the new loop is a while loop if and only if every other block that enters the latch stays in the loop |
| WhilifySpec.WhileLoopIffAccepted | src/core/loop_whilifier/src/LoopWhilify.cpp:98-582 | acceptance is exact: for a loop whose semantic latch branches and leaves it, the whilified loop is a while loop if and only if the loop is accepted |
| WhilifySpec.WhilifyPreservesRuns | src/core/loop_whilifier/src/LoopWhilify.cpp:98-249 | for every accepted loop, machine, entry block and state: each prefix of a run of the one graph is, after erasing silent blocks and renaming copies, a prefix of a run of the other |
| ControlFlow.ViewOfRun | src/core/loop_whilifier/src/LoopWhilify.cpp:98-249 | a run of the graph with silent blocks, seen through the erasure, is a run of the other graph |
| ControlFlow.RunHasView | src/core/loop_whilifier/src/LoopWhilify.cpp:98-249 | and every run of the other graph is seen that way |
| ControlFlow.ErasedGraphsSameRuns | src/core/loop_whilifier/src/LoopWhilify.cpp:98-249 | two graphs that erase to a common one have the same runs |
| ChunkedIv.ClosedForm | src/core/induction_variables/src/IVStepperUtility.cpp:15-70 | after k latches the IV is start + k*step + (k div C)*chunkStep in the arithmetic of its width, and the chunk counter is k mod C |
| ChunkedIv.Latch | src/core/induction_variables/src/IVStepperUtility.cpp:41-70 | the generated latch code is one step of that recurrence |
| ChunkedIv.RunChunkedLoop | src/core/induction_variables/src/IVStepperUtility.cpp:15-70 | if the exit test succeeds after any number of latches, the generated loop ends, at the first such point, and has visited exactly the IV values before it |
| ChunkedIv.CoreIv | src/core/induction_variables/src/IVStepperUtility.cpp:72-118 | with start + c*C*step and chunk step (N-1)*C*step, pass k of core c has the IV value of one definite iteration of the original loop |
| ChunkedIv.LogicalOfCore | src/core/induction_variables/src/IVStepperUtility.cpp:15-70 | every iteration has a core and a pass |
| ChunkedIv.CoreOfLogical | src/core/induction_variables/src/IVStepperUtility.cpp:15-70 | and only one |
| ChunkedIv.LoopGoverningIVUtility.constructor | src/core/induction_variables/src/LoopGoverningIVUtility.cpp:15-100 | the stored predicate is the exit condition of the original comparison, read from IV to bound and widened along the step; the two flip flags say what has to be exchanged |
| ChunkedIv.LoopGoverningIVUtility.UpdateConditionAndBranch | src/core/induction_variables/src/LoopGoverningIVUtility.cpp:102-121 | afterwards the branch goes to the exit block exactly when the stored predicate holds of IV and bound, for every width and value |
| ChunkedIv.ExitPredicateIsExit | src/core/induction_variables/src/LoopGoverningIVUtility.cpp:54-60 | before the rewrite the branch goes to the exit block exactly when the normalised predicate holds |
| ChunkedIv.OrderedExits | src/core/induction_variables/src/LoopGoverningIVUtility.cpp:62-100 | a sign-compatible ordered test, widened, holds exactly from the trip count on |
| ChunkedIv.EqualityExits | src/core/induction_variables/src/LoopGoverningIVUtility.cpp:69-90 | so does an equality test that the IV reaches without unsigned wrap-around |
| ChunkedIv.EqualityExitIffSameSign | src/core/induction_variables/src/LoopGoverningIVUtility.cpp:69-90 | for a signed loop that reaches its bound after T steps, the unsigned widening of an equality test is right in the iterations 0..T if and only if start and bound have the same sign; past T see SignedEqualityCoversIff |
| ChunkedIv.EqualityExitAcrossZero | src/core/induction_variables/src/LoopGoverningIVUtility.cpp:69-90 | a loop from -1 to 1 in eight bits leaves before its first iteration |
| ChunkedIv.FirstPassReaches | src/core/induction_variables/src/IVStepperUtility.cpp:15-70 | the pass, in closed form, at which a core first finds itself at or past iteration T, at most N-1 chunks past it |
| ChunkedIv.CoversIffOvershootsExit | src/core/induction_variables/src/LoopGoverningIVUtility.cpp:62-142 | for every predicate, width, chunk size and number of cores: the cores execute exactly the iterations below T if and only if the widened test fails in all of them and holds at the N positions where the cores first find themselves at or past T |
| ChunkedIv.ExecutesIffBelow | src/core/induction_variables/src/LoopGoverningIVUtility.cpp:102-142 | a core that leaves where it overshoots executes a pass exactly when its iteration is below T, that is, in its first FirstPass passes |
| ChunkedIv.CoversExactlyOnce | src/core/induction_variables/src/IVStepperUtility.cpp:15-70 | then every iteration below T is executed by one core in one of its passes, no other is, and every core leaves its loop |
| ChunkedIv.DoallCoversLoop | src/core/induction_variables/src/LoopGoverningIVUtility.cpp:102-142 | the condition holds for every sign-compatible exit other than NE if nothing wraps up to N-1 chunks past the trip count |
| ChunkedIv.OrderedCoversIff | src/core/induction_variables/src/LoopGoverningIVUtility.cpp:77-100 | an ordered exit test is covered if and only if it holds at the overshoots |
| ChunkedIv.EqualityCoversIff | src/core/induction_variables/src/LoopGoverningIVUtility.cpp:69-76 | so is an equality test that the IV reaches without unsigned wrap-around |
| ChunkedIv.SignedEqualityCoversIff | src/core/induction_variables/src/LoopGoverningIVUtility.cpp:69-76 | an equality test that the IV reaches without signed wrap-around is covered if and only if start and bound have the same sign and the widened test holds at the overshoots |
| ChunkedIv.EqualityOvershootWraps | src/core/induction_variables/src/LoopGoverningIVUtility.cpp:69-76 | from 253 to 255 in eight bits nothing wraps in the sequential loop, but the second of two cores passes the bound at 256 and goes on |
| ChunkedIv.OrderedOvershootWraps | src/core/induction_variables/src/LoopGoverningIVUtility.cpp:90-100 | in the same way core 0 jumps from 254 to 256 and does not see that it passed 255 |
| ChunkedIv.NotEqualCoversIff | src/core/induction_variables/src/LoopGoverningIVUtility.cpp:65-68 | for an NE exit, whatever wraps: the loop has one iteration or none, and it is covered if and only if no core but the first starts on the bound and, with chunks of one, the second iteration of the first core is not on it either |
| ChunkedIv.RunCore | src/core/induction_variables/src/IVStepperUtility.cpp:15-118 | the loop generated for one core, if it leaves where it overshoots, ends after FirstPass passes and has visited, in order, the iterations below T that belong to it; the chunk counter must hold the chunk size unless there is only one core |
| ReducibleUpdates.AreUpdatesReducible | src/core/loops/src/Variable.cpp:196-215 | the two nested loops accept exactly the nonempty lists in which every update uses the variable and all are additions, or subtractions of outside values, or all are multiplications, or all are the same bitwise operator |
| ReducibleUpdates.PairwiseReducibleIff | src/core/loops/src/Variable.cpp:542-633 | the pairwise checks of commutativity and associativity come down to that condition on operators and operands |
| ReducibleUpdates.OneReducingOperator | src/core/loops/src/Variable.cpp:569-633 | all updates of an accepted variable share one reducing operator and one identity, so it does not matter which update the tables are asked about |
| ReducibleUpdates.UpdateIsCombination | src/core/loops/src/Variable.cpp:542-613 | an accepted update that uses the variable once acts as the reducing operator of the table applied to a fixed value, modulo 2^w |
| ReducibleUpdates.CombinationIffUsedOnce | src/core/loops/src/Variable.cpp:542-613 | an accepted update is such a combination if and only if it uses the variable once or is a bitwise operator: x + x and x * x pass the pairwise checks and are not reductions |
| ParallelReduction.TableIdentity | src/core/loops/src/AccumulatorOpInfo.cpp:30-50 | the identity table holds the neutral element of the reducing operator, except for And above width 1 |
| ParallelReduction.ReduceLiveOutVariables | src/core/loop_structure/src/EnvBuilder.cpp:323-514 | the generated loop folds, onto the initial value and in the order of the tasks, whatever values are at the starts of their cache lines |
| ParallelReduction.StorePrivateCopy | src/core/loop_structure/src/EnvBuilder.cpp:60-98 | a task stores its private copy at the start of its own cache line and changes nothing else |
| ParallelReduction.RunTasks | src/core/loop_structure/src/EnvBuilder.cpp:60-98 | in whatever order the tasks finish, every cache line then starts with the private copy of its task |
| ParallelReduction.RunAllIsTotal | src/core/loops/src/Variable.cpp:196-215 | sequential execution combines the initial value with the product of all effects |
| ParallelReduction.AdditionsAddUp | src/core/loops/src/Variable.cpp:196-215 | a loop of additions of outside values computes the initial value plus the sum of them, modulo 2^w |
| ParallelReduction.PrivateCopyIsTotal | src/core/loop_structure/src/EnvBuilder.cpp:363-511 | a private copy is its start value combined with the effects of the iterations of its core |
| ParallelReduction.ReduceIsProduct | src/core/loop_structure/src/EnvBuilder.cpp:363-511 | the fold is the initial value combined with the product of the copies |
| ParallelReduction.ReductionEqualsSequential | src/core/loop_structure/src/EnvBuilder.cpp:363-511 | for any assignment of iterations to cores, private copies started at the table identity and folded give the sequential value modulo 2^w, for Add mixed with Sub, Mul and Or, and And at width 1 |
| ParallelReduction.AndReducesToLowestBit | src/core/loops/src/AccumulatorOpInfo.cpp:30-50 | for And at any width the folded value is the lowest bit of the sequential one; see AndCorrectIffInitialBit for what that means for callers |
| ParallelReduction.AndCorrectIffInitialBit | src/core/loops/src/AccumulatorOpInfo.cpp:30-50 | for an accepted list of And updates of any width: parallel equals sequential for all iterations, splits and numbers of cores if and only if the initial value is 0 or 1 |
| ParallelReduction.ReductionCorrectIffUsedOnce | src/core/loops/src/Variable.cpp:542-613 | for an accepted list of updates whose table entry is neutral: parallel equals sequential for all iterations, splits and initial values if and only if every update uses the variable once or is bitwise; x + x in one iteration from 1 gives 1 instead of 2 |
| ParallelReduction.ChunkedLoopEqualsSequential | src/core/loop_structure/src/EnvBuilder.cpp:323-514 | if the widened test fails below the trip count and holds at the overshoots, every core of the generated recurrence leaves, has found the IV values of its own iterations, and the folded private copies are the sequential value |
| ParallelReduction.ParallelLoopEqualsSequential | src/core/loop_structure/src/EnvBuilder.cpp:323-514 | the same from a check on the loop alone, that nothing wraps up to N-1 chunks past the trip count: the parallel loop computes what the sequential loop computes |
| ParallelReduction.ReduceInParallel | src/core/loop_structure/src/EnvBuilder.cpp:60-98 | from end to end, through memory: for any assignment of iterations to cores and any order in which they finish, running from the table identity, storing and folding gives the sequential value |
| ParallelReduction.ReduceChunkedLoop | src/core/loop_structure/src/EnvBuilder.cpp:323-514 | the fold of the private copies that the generated chunked cores have stored at the starts of their cache lines is the sequential value |
| BitMatrices.BitMatrix.constructor | src/core/basic_utilities/src/BitMatrix.cpp:5-9 | resizing gives an n by n matrix without a set bit |
| BitMatrices.BitMatrix.Set | src/core/basic_utilities/src/BitMatrix.cpp:19-27 | exactly one bit changes although all rows share one vector |
| BitMatrices.BitMatrix.Test | src/core/basic_utilities/src/BitMatrix.cpp:29-33 | reads the bit of the pair |
| BitMatrices.IdxInjective | src/core/basic_utilities/src/BitMatrix.cpp:11-15 | no two pairs share a position |
| BitMatrices.PositionsFitIff | src/core/basic_utilities/src/BitMatrix.cpp:5-15 | in the 32-bit arithmetic of sizes and positions, every pair has a position of its own inside the vector if and only if there are fewer than 65536 rows |
| BitMatrices.BitMatrix.FirstSuccessor | src/core/basic_utilities/src/BitMatrix.cpp:35-56 | the least set column of the row; hits in later rows do not count |
| BitMatrices.BitMatrix.NextSuccessor | src/core/basic_utilities/src/BitMatrix.cpp:58-71 | the least set column after the given one |
| BitMatrices.BitMatrix.AbsorbRow | src/core/basic_utilities/src/BitMatrix.cpp:92-101 | row i becomes row i or row j, also when it is the row being walked along |
| BitMatrices.BitMatrix.PropagateRow | src/core/basic_utilities/src/BitMatrix.cpp:87-102 | bits set behind the cursor are not revisited, but the rows of all successors on entry are contained in row i afterwards |
| BitMatrices.RowProcessed | src/core/basic_utilities/src/BitMatrix.cpp:81-113 | every original edge keeps "row j is in row i, or i is queued" although rows change while queued rows wait |
| BitMatrices.NestedRowsHoldWalks | src/core/basic_utilities/src/BitMatrix.cpp:73-113 | rows nested along the original edges hold every path of one or more original edges |
| BitMatrices.BitMatrix.TransitiveClosure | src/core/basic_utilities/src/BitMatrix.cpp:73-113 | it ends, and bit (i, j) is set if and only if the original matrix has a path of one or more edges from i to j |
| DataFlowEngine.ComputeGENAndKILL | src/core/dataflow/src/DataFlowEngine.cpp:240-258 | GEN and KILL hold what the client computes for every instruction |
| DataFlowEngine.FeedTerminator | src/core/dataflow/src/DataFlowEngine.cpp:158-172 | OUT of the terminator takes in IN of the first instruction of every successor |
| DataFlowEngine.PropagateBackward | src/core/dataflow/src/DataFlowEngine.cpp:193-226 | walking up from the terminator makes the equations of all instructions of the block hold |
| DataFlowEngine.ProcessBackward | src/core/dataflow/src/DataFlowEngine.cpp:137-235 | one turn feeds the terminator, and when nothing is propagated no IN of the block has changed |
| DataFlowEngine.ApplyBackward | src/core/dataflow/src/DataFlowEngine.cpp:109-238 | for monotone, bounded, grow-only client functions the engine ends, although its list may hold a block several times, with the least solution of the instruction-level equations |
| DataFlowEquations.HeadUnchangedIsProcessed | src/core/dataflow/src/DataFlowEngine.cpp:174-186 | if the set of the terminator (forward: of the first instruction) did not grow, the rest of the block needs no recomputation: looking at one instruction is enough |
| DataFlowEquations.PropagateStep | src/core/dataflow/src/DataFlowEngine.cpp:198-226 | recomputing one more instruction extends the equations that hold and stays below every solution |
| DataFlowEquations.TurnKeepsSettled | src/core/dataflow/src/DataFlowEngine.cpp:137-235 | blocks off the list satisfy all their equations, provided changes are announced to the blocks they feed |
| DataFlowEquations.SettledSolves | src/core/dataflow/src/DataFlowEngine.cpp:137-238 | an empty list means every instruction-level equation holds |
| DataFlowEquations.Turn | src/core/dataflow/src/DataFlowEngine.cpp:137-235 | a turn that announces a change of a block computed before gains a fact: the measure that ends the engine |
| DataFlowEngine.PushSuccessors | src/core/dataflow/src/DataFlowEngine.cpp:400-410 | a successor is queued once, and the membership map says so |
| DataFlowEngine.InitialList | src/core/dataflow/src/DataFlowEngine.cpp:291-301 | whatever order the client appends in, every block is on the list once |
| DataFlowEngine.PopFront | src/core/dataflow/src/DataFlowEngine.cpp:309-319 | the assertion on the membership map never fails |
| DataFlowEngine.ProcessForward | src/core/dataflow/src/DataFlowEngine.cpp:321-399 | one turn feeds the first instruction and propagates if its OUT changed or the block is new |
| DataFlowEngine.ApplyCustomizableForwardAnalysis | src/core/dataflow/src/DataFlowEngine.cpp:260-414 | the engine ends with the least solution at or above the initial sets |
| ReachableAnalysis.SolutionHoldsWalks | src/core/dataflow/src/DataFlowAnalysis.cpp:78-87 | any solution of the reachability equations contains what a walk reaches |
| ReachableAnalysis.ReachabilitySolves | src/core/dataflow/src/DataFlowAnalysis.cpp:73-87 | reachability itself is a solution |
| ReachableAnalysis.RunReachableAnalysis | src/core/dataflow/src/DataFlowAnalysis.cpp:37-94 | OUT(i) is exactly the set of filtered instructions reachable from i by one or more steps |
| ReachableAnalysis.ComputeReachabilityFromInstructions | src/core/loops/src/LoopAwareMemDepAnalysis.cpp:165-207 | OUT(i) never holds the first instruction of the header, holds everything else that directly follows i or a member of it, and nothing but what follows i or a member: what is reachable without stepping onto that instruction |
| ReachableAnalysis.OnlyThroughHeader | src/core/loops/src/LoopAwareMemDepAnalysis.cpp:209-250 | what is reachable but not in OUT(i) is reached only through the header, that is, in a later iteration |
| ReachingInstructions.RunReachingAnalysis | src/core/dataflow/src/DataFlowEngine.cpp:260-414 | for a client that generates, passes on and kills, the forward engine computes IN(j) as exactly the instructions from which j can be reached without passing one that kills them |
| Helix.SetUpSegmentArrays | src/core/runtime/Parallelizer_utils.cpp:496-583 | array 0 is open, the others are locked, and core i gets arrays i and i+1 modulo their number |
| Helix.WaitIsInTurn | src/core/runtime/Parallelizer_utils.cpp:683-707 | a core that finds its lock open is at the iteration whose turn it is |
| Helix.SignalIsInTurn | src/core/runtime/Parallelizer_utils.cpp:709-733 | a core that signals is the one inside |
| Helix.MoveKeepsRing | src/core/runtime/Parallelizer_utils.cpp:683-733 | every step of every core keeps entries and exits of every segment in iteration order and the token in one place |
| Helix.RingHasOneToken | src/core/runtime/Parallelizer_utils.cpp:496-551 | exactly one token per segment: one open lock and nobody inside, or one core inside and all locks closed |
| Helix.RingSafety | src/core/runtime/Parallelizer_utils.cpp:496-733 | the same after every interleaving, and the k-th entry of a segment is made by core k mod N |
| Helix.SomeCoreMoves | src/core/runtime/Parallelizer_utils.cpp:683-733 | unless all iterations are done, the core with the oldest iteration can move, in whatever order and nesting the segments are used |
| Helix.RingProgress | src/core/runtime/Parallelizer_utils.cpp:496-733 | every run is finite, can be extended until all iterations are done, and then every segment was entered once per iteration |
| HelixSingleArray.SingleArrayExcludes | src/core/runtime/Parallelizer_utils.cpp:500-503 | with a single array at most one core is inside a segment, after every interleaving |
| HelixSingleArray.SingleArrayLosesOrder | src/core/runtime/Parallelizer_utils.cpp:573-583 | with a single array the second core may enter first |
| HelixSingleArray.SingleArrayMayDeadlock | src/core/runtime/Parallelizer_utils.cpp:573-583 | with a single array and no common order two cores that use two segments in opposite orders may block each other for ever |
| HelixSingleArray.OneOrderSomeCoreMoves | src/core/runtime/Parallelizer_utils.cpp:683-733 | with a single array, if all iterations take their segments in one common order, some core can move unless all iterations are done |
| HelixSingleArray.SingleArrayProgress | src/core/runtime/Parallelizer_utils.cpp:496-733 | then every run is finite, can be extended until all iterations are done, and every segment was entered once per iteration |
| HelixSingleArray.NoNestingIsOneOrder | src/core/runtime/Parallelizer_utils.cpp:683-733 | iterations that never wait for a segment while they hold another take their segments in every order |
| HelixSingleArray.FlatProgress | src/core/runtime/Parallelizer_utils.cpp:496-733 | so their runs are finite and can be extended until all iterations are done |
| HelixSingleArray.CrossedMayBlock | src/core/runtime/Parallelizer_utils.cpp:500-733 | with a single array and any number of segments: two iterations of different cores that take two segments in opposite orders, with no segment around both, have an interleaving in which both cores block for ever |
| HelixSingleArray.TwoSegmentsIff | src/core/runtime/Parallelizer_utils.cpp:500-733 | with a single array and two segments: no interleaving gets stuck if and only if no two iterations of different cores cross in that way |
| DoallRuntime.Grant | src/core/runtime/Parallelizer_utils.cpp:986-1000 | a request is never refused, never gets more than it asked for, or one core, and gets all it asked for or all that the counter shows |
| DoallRuntime.GrantWithinIdleIff | src/core/runtime/Parallelizer_utils.cpp:992-995 | the grant is within the signed idle count if and only if that count is at least one |
| DoallRuntime.OverdrawnCounterGrants | src/core/runtime/Parallelizer_utils.cpp:992-995 | with an idle count of -1 a request for 5 gets 5 |
| DoallRuntime.NoelleRuntime.ReserveCores | src/core/runtime/Parallelizer_utils.cpp:986-1000 | the counter goes down by the grant in 32-bit arithmetic |
| DoallRuntime.NoelleRuntime.ReleaseCores | src/core/runtime/Parallelizer_utils.cpp:1002-1015 | the counter goes up by the released cores |
| DoallRuntime.FirstFit | src/core/runtime/Parallelizer_utils.cpp:922-949 | the first available block that has at least as many slots as asked for, if there is one |
| DoallRuntime.NoelleRuntime.GetDOALLArgs | src/core/runtime/Parallelizer_utils.cpp:919-977 | the caller gets the first fitting block, or a new one of the size asked for, with every end lock held and slot i carrying core id i, and nobody else can get it |
| DoallRuntime.NoelleRuntime.ReleaseDOALLArgs | src/core/runtime/Parallelizer_utils.cpp:979-984 | the block is available again |
| DoallRuntime.StepReuse | src/core/runtime/Parallelizer_utils.cpp:922-949 | taking a block from the pool keeps the invariant of all dispatchers |
| DoallRuntime.StepAllocate | src/core/runtime/Parallelizer_utils.cpp:951-977 | so does allocating one, although its slots are initialised after the pool lock is released |
| DoallRuntime.StepSubmit | src/core/runtime/Parallelizer_utils.cpp:274-302 | so does submitting a task: the loop, the environment and the chunk size the dispatcher was called with, and the number of cores it got, are in the slot |
| DoallRuntime.StepFinishTask | src/core/runtime/Parallelizer_utils.cpp:220-242 | so does a task, which calls what it reads from its slot with the core id of the slot and opens its end lock |
| DoallRuntime.StepJoin | src/core/runtime/Parallelizer_utils.cpp:321-323 | an end lock that can be taken belongs to a finished task |
| DoallRuntime.StepReleaseArgs | src/core/runtime/Parallelizer_utils.cpp:335-336 | the block goes back with every end lock held again |
| DoallRuntime.StepKeepsInv | src/core/runtime/Parallelizer_utils.cpp:220-342 | every atomic step of every dispatcher and task keeps the invariant |
| DoallRuntime.JoinWaitsForAll | src/core/runtime/Parallelizer_utils.cpp:220-342 | under every interleaving a dispatcher past its join has at most as many cores as it asked for, or one; every call made for it was of the loop of its request, on the environment and chunk size of its request, with that number of cores; there was exactly one with each core id below it; and nothing is outstanding |
| DoallRuntime.PoolIsSafe | src/core/runtime/Parallelizer_utils.cpp:919-984 | under every interleaving an available block is clean, and a block in use has one user |
| DoallRuntime.CoresAreConserved | src/core/runtime/Parallelizer_utils.cpp:986-1015 | under every interleaving idle cores and outstanding grants add up to the maximum |
| DoallRuntime.DispatcherCanMove | src/core/runtime/Parallelizer_utils.cpp:220-342 | a dispatcher that is not done can move, or one of its own tasks can, whatever the others do |
| DoallRuntime.DispatchersFinish | src/core/runtime/Parallelizer_utils.cpp:220-342 | no dispatcher waits for ever: every run has at most 4 * max(requested, 1) + 3 steps per dispatcher and can be extended until all are done |
| DoallRuntime.GetArgsIsTakeBlock | src/core/runtime/Parallelizer_utils.cpp:919-977 | the steps by which a dispatcher gets a block, undisturbed, are what the method does |
| DoallRuntime.StepsAreMethods | src/core/runtime/Parallelizer_utils.cpp:979-1015 | so are the steps for the counter and for giving a block back |
| ScevExpr.LinearInUnknown | src/core/basic_utilities/include/ScalarEvolutionDelinearization.hpp:275-287 | an expression of degree at most one in an unknown is affine in it |
| ScevExpr.OperandIsSmaller | src/core/basic_utilities/include/ScalarEvolutionDelinearization.hpp:62-84 | operands have fewer distinct nodes |
| ScevExpr.PlainEvolutionIsTrusted | src/core/basic_utilities/include/ScalarEvolutionDelinearization.hpp:270-299 | the assumptions on the expression builder can be met in every modulus |
| ScevDivision.SdivremLaw | src/core/basic_utilities/include/ScalarEvolutionDelinearization.hpp:168-187 | truncating division obeys the law and leaves a smaller remainder |
| ScevDivision.Divide | src/core/basic_utilities/include/ScalarEvolutionDelinearization.hpp:90-141 | division ends and, for numerators linear in the unknown factors of a denominator without zero constants, Numerator = Quotient * Denominator + Remainder under every valuation and iteration, modulo 2^w or without bound; with a builder that keeps forms it finds what is there: a product with the denominator among its operands leaves Zero; over an unknown, where every product has it among its operands or not at all, the remainder is the numerator at 0 and the quotient its coefficient; and however the numerator is written over the denominator, quotient and remainder have the values of that writing |
| ScevDivision.DivideByFactors | src/core/basic_utilities/include/ScalarEvolutionDelinearization.hpp:118-136 | a product divides factor by factor, or not at all; it leaves Zero if its factors, a constant in front and different unknowns, are in every term of the numerator |
| ScevDivision.VisitConstant | src/core/basic_utilities/include/ScalarEvolutionDelinearization.hpp:168-187 | the law for constants, rounding towards zero |
| ScevDivision.VisitAddRecExpr | src/core/basic_utilities/include/ScalarEvolutionDelinearization.hpp:189-204 | the law for affine recurrences, at every iteration |
| ScevDivision.VisitAddExpr | src/core/basic_utilities/include/ScalarEvolutionDelinearization.hpp:206-230 | the law for sums, operand by operand |
| ScevDivision.VisitMulExpr | src/core/basic_utilities/include/ScalarEvolutionDelinearization.hpp:232-273 | the law for products: the first divisible operand is divided, or the unknown is |
| ScevDivision.DivideByUnknown | src/core/basic_utilities/include/ScalarEvolutionDelinearization.hpp:275-300 | the law for the rewriting of the unknown, and why dividing the difference ends |
| ScevDivision.DivideAnOperand | src/core/basic_utilities/include/ScalarEvolutionDelinearization.hpp:232-262 | the first operand that leaves nothing is divided; if none is found, the product is no multiple |
| DivisionForms.SameCofactor | src/core/basic_utilities/include/ScalarEvolutionDelinearization.hpp:232-262 | whichever of two divisible operands is divided, the value of the quotient is the same |
| DivisionForms.PlainIsWritten | src/core/basic_utilities/include/ScalarEvolutionDelinearization.hpp:189-288 | an expression linear in an unknown that is an operand of the products it occurs in is written over it with its coefficient and its value at 0 |
| DivisionForms.RestIffAbsent | src/core/basic_utilities/include/ScalarEvolutionDelinearization.hpp:138-165 | visiting finds nothing to divide by an unknown if and only if the unknown is not in the expression |
| RowMajor.DivideSum | src/core/basic_utilities/include/ScalarEvolutionDelinearization.hpp:206-230 | a sum of multiples of a constant or an unknown and of other unknowns: the quotient has the value of the sum of the cofactors, the remainder that of the others |
| RowMajor.DivideProduct | src/core/basic_utilities/include/ScalarEvolutionDelinearization.hpp:118-136 | a product divided by a product of unknowns among its operands leaves Zero |
| RowMajor.ZeroFoldingIsTrusted | src/core/basic_utilities/include/ScalarEvolutionDelinearization.hpp:189-300 | the assumptions on a builder that keeps forms can be met, together with the others, in every modulus |
| ScevDivision.ShortcutLaw | src/core/basic_utilities/include/ScalarEvolutionDelinearization.hpp:276-288 | replacing the unknown by 1 divides by it, if nothing is left at 0 and the numerator is linear in it |
| ShortcutDivision.ShortcutOnSquare | src/core/basic_utilities/include/ScalarEvolutionDelinearization.hpp:276-287 | y*((x+1)^2 - 1) leaves nothing at x = 0, but at x = 2 and y = 1 it is 8 and the quotient times x is 6, which differ in every width above 1 |
| ShortcutDivision.ShortcutLawIff | src/core/basic_utilities/include/ScalarEvolutionDelinearization.hpp:276-288 | when nothing is left at 0, replacing the unknown by 1 divides by it, modulo any m or without bound, if and only if the finite differences of the numerator at 0, as a polynomial in the unknown, are 0 from the second order to the degree, whatever the other values are; without bound that means no power above the first |
| ShortcutDivision.VanishesIff | src/core/basic_utilities/include/ScalarEvolutionDelinearization.hpp:270-288 | a polynomial is 0 modulo m at every integer if and only if its finite differences at 0 are, of order 0 to its degree |
| ShortcutDivision.UnboundedDifferences | src/core/basic_utilities/include/ScalarEvolutionDelinearization.hpp:270-288 | without bound the differences vanish from the second order on if and only if the coefficients do |
| ShortcutDivision.ShortcutOnBits | src/core/basic_utilities/include/ScalarEvolutionDelinearization.hpp:276-288 | in one bit the same square is divided rightly, although it has a second power |
| ShortcutDivision.LinearHasNoHigherPowers | src/core/basic_utilities/include/ScalarEvolutionDelinearization.hpp:276-288 | a numerator of degree at most one, as the division requires, meets the condition in every modulus |
| ShortcutDivision.PolyIsValue | src/core/basic_utilities/include/ScalarEvolutionDelinearization.hpp:270-288 | an expression is, as a function of one unknown, the polynomial whose coefficients are read off it |
| ShortcutDivision.VanishingPoly | src/core/basic_utilities/include/ScalarEvolutionDelinearization.hpp:270-288 | a polynomial that is zero at every positive integer has only zero coefficients |
| ShortcutDivision.DifferencesCanSimplify | src/core/basic_utilities/include/ScalarEvolutionDelinearization.hpp:289-300 | a builder that meets the assumptions and simplifies a difference: division of y*(x+1) by x subtracts y and goes on with y*x |
| ShortcutDivision.DivideOffset | src/core/basic_utilities/include/ScalarEvolutionDelinearization.hpp:289-300 | it does so: the remainder is y, in every width |
| ScevDivision.ComputeAccessFunctions | src/core/basic_utilities/src/ScalarEvolutionDelinearization.cpp:160-200 | one subscript per size, and Horner linearization of the subscripts with the sizes plus the one dropped element-size remainder is the original expression, modulo 2^w or without bound; if that remainder is a recurrence both lists are cleared; conversely, from an expression built from subscripts and sizes, with a builder that keeps forms, exactly the values of those subscripts come back and nothing is dropped |
| ScevDivision.RecoverOneMore | src/core/basic_utilities/src/ScalarEvolutionDelinearization.cpp:160-190 | dividing what is left by one more size recovers one more subscript and leaves the index of the others |
| RowMajor.OffsetIsBuilt | src/core/basic_utilities/src/ScalarEvolutionDelinearization.cpp:160-200 | the byte offset of every row-major access, whatever its number of dimensions, is such an expression |
| RowMajor.DelinearizeRowMajor | src/core/basic_utilities/src/ScalarEvolutionDelinearization.cpp:160-200 | round trip: from the byte offset and the sizes of any row-major access, whose subscripts do not depend on the sizes, its subscripts come back with their values |
| ScevDivision.PeelOneMore | src/core/basic_utilities/src/ScalarEvolutionDelinearization.cpp:160-190 | dividing out one more size keeps the linearization |
| Disjointness.IsOneToOneFunctionOnIV | src/core/loops/src/LoopIterationDomainSpaceAnalysis.cpp:470-523 | true exactly when every instruction met on the way to the induction variable is an add, sub, mul or cast of instructions and constants |
| Disjointness.OneToOneIff | src/core/loops/src/LoopIterationDomainSpaceAnalysis.cpp:492-501 | for chains with one in-loop operand per operation that answer is right if and only if no multiplier is zero |
| Disjointness.ChainsAreAccepted | src/core/loops/src/LoopIterationDomainSpaceAnalysis.cpp:470-523 | the check accepts all such chains |
| Disjointness.CheckAcceptsSquares | src/core/loops/src/LoopIterationDomainSpaceAnalysis.cpp:492-501 | a square and a product with zero are accepted and not one-to-one |
| HeaderBounds.AcceptedTestMeans | src/core/loops/src/LoopIterationDomainSpaceAnalysis.cpp:646-660 | an accepted header comparison lets the loop go on exactly below, up to, or different from the bound: exchanging the operands of a non-strict comparison does not make it strict |
| HeaderBounds.UpperBoundedIff | src/core/loops/src/LoopIterationDomainSpaceAnalysis.cpp:646-660 | which comparisons are accepted, as they are written: equality that exits when it holds, inequality that exits when it fails, and the variable below or at the bound, signed or unsigned, written either way, exiting when it fails |
| HeaderBounds.BoundIsRealIff | src/core/loops/src/LoopIterationDomainSpaceAnalysis.cpp:600-682 | the values of a counter that starts at start and steps by step while the comparison holds stay in [0, size) if and only if they start there or the loop is not entered, and, for a non-strict comparison, skip the size or, for an equality, meet it |
| HeaderBounds.AcceptedTestOfValues | src/core/loops/src/LoopIterationDomainSpaceAnalysis.cpp:646-660 | read back from machine words, an accepted comparison compares the values |
| HeaderBounds.LooseTestIsAccepted | src/core/loops/src/LoopIterationDomainSpaceAnalysis.cpp:646-660 | `i <= n` is accepted for a dimension of n elements and reaches n |
| DisjointAccesses.IsInnerDimensionSubscriptsBounded | src/core/loops/src/LoopIterationDomainSpaceAnalysis.cpp:525-690 | true exactly when every inner dimension has an IV instruction that evolves as the governing variable of its loop, with a constant step that is not negative, and that loop ends by an accepted comparison with the size one position before |
| DisjointAccesses.AcceptedInRange | src/core/loops/src/LoopIterationDomainSpaceAnalysis.cpp:525-690 | then, where scalar evolution is right and the bound is real, the subscript stays in its dimension |
| SubscriptMatching.FindInstructionInLoopForScev | src/core/loops/src/LoopIterationDomainSpaceAnalysis.cpp:404-428 | the instruction found belongs to an entry equal to the subscript or, for a recurrence, to the first entry that is not a recurrence or evolves in the same way; none is found exactly if there is no such entry |
| SubscriptMatching.FindCorrespondingIVForSubscript | src/core/loops/src/LoopIterationDomainSpaceAnalysis.cpp:381-451 | the IV index is searched first; the instruction found evolves as the subscript if and only if the search stops at the own entry of the subscript or first at one that evolves in the same way |
| SubscriptMatching.MatchIsRightIff | src/core/loops/src/LoopIterationDomainSpaceAnalysis.cpp:381-451 | for two indexes in the order in which they are walked: the match is right, or there is none, if and only if the search that decides it ends at the own entry of the subscript, stops first at the same recurrence, or finds nothing |
| SubscriptMatching.RightInEveryOrderIff | src/core/loops/src/LoopIterationDomainSpaceAnalysis.cpp:404-451 | hash tables are walked in any order: the match is right in all of them if and only if the subscript is no recurrence, or has its own IV entry, or all IV entries are recurrences and (one is the same, or the derived index has the own entry of the subscript, or only recurrences) |
| SubscriptMatching.RightForAllIff | src/core/loops/src/LoopIterationDomainSpaceAnalysis.cpp:404-451 | every subscript gets a right match in every order if and only if both indexes hold only recurrences |
| SubscriptMatching.IndexedRecurrencesIff | src/core/induction_variables/src/InductionVariable.cpp:91-102 | that is, if and only if every instruction of an induction variable is a recurrence; casts are counted among them |
| WrongMatches.CastMatchIsWrong | src/core/loops/src/LoopIterationDomainSpaceAnalysis.cpp:404-428 | a[j] in a loop over i with a cast of i and no induction variable j: the index of the pass makes the search stop at the cast, the access is recorded, and everything else is in order, but in different iterations of i the address is the same |
| DisjointAccesses.IdentifyNonOverlapping | src/core/loops/src/LoopIterationDomainSpaceAnalysis.cpp:302-377 | the access is recorded exactly when the inner dimensions pass and some root-loop subscript belongs to a variable or passes the one-to-one check on the code that computes it |
| DisjointAccesses.RecordedIff | src/core/loops/src/LoopIterationDomainSpaceAnalysis.cpp:302-377 | which accesses are recorded, read off the nest: the condition on every inner match and size, and the condition on one root match, in terms of instructions, recurrences and comparisons |
| DisjointAccesses.RootSubscriptsDiffer | src/core/loops/src/LoopIterationDomainSpaceAnalysis.cpp:345-365 | for chains with one in-loop operand per operation, nonzero multipliers and a variable that moves, the recorded root subscript differs in different iterations |
| DisjointAccesses.IsMemoryAccessSpaceEquivalentForTopLoopIVSubscript | src/core/loops/src/LoopIterationDomainSpaceAnalysis.cpp:70-113 | true exactly when both accesses have the same dimensions governed by the root loop, with the same expressions there |
| DisjointAccesses.LoopIterationDomainSpaceAnalysis.AreInstructionsAccessingDisjointMemoryLocationsBetweenIterations | src/core/loops/src/LoopIterationDomainSpaceAnalysis.cpp:41-68 | when the answer is yes, the two instructions touch different elements in different iterations of the root loop, at all points where the matches, scalar evolution, the inner bounds and the one-to-one check are right and the extents agree, and different bytes where also the bases agree; two spaces are the same only if one instruction computes their addresses |
| MixedRadix.FlattenInjective | src/core/loops/src/LoopIterationDomainSpaceAnalysis.cpp:302-377 | with every inner subscript in its dimension an offset determines all subscripts |
| MixedRadix.DigitOfFlatten | src/core/loops/src/LoopIterationDomainSpaceAnalysis.cpp:302-377 | each subscript can be read back from the offset by a division and a remainder |
| MixedRadix.NeverMeetIff | src/core/loops/src/LoopIterationDomainSpaceAnalysis.cpp:70-113 | accesses whose subscripts in one dimension differ never meet, for all other in-range subscripts, if and only if the extents agree there: for the outermost dimension the products of the inner extents, for an inner one the extent itself and, unless it is 1, the product of the extents after it |
| MixedRadix.RowsNeverMeetIff | src/core/loops/src/LoopIterationDomainSpaceAnalysis.cpp:70-113 | for two dimensions: if and only if the rows are equally long |
| MixedRadix.ApartIff | src/core/loops/src/LoopIterationDomainSpaceAnalysis.cpp:70-113 | for agreeing extents, positive element size and any distance of the bases: accesses whose subscripts in one dimension differ never share a byte, for all other in-range subscripts, if and only if the bases agree: for the outermost dimension they are equal, for an inner one of more than one element a whole number of steps of the dimension around it apart |
| DisjointAccesses.DisjointBetweenIterations | src/core/loops/src/LoopIterationDomainSpaceAnalysis.cpp:41-113 | two recorded accesses that are one or are equivalent for the root loop never meet in different root iterations, from the decision, the code of the root subscripts and the inner bounds |
| DisjointAccesses.BytesDisjointBetweenIterations | src/core/loops/src/LoopIterationDomainSpaceAnalysis.cpp:41-113 | and, where the bases agree at the root dimension, never share a byte |
| DisjointAccesses.DifferentOffsetsDifferentBytes | src/core/loops/src/LoopIterationDomainSpaceAnalysis.cpp:41-113 | different elements counted from one base are different bytes; for different bases see BytesDisjointBetweenIterations |
| DisjointAccesses.LoopIterationDomainSpaceAnalysis.constructor | src/core/loops/src/LoopIterationDomainSpaceAnalysis.cpp:17-39 | every space gets its matches, which are right if and only if the searches for its subscripts stop right, and exactly the non-overlapping ones are recorded |
| DifferentExtents.ExtentsMustAgree | src/core/loops/src/LoopIterationDomainSpaceAnalysis.cpp:70-113 | the decision does not compare extents: for any e < f, [i][j] in rows of e and [i][k] in rows of f are recorded and equivalent, everything else is in order, and row 1 of the first starts inside row 0 of the second |
| DifferentBases.BasesMustAgree | src/core/loops/src/LoopIterationDomainSpaceAnalysis.cpp:70-113 | the decision does not compare bases: for any nonzero distance of two arrays, a[i] and b[i] are recorded and equivalent, everything else is in order, and two of their elements in different iterations share a byte |
| MemRegions.MRGenerator.CollectStore | external/patch/lib/MSSA/MemRegion.cpp:159-166 | a store with a nonempty points-to set is recorded with its function |
| MemRegions.MRGenerator.CollectLoad | external/patch/lib/MSSA/MemRegion.cpp:168-175 | so is a load |
| MemRegions.MRGenerator.SortPointsTo | external/patch/lib/MSSA/MemRegion.cpp:234-257 | after any sequence of insertions the map is extensive and idempotent and its image consists of maximal sets |
| MemRegions.InsertContained | external/patch/lib/MSSA/MemRegion.cpp:239-256 | a set that is contained in a representative moves no other set |
| MemRegions.InsertMaximal | external/patch/lib/MSSA/MemRegion.cpp:239-256 | a set that is contained in none becomes the representative of all that it contains |
| MemRegions.ImageIsMaximal | external/patch/lib/MSSA/MemRegion.cpp:229-257 | the image is exactly the set of maximal inserted sets |
| MemRegions.MRGenerator.CreateMR | external/patch/lib/MSSA/MemRegion.cpp:62-77 | the region of the representative exists once and is among the regions of the function |
| MemRegions.MRGenerator.GetMR | external/patch/lib/MSSA/MemRegion.cpp:82-87 | the region is found: the assertion never fails |
| MemRegions.MRGenerator.PartitionMRs | external/patch/lib/MSSA/MemRegion.cpp:262-283 | every function has exactly the regions of its own points-to sets |
| MemRegions.MRGenerator.GetAliasMemRegions | external/patch/include/MSSA/MemRegion.h:289-294 | the regions of the function that share an object with the set |
| MemRegions.MRGenerator.UpdateAliasMRs | external/patch/lib/MSSA/MemRegion.cpp:288-311 | stores get the regions they intersect, loads the region of their own set |
| MemRegions.MRGenerator.StoreMeetsRegions | external/patch/lib/MSSA/MemRegion.cpp:288-311 | a region is attached to a store exactly if it is the representative of a points-to set of its function and shares an object with the points-to set of the store |
| MemRegions.MRGenerator.LoadMeetsStore | external/patch/lib/MSSA/MemRegion.cpp:288-311 | the region of a load is among the regions of every store of the same function whose points-to set meets the load's |
| CallGraphIslands.CallGraph.FetchOrCreateEdge | src/core/callgraph/src/CallGraph.cpp:426-491 | one edge per pair with one more sub-edge; it is a must edge exactly when one of its sub-edges is |
| CallGraphIslands.CallGraph.HandleCallInstruction | src/core/callgraph/src/CallGraph.cpp:108-148 | a direct call adds a must sub-edge, an indirect one a may sub-edge to every possible callee |
| CallGraphIslands.CallGraph.AddCalls | src/core/callgraph/src/CallGraph.cpp:43-71 | there is an edge exactly where a call site calls directly or may call indirectly, with one sub-edge per call site, and it is a must edge exactly where one calls directly |
| CallGraphIslands.NeighbourIsNew | src/core/callgraph/src/CallGraph.cpp:382-418 | older islands are closed under calls in either direction, so the assertions on visited functions never fail |
| CallGraphIslands.CallGraph.ExploreFrom | src/core/callgraph/src/CallGraph.cpp:341-420 | the search from one function ends and leaves a closed, connected island |
| CallGraphIslands.CallGraph.IdentifyCallGraphIslandsByCallInstructions | src/core/callgraph/src/CallGraph.cpp:297-424 | two functions share an island if and only if call edges connect them in either direction |
| CallGraphIslands.CallGraph.MergeIslands | src/core/callgraph/src/CallGraph.cpp:266-290 | relabelling moves every function of the deleted island; no function keeps it |
| CallGraphIslands.BridgeIff | src/core/callgraph/src/CallGraph.cpp:253-290 | one more connection joins exactly what it bridges |
| CallGraphIslands.CallGraph.MergeCallGraphIslandsForEscapedFunctions | src/core/callgraph/src/CallGraph.cpp:216-295 | two functions share an island if and only if call edges and non-callee uses connect them |
| CallGraphIslands.CallGraph.MergeForUse | src/core/callgraph/src/CallGraph.cpp:224-290 | an instruction that uses a function without calling it puts the two functions on one island; any other use changes nothing |
| CallGraphIslands.CallGraph.GetIslands | src/core/callgraph/src/CallGraph.cpp:200-215 | functions that call each other, may call each other or use each other without calling are on one island, and no division of the functions with that property is finer |

## Left out

- SCCDAG construction, value-to-SCC lookup, printing, and merging along loop-carried, LCSSA or memory edges: callers of the operations modelled here.
- SccPartitioner.SccdagPartitioner.MergePair: the source reads the first set after deleting it; the model takes the representative before the merge.
- PHI and SSA repair of the whilifier, its prologue shrinking and its recursion over sub-loops: control flow and shared registers are modelled instead.
- Whilify.CloneBlocks: instructions are opaque state transformers, so operand remapping inside the copies is represented by the block targets only.
- `generateCodeToComputeTheTripCount`: an unsigned division that looks at neither the exit predicate nor the sign of the step.
- Floating-point reductions and Xor: not exact, or not supported by the tables.
- Environment allocation and the index maps of the environment builder beyond the slot layout of one reduced variable.
- BitMatrices.BitMatrix.constructor: sizes and positions are unbounded here; PositionsFitIff says for which sizes the 32-bit ones are the same, and what the vector does with others is not modelled.
- Whilify.RemapInstructionsInBlocks: does not model instruction operands, because instructions are opaque; block targets are remapped.
- DataFlowEngine.ApplyCustomizableForwardAnalysis: does not model clients that choose other first and last instructions than the block ends, because the only caller chooses those.
- DisjointAccesses.LoopIterationDomainSpaceAnalysis.constructor: does not model the computation of the access spaces from pointer expressions and the indexing of instructions; both are inputs, the index in the order in which it is walked.
- HelixSingleArray.SingleArrayProgress: one common order is enough but not needed; the exact condition is given for two segments, and for more that a crossing without a common outer segment blocks.
- Word-level representation of bit vectors.
- Passing sets by reference to client callbacks: the model's callbacks return what they insert.
- The available-expressions style analyses built on the engines and the removal of dependence edges after the reachability analysis.
- Thread pools, thread affinity, prefetching helper threads and profiling in the runtime; pools run submitted tasks at any later time.
- Helix.SetUpSegmentArrays: does not model allocation failure or the end locks of the HELIX threads; the join is the one of the DOALL model.
- DSWP queues and stages.
- Casts between widths, non-affine recurrences, division and min/max nodes in symbolic division: the fragment is constants, unknowns, sums, products and affine recurrences of one width.
- `findArrayDimensions`, `collectParametricTerms` and index expressions of address computations: inputs of the delinearization modelled here.
- Disjointness.OneToOneIff: casts are taken to keep values, and IV arithmetic does not wrap.
- Call-site mod/ref sets and points-to chains of the memory-region generator: partial cached results on cycles make a closure claim false.
- CallGraphIslands.CallGraph.MergeIslands: does not model the function map inside each island object, because it is the inverse image of the island map.
- Dominators, loop forests, loop distribution, metadata, pass registration and the Hot profile: not needed by the properties above.
