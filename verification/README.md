# Verified models of LLVM analyses and of the BrainF compiler

Dafny models of nine algorithms in this LLVM tree, with proofs of what they promise. `dafny verify dfyconfig.toml`
checks everything. Each file is one module; the modules of one topic share a prefix.

* **BrainF compiler** (`BrainF*.dfy`; `examples/BrainF/BrainF.cpp`). The text language is a machine over characters
  (`BrainFSource`), the emitted code a machine over SSA blocks whose phis are resolved by the edge taken
  (`BrainFTarget`). `BrainFCompiler.BrainF` is the one-pass recursive compiler, with its merged runs, its two symbols
  of look-ahead and its phis built in two stages. `BrainFCorrectness.Parse` states the end-to-end result.
  Bounds checking follows the code: only the end of a merged run of moves is compared with the bounds. The semantics of
  the text is checked at the same places, so with bounds checking on, both leave the tape together. The machine gets
  stuck on any access outside the array or outside its life; the text is lost there, and means nothing.
* **Andersen alias analysis** (`CFL*.dfy`; `lib/Analysis/CFLAndersAliasAnalysis.cpp`). The alias grammar is defined on
  paths; the class `CFLAnders.Analysis` is the worklist, and `CFLAttributes.AliasAttrMap` the attribute fixpoint. The
  TODO at line 753 asks whether the fixpoint is reached: it is. The comment at line 605 holds for pairs without their
  states (`CFLAnders.FinalSymmetric`).
* **CFG walks** (`CFG*.dfy`; `lib/Analysis/CFG.cpp`). The explicit-stack search for back edges, against what a
  depth-first search is (`CFGSearch`), and the cut-off reachability search that jumps over whole loops.
* **Alias set tracker** (`AliasSet*.dfy`; `lib/Analysis/AliasSetTracker.cpp` and its header). The heap of sets with
  forwarding, reference counts, path compression, merging and saturation; `AliasSets` holds the structure,
  `AliasSetMeaning` what the sets promise about their members, `AliasSetTracker` the operations.
* **Block frequencies** (`BFI*.dfy`, `Probability`, `Powers`; `lib/Analysis/BlockFrequencyInfoImpl.cpp` and its header,
  `lib/Support/BranchProbability.cpp`). Distributions in 64 bits normalized to 32, dithered distribution of mass and where
  its portions go (`BFIPortions`), mass conservation through a loop, and the choice of headers for irreducible loops.
* **Branch weights** (`BranchWeights`; `lib/Analysis/BranchProbabilityInfo.cpp`).
* **Address arithmetic** (`AddressForms`, `AddressRanges`, `AddressAliasing`, `LinearExpressions`, `Bits`;
  `lib/Analysis/BasicAliasAnalysis.cpp`). `AddressRanges` says which values the variables take, by width and sign.
* **Steensgaard summary** (`SteensSummary`; `lib/Analysis/CFLSteensAliasAnalysis.cpp`). The finished stratified sets are
  the input.
* **Aggregate mod/ref queries** (`ModRefQueries`; `lib/Analysis/AliasAnalysis.cpp`). Each registered analysis is a
  record of functions; a `World` says what calls really read and write.

## What the proofs found

* `Distribution::normalize` asserts a total of at most 32 bits. Of the sums that overflow only once, as the code allows,
  that holds for n targets just below 2^65 - (n-1) * 2^33 + n - 2 (`BFIScaling.TotalLimitExact`); two full weights
  are an input beyond it (`BFIScaling.FullWeightsExceed`).
* Registering one more sound alias analysis can make an answer less precise: `ModRefQueries.CallCallMayBlur`.
  `CallLocationExact` and `CallCallExact` say for which behaviors of the calls. One cause is comparing with the single
  value for "no access": a call known by one analysis to only read and by another to only write is taken for a reading
  call (`CallLocationMayBlur`).
* `adjustLoopHeaderMass` redistributes a full mass only among the headers that mass came back to; a header that nothing
  came back to keeps its mass. So the headers have too much exactly if mass came back to some of them but not to all
  (`BFIHeaderMass.HeadersTotal`, and `HeadersExceed` for an input).
* A second pass over a loop, after the first gave up on irreducible control flow, conserves mass exactly: the graph that
  is made in between takes the mass of all blocks, and what came back and left is forgotten
  (`BFIMass.Loop.ComputeMassInTwoPasses`).
* `aliasGEP` compares distances as integers. By the modulus the answer is right for addresses that wrap around, too, and
  for unextended variables that test misses nothing (`AddressAliasing.ModuloTest`). By known signs it is wrong for some
  (`SignsWrap`); it is right if the largest distance leaves room for the first access (`SignsFit`), for one index with
  small steps exactly then (`SignsExact`). The constant-offset heuristic is right as long as its sizes can be added in 64
  bits (`OffsetProves`, `OffsetWraps`, `OffsetExact`).
* `GetLinearExpression` keeps the decomposition of a sign extension's operand if nothing wraps, but that is not enough:
  the constants may wrap when they are added up (`LinearExpressions.SumFails`), a negative scale is not extended
  (`ProductFails`), and a zero extension beneath turns the whole into one (`ZextFails`). `SextOfSum`, `SextOfProduct`
  with `SextOfOneFactor`, and `SextThroughZext` say exactly when the result is right.
* The count of pointers in may-alias sets misses those of a must-alias set that an instruction turns into a may-alias
  set (`AliasSetTracker.CountFallsBehind`), exactly if that is the only set the instruction has to do with
  (`AliasSetTracker.AddUnknown`). So saturation may come late, but never early.
* A reference that `mergeAllAliasSets` drops may be the last one to its set. The set is then removed, but never one that
  is still to be visited, because sets forward to earlier sets (`AliasSetTracker.AbsorbStep`).

## Modelling choices

* Machine integers are integers with their bounds and wrap-around written out: 64-bit sums in `Add64` and `WrapSigned`,
  saturation in `AddMass`, `CombineWeight` and `AddProb`, 32-bit digits in `ScaleWords`.
* IR objects are small datatypes; pointers to heap objects are keys of maps that the methods update, so the alias sets
  refer to each other by number, and the list of all sets is in the order of these numbers.
* `std::sort` is a method with the contract "sorted, and nothing lost"; callers use no more. Iteration over hash tables
  is in any order.
* Answers of other analyses are parameters: dominators and loops in `CFGReachability.Hints`, known bits and signs, masked
  bits of `or`, variables that differ by a constant, value equality across cycles, alias results with a symmetric oracle in which MustAlias is a congruence.
* Two independent statements are exchanged in `DropRef` and `GetForwardedTarget`: a set's forward link is updated, or the
  set taken off the list, before the reference behind the old link is dropped. Nothing in between looks at it.

## Model

| member | source | states |
|---|---|---|
| BrainFCorrectness.Parse | examples/BrainF/BrainF.cpp:192-476 | compilation succeeds exactly on texts whose brackets match; it reports an extra `]` exactly when some prefix closes too many, and a missing one exactly when none does but brackets stay open; the code is in static single assignment form: blocks, edges and phis fit, no register is assigned in two places, and every use is defined on every path to it; it behaves like the text on every memory and input, and when it returns it has freed its array, once; it gets stuck exactly if the text uses a cell outside the array, and so never with bounds checking |
| BrainFCorrectness.Correct | examples/BrainF/BrainF.cpp:192-476 | code laid out for a text implements it, for every initial memory and every input: same output to the last byte, ending together with the same tape and a freed array, and stuck together; with bounds checking it is safe |
| BrainFCorrectness.CompiledCorrectly | examples/BrainF/BrainF.cpp:72-190 | the header allocates and clears the array and puts the head in its middle, so the code starts related to the text on a cleared tape, with a live array |
| BrainFSimulation.CompiledSimulates | examples/BrainF/BrainF.cpp:202-318 | every symbol's code takes related states to related states: a whole run of `+`/`-` or `<`/`>` is one instruction sequence, `[` and `]` jump through the loop test |
| BrainFSimulation.SimulationPreserves | examples/BrainF/BrainF.cpp:192-476 | from a step-by-step correspondence to whole runs in both directions: all output of the text appears, no other output does, both come to an end or neither, and they end with the same tape; the code gets stuck just if the text is lost |
| BrainFSimulation.Meet | examples/BrainF/BrainF.cpp:192-476 | after any number of source steps there is a later point of the run at which the code is in step with the text again |
| BrainFSimulation.Test | examples/BrainF/BrainF.cpp:432-464 | the loop test reads the head through its phi, compares the cell with zero, and leaves the loop or enters the body with the right head; off the array it gets stuck |
| BrainFSimulation.CheckedMove | examples/BrainF/BrainF.cpp:246-276 | a checked move compares the head after the whole merged run against both ends of the array and goes to the error block exactly when it has left |
| BrainFSimulation.ErrorExit | examples/BrainF/BrainF.cpp:140-189 | the error block prints the message, and the return block frees the live array and returns |
| BrainFSimulation.SafeAlways | examples/BrainF/BrainF.cpp:118-127 | with bounds checking no run gets stuck: every load and store is inside the array, between its allocation and its being freed, it is freed only once, and there is no use of an undefined register or missing phi entry |
| BrainFSource.NeverLost | examples/BrainF/BrainF.cpp:246-276 | the source program with bounds checking uses no cell outside the array, although the head may be off it within a run of moves |
| BrainFTokens.CrossChanges | examples/BrainF/BrainF.cpp:344-359 | any interleaving of `+`, `-` and comments changes the cell by the sum of the run, modulo 256, if there is such a cell |
| BrainFTokens.CrossMoves | examples/BrainF/BrainF.cpp:361-380 | a run of `<` and `>` moves the head by its sum; only the end of the run can leave the tape |
| BrainFTokens.CrossClose | examples/BrainF/BrainF.cpp:426-464 | at `]` the text continues behind the bracket or returns to the matching `[` |
| BrainFBrackets.CloseFound | examples/BrainF/BrainF.cpp:192-476 | the bracket the compiler closes a loop with is the one that matches by nesting depth |
| BrainFBrackets.LevelOut | examples/BrainF/BrainF.cpp:426-467 | closing a loop returns to the nesting level around it |
| BrainFSSA.LinkedOpen | examples/BrainF/BrainF.cpp:292-312 | opening a loop keeps blocks, edges and phis fitted: the half-built phi has one entry for its one edge so far |
| BrainFSSA.LinkedClose | examples/BrainF/BrainF.cpp:432-464 | closing it adds the second entry for the back edge and a one-entry phi behind the loop |
| BrainFSSA.LinkedBranch | examples/BrainF/BrainF.cpp:254-274 | the bounds check ends its block with a branch to the error block or a new one |
| BrainFDefinitions.DefinedMeans | examples/BrainF/BrainF.cpp:192-476 | a consistent table of live registers means: along every path from the entry, each instruction, branch and phi entry uses registers defined earlier on the path |
| BrainFDefinitions.ScopedOpen | examples/BrainF/BrainF.cpp:292-312 | the loop phi gets a head defined at the branch, and the body may use the phi |
| BrainFDefinitions.ScopedClose | examples/BrainF/BrainF.cpp:432-464 | the back edge's head is defined where the body ends, and the head behind the loop is defined by its test |
| BrainFDefinitions.ScopedMove | examples/BrainF/BrainF.cpp:246-276 | the moved head, the comparison results and the array bounds are defined where the check uses them |
| BrainFAssignments.SingleClosed | examples/BrainF/BrainF.cpp:432-464 | closing a loop assigns three new registers, in the test and behind the loop, and none twice |
| BrainFBuild.Appended | examples/BrainF/BrainF.cpp:209-290 | straight-line symbols extend the insertion block and leave all finished code as it was |
| BrainFBuild.Opened | examples/BrainF/BrainF.cpp:292-312 | the state after opening a loop: the test waits for its `]`, everything before is untouched |
| BrainFBuild.Closed | examples/BrainF/BrainF.cpp:432-464 | closing a loop finishes both of its symbols in the layout |
| BrainFBuild.Ended | examples/BrainF/BrainF.cpp:469-475 | at the end of the text everything is laid out and every block has its terminator |
| BrainFDraft.EndLoopEmitted | examples/BrainF/BrainF.cpp:426-467 | the second half of a loop keeps all of it together: layout, edges and phis, definitions before uses, single assignments, and all finished code |
| BrainFDraft.Moved | examples/BrainF/BrainF.cpp:246-276 | so does a run of moves, which with bounds checking ends its block |
| BrainFCompiler.BrainF.Header | examples/BrainF/BrainF.cpp:72-190 | entry, return and error blocks, and a first head in the middle of the tape |
| BrainFCompiler.BrainF.NextSymbol | examples/BrainF/BrainF.cpp:320-423 | the lexer returns the next symbol with the merged value of its run, hands over at most one symbol read ahead, and consumes every significant character exactly once |
| BrainFCompiler.BrainF.EmitMove | examples/BrainF/BrainF.cpp:246-276 | one address computation for a run of moves, checked once if bounds are checked |
| BrainFCompiler.BrainF.EmitLoop | examples/BrainF/BrainF.cpp:292-312 | test block with half a phi, and the start of the body |
| BrainFCompiler.BrainF.EmitEndLoop | examples/BrainF/BrainF.cpp:426-467 | finishes the phi, writes the test, and goes on behind the loop with a one-entry phi |
| BrainFCompiler.BrainF.ReadLoop | examples/BrainF/BrainF.cpp:192-476 | one call compiles the program, or a loop body up to its own `]`; symbols read ahead survive nested calls |
| CFLAttributes.BuildInfoFrom | lib/Analysis/CFLAndersAliasAnalysis.cpp:740-768 | the whole analysis: stored triples are exactly those with a path of their kind, stored pairs exactly the grammar's aliases, and the attribute map is the least one above the initial attributes that is closed under aliasing and dereference; aliases have equal attributes |
| CFLAnders.Analysis.BuildReachSet | lib/Analysis/CFLAndersAliasAnalysis.cpp:748-760 | the worklist terminates at the fixpoint; a triple is stored exactly if its nodes are distinct and a path between them that does not come back to its start spells a word of the alias grammar that reads, writes and ends as the state says; so distinct nodes are stored at some state exactly if they are value aliases, and the unlabelled relation is symmetric |
| CFLAnders.Analysis.Propagate | lib/Analysis/CFLAndersAliasAnalysis.cpp:554-561 | stores a new triple and queues it, drops pairs of a node with itself |
| CFLAnders.Analysis.InitializeWorkList | lib/Analysis/CFLAndersAliasAnalysis.cpp:563-584 | every assignment edge is stored in both directions in its starting state |
| CFLAnders.Analysis.ProcessWorkListItem | lib/Analysis/CFLAndersAliasAnalysis.cpp:594-692 | one item keeps soundness, adds its memory aliases with all hops they allow, and takes all steps of its state; what is queued covers what is new |
| CFLAnders.FinalReach | lib/Analysis/CFLAndersAliasAnalysis.cpp:748-760 | a closed, sound set of triples stores exactly the pairs of distinct value aliases |
| CFLAnders.FinalMem | lib/Analysis/CFLAndersAliasAnalysis.cpp:609-631 | and exactly the memory aliases, which lie one dereference below value aliases |
| CFLAnders.FinalSymmetric | lib/Analysis/CFLAndersAliasAnalysis.cpp:605-607 | without the states the stored relation is symmetric, although self pairs are never stored |
| CFLAnders.OneWayStates | lib/Analysis/CFLAndersAliasAnalysis.cpp:305-311 | the two questions a summary asks: a pair has a read-only state just if such a path goes against assignments and not along any, and a write-only state just if it goes along and not against |
| CFLMatching.ScanIsGrammar | lib/Analysis/CFLAndersAliasAnalysis.cpp:633-691 | the seven-state automaton accepts exactly the words in which reverse assignments come before assignments and no two memory hops are adjacent |
| CFLMatching.ScanMeans | lib/Analysis/CFLAndersAliasAnalysis.cpp:71-91 | what the seven states mean: the automaton ends in a state exactly on the grammar's words with the reverse assignments, the assignments and the last memory hop that the state's name says |
| CFLMatching.Complete | lib/Analysis/CFLAndersAliasAnalysis.cpp:594-692 | in a closed set, every path is represented at a state that can do at least what the automaton can at the path's end, even where self pairs are missing |
| CFLMatching.StraightStored | lib/Analysis/CFLAndersAliasAnalysis.cpp:633-691 | in a closed set, a path that does not come back to its start is stored in the very state that the automaton is in at its end |
| CFLMatching.StandsStep | lib/Analysis/CFLAndersAliasAnalysis.cpp:641-691 | one letter of a path is matched by a stored step, or the path has come back to its start |
| CFLMatching.ExactlyAliases | lib/Analysis/CFLAndersAliasAnalysis.cpp:748-760 | closed and sound sets of triples and memory aliases represent the grammar's relation |
| CFLMatching.ExactlyKinds | lib/Analysis/CFLAndersAliasAnalysis.cpp:748-760 | closed and sound sets store a triple just if there is a path of its kind |
| CFLMatching.JustifyHop | lib/Analysis/CFLAndersAliasAnalysis.cpp:617-630 | a memory hop found late extends all paths that wait for it |
| CFLGraph.AliasSymmetric | lib/Analysis/CFLAndersAliasAnalysis.cpp:605-607 | value aliasing is symmetric: a path backwards spells the mirrored word, which is in the grammar |
| CFLGraph.ReverseFollows | lib/Analysis/CFLAndersAliasAnalysis.cpp:642-648 | reverse edges mirror edges along whole paths, through memory hops as well |
| CFLAttributes.AliasAttrMap.Build | lib/Analysis/CFLAndersAliasAnalysis.cpp:694-738 | the attribute fixpoint terminates, is closed under value aliases and dereference, and is below every other closed map |
| CFLAttributes.AliasAttrMap.SpreadBelow | lib/Analysis/CFLAndersAliasAnalysis.cpp:723-731 | the downward walk may stop at the first level that changes: that level is queued and carries the attributes on |
| CFLAttributes.AliasAttrMap.SpreadSameLevel | lib/Analysis/CFLAndersAliasAnalysis.cpp:716-721 | all stored aliases of a node get its attributes, and those that change are queued |
| CFLAttributes.AliasesShareAttrs | lib/Analysis/CFLAndersAliasAnalysis.cpp:694-738 | value aliases end up with equal attributes |
| CFGBackedges.FindFunctionBackedges | lib/Analysis/CFG.cpp:27-66 | the blocks reached and the tree of the edges by which they are entered are those of a depth-first search that follows the successors in order; an edge is reported, as often as it is there, exactly if it leads to its source or to an ancestor of that; without the reported edges the reachable graph has no cycle, but still reaches every block, and every reported edge's source from its target |
| CFGBackedges.Finished | lib/Analysis/CFG.cpp:40-65 | when the stack is empty, every edge was looked at and either reported or goes to a block finished earlier |
| CFGBackedges.RanksFall | lib/Analysis/CFG.cpp:40-65 | along edges that were not reported, finishing ranks fall strictly |
| CFGBackedges.BackedgeCloses | lib/Analysis/CFG.cpp:52-54 | a successor that is on the stack is an ancestor, so the edge closes a cycle |
| CFGBackedges.TreeUnreported | lib/Analysis/CFG.cpp:52-54 | no edge by which a block was entered is reported, so the tree's paths are paths without reported edges |
| CFGSearch.SearchEnters | lib/Analysis/CFG.cpp:46-60 | going down to the first unvisited successor continues a depth-first search |
| CFGSearch.SearchLeaves | lib/Analysis/CFG.cpp:61-63 | going up when no successor is unvisited leaves a block all of whose edges lead to earlier blocks or to its descendants |
| CFGReachability.IsPotentiallyReachableFromMany | lib/Analysis/CFG.cpp:130-172 | false means there is no path from any start block, although whole loops are skipped to their exits; with exact dominators and connected loops, true means there is a path or at least 32 blocks that the search could visit, and in either of these cases the answer is true |
| CFGReachability.SmallGraphsExact | lib/Analysis/CFG.cpp:130-172 | in a graph of fewer than 32 blocks, the answer is true exactly if there is a path |
| CFGReachability.NoPath | lib/Analysis/CFG.cpp:159-166 | a visited set closed under going on, by successors or by loop exits, cannot be escaped by any path |
| CFGReachability.HitReaches | lib/Analysis/CFG.cpp:146-151 | the block itself, a block it dominates, or a block of the same outermost loop is reachable |
| CFGReachability.DominatorReaches | lib/Analysis/CFG.cpp:133-149 | a dominator of a reachable block has a path to it |
| CFGReachability.IsPotentiallyReachable | lib/Analysis/CFG.cpp:186-236 | false means control cannot get from one instruction to the other, within a block or across; with exact hints, true means that it can, or that the code gave up: from the entry block, to another block, or at the cut-off |
| AliasSetTracker.AliasSetTracker.AddPointer | lib/Analysis/AliasSetTracker.cpp:580-594 | after any addition the tracker is valid; without saturation the sets the pointer has to do with, and only those, become one with the pointer in it; with saturation all pointers share one set; it sets in only when the may-alias sets, connected but not yet all merged, hold more than 250 pointers, and while only pointers were added, just then |
| AliasSetTracker.AliasSetTracker.AddUnknown | lib/Analysis/AliasSetTracker.cpp:416-442 | the sets an instruction has to do with, and only those, become one that holds the instruction; the count of pointers in may-alias sets falls behind by the pointers of that set if it is the only one and was a must-alias set, and by nothing otherwise; it goes on as it was exactly if the instruction does not hit a single must-alias set |
| AliasSetTracker.CountFallsBehind | lib/Analysis/AliasSetTracker.cpp:155-168 | a state in which it falls behind: one must-alias set with one pointer, and an instruction that touches it |
| AliasSetTracker.AliasesShareSet | lib/Analysis/AliasSetTracker.cpp:253-269 | any two tracked pointers not called NoAlias lead to the same set |
| AliasSetTracker.SetsKeepPromises | include/llvm/Analysis/AliasSetTracker.h:142-165 | pointers in a set marked must-alias are pairwise MustAlias, and a set's access covers all accesses recorded for its members |
| AliasSetTracker.SetsAreTight | include/llvm/Analysis/AliasSetTracker.h:142-165 | before saturation a set is a must-alias set exactly if it has no instructions and all its pointers must alias, it is modified exactly if a member pointer is or a member instruction writes, and referenced exactly if a member pointer is or there is an instruction |
| AliasSetTracker.CountsAreExact | include/llvm/Analysis/AliasSetTracker.h:134-136 | every reference count is the number of records naming the set, plus the sets forwarding to it, plus one for its unknown instructions; a live set has at least one |
| AliasSetTracker.AliasSetTracker.DropRef | include/llvm/Analysis/AliasSetTracker.h:174-178 | dropping a reference leaves all counts exact, also when sets are removed one after the other; live sets and where others lead are unchanged |
| AliasSetTracker.AliasSetTracker.RemoveAliasSet | lib/Analysis/AliasSetTracker.cpp:99-110 | only a forwarding set can be left without references; removing it gives up its own reference |
| AliasSetTracker.AliasSetTracker.GetForwardedTarget | include/llvm/Analysis/AliasSetTracker.h:266-276 | returns where forwarding ends and makes the set forward there directly, with all counts exact |
| AliasSetTracker.AliasSetTracker.GetAliasSet | include/llvm/Analysis/AliasSetTracker.h:96-105 | a record ends up naming the live set it leads to; no pointer changes its set |
| AliasSetTracker.AliasSetTracker.MergeSetIn | lib/Analysis/AliasSetTracker.cpp:37-97 | the merged set has all members, the union of the accesses, stays must-alias exactly if both were and their first members must alias; everything that led to the other set leads to it |
| AliasSetTracker.AliasSetTracker.MergeAliasSetsForPointer | lib/Analysis/AliasSetTracker.cpp:253-269 | merges exactly the sets that have to do with the pointer into the first of them |
| AliasSetTracker.AliasSetTracker.GetAliasSetForPointer | lib/Analysis/AliasSetTracker.cpp:294-337 | the set of a known pointer, the merged set for a new one, or a new set |
| AliasSetTracker.AliasSetTracker.AliasesPointer | lib/Analysis/AliasSetTracker.cpp:174-209 | asking only the first member of a must-alias set gives the same answer as asking all |
| AliasSetTracker.AliasSetTracker.MergeAllAliasSets | lib/Analysis/AliasSetTracker.cpp:542-578 | saturation: no set is used after it was removed, and one set that is taken to alias everything remains |
| AliasSetTracker.AbsorbStep | lib/Analysis/AliasSetTracker.cpp:564-571 | a forwarding set forwards to an earlier one, which was redirected before; so dropping that reference can only remove sets already dealt with |
| AliasSetMeaning.MergeMeans | lib/Analysis/AliasSetTracker.cpp:37-97 | merging keeps sets apart that have nothing to do with each other, and must-alias sets right |
| AliasSetMeaning.MergeTight | lib/Analysis/AliasSetTracker.cpp:37-97 | merging ascribes no access to a set that no member has, and makes it a may-alias set only where two members do not must-alias or there are instructions |
| AliasSetMeaning.WithPtrMeans | lib/Analysis/AliasSetTracker.cpp:117-153 | adding a pointer to the one set it has to do with keeps all promises |
| AliasSetMeaning.MustTouches | lib/Analysis/AliasSetTracker.cpp:181-192 | a must-alias set has to do with a pointer exactly if its first member has |
| AliasSets.RemoveKeeps | lib/Analysis/AliasSetTracker.cpp:99-110 | removing an unreferenced set keeps the structure and leaves exactly one count to correct |
| AliasSets.RedirectKeeps | include/llvm/Analysis/AliasSetTracker.h:269-274 | path compression keeps where every set leads, and leaves exactly one count to correct |
| AliasSets.LiveReferred | include/llvm/Analysis/AliasSetTracker.h:134-136 | a set with members is referred to, by a record, a forwarding set, or its instructions |
| AliasSetSteps.MergeKeeps | lib/Analysis/AliasSetTracker.cpp:75-96 | forwarding one live set to an earlier one keeps chains acyclic, lists and counts |
| AliasSetSizes.MergedSum | lib/Analysis/AliasSetTracker.cpp:37-97 | merging moves pointers and counts those of must-alias sets that end up in a may-alias set, and no others |
| AliasSetSteps.SweepMerges | lib/Analysis/AliasSetTracker.cpp:257-266 | each merge of the sweep moves exactly the pointers of one more hit set |
| Probability.FromFraction | lib/Support/BranchProbability.cpp:39-49 | the nearest probability over 2^31: off by at most half a unit |
| Probability.ScaleWords | lib/Support/BranchProbability.cpp:67-108 | multiplying and dividing in 32-bit digits gives the exact quotient, rounded down and saturated to 64 bits |
| Probability.LongDivision | lib/Support/BranchProbability.cpp:95-107 | two digits of a long division make the quotient |
| Probability.DigitsAgree | lib/Support/BranchProbability.cpp:78-89 | the three digits with their carry are the product |
| Probability.ScaleIsExact | lib/Support/BranchProbability.cpp:110-112 | scaling by a probability never saturates |
| BFIDistribution.Distribution.Add | lib/Analysis/BlockFrequencyInfoImpl.cpp:105-120 | the total and the overflow flag stand for the exact sum of all weights |
| BFIWeights.CombineWeight | lib/Analysis/BlockFrequencyInfoImpl.cpp:122-136 | merges two weights, saturating instead of wrapping |
| BFIDistribution.Distribution.CombineWeightsBySorting | lib/Analysis/BlockFrequencyInfoImpl.cpp:138-157 | sorting and compacting in place leaves one weight per target: the saturated sum of its edges |
| BFIDistribution.Distribution.CombineWeightsByHashing | lib/Analysis/BlockFrequencyInfoImpl.cpp:159-175 | the hash table, read out in any order, leaves the same weights |
| BFIWeights.CombinedKeepsSum | lib/Analysis/BlockFrequencyInfoImpl.cpp:221-231 | without overflow combining is exact and keeps the sum |
| BFIDistribution.Distribution.Normalize | lib/Analysis/BlockFrequencyInfoImpl.cpp:195-249 | one weight per target, the same targets, scaled sums, and a total that is their sum, for all lists whose sum overflows at most once; the total has at most 32 bits if the sum is below the limit for the number of targets |
| BFIScaling.NormalizedInOrder | lib/Analysis/BlockFrequencyInfoImpl.cpp:233-247 | every normalized weight is at least 1, and weights keep the order of the combined sums |
| BFIScaling.TotalLimitExact | lib/Analysis/BlockFrequencyInfoImpl.cpp:211-249 | the asserted bound of 32 bits on the total, exactly: for n targets (2 to 2^31) every list with this sum (below 2^65) keeps it if and only if the sum is below 2^65 - (n-1) * 2^33 + n - 2 |
| BFIScaling.LimitIsReached | lib/Analysis/BlockFrequencyInfoImpl.cpp:211-249 | for each sum from the limit on, a list of weights with that sum and number of targets whose normalized total has more than 32 bits |
| BFIScaling.OverflowedFits | lib/Analysis/BlockFrequencyInfoImpl.cpp:215-249 | below the limit, rounding up by at most half a unit and the lower limit of 1 together cost less than the missing bit |
| BFIScaling.FullWeightsExceed | lib/Analysis/BlockFrequencyInfoImpl.cpp:215-249 | two weights of 2^64-1 overflow once, as allowed, and normalize to a total of 2^32: the asserted bound fails there |
| Powers.ShiftRightRounds | lib/Analysis/BlockFrequencyInfoImpl.cpp:187-193 | shiftRightAndRound is division by a power of two, halves rounding up |
| BFIFlow.DitheringDistributer.TakeMass | lib/Analysis/BlockFrequencyInfoImpl.cpp:94-103 | hands out the share of a weight and keeps the rest |
| BFIFlow.TakeShare | lib/Support/BranchProbability.cpp:67-108 | the arithmetic in 32-bit digits, with the probability rounded to a fraction over 2^31, gives the share that the distribution is stated with: the mass times that fraction, rounded down, without saturating |
| BFIFlow.DeliverAllConserves | lib/Analysis/BlockFrequencyInfoImpl.cpp:402-435 | sharing a mass out by all weights of a distribution adds at most that mass, saturating or not, and delivers exactly that mass if there is no more than a full mass in all |
| BFIPortions.DeliverAllReceived | lib/Analysis/BlockFrequencyInfoImpl.cpp:402-435 | after sharing out by weights each header got back exactly what goes to it, each other member got what goes to it, and the new exits are the targets outside the loop, in order, with their portions; masses saturate when full |
| BFIPortions.PortionsSum | lib/Analysis/BlockFrequencyInfoImpl.cpp:94-103 | the portions of a mass add up to it, to the last unit |
| BFIMass.Loop.AddToDist | lib/Analysis/BlockFrequencyInfoImpl.cpp:268-328 | classifies an edge as back edge, exit or local, and gives up exactly on a backward edge between members |
| BFIMass.Loop.DistributeMass | lib/Analysis/BlockFrequencyInfoImpl.cpp:402-435 | each normalized weight gets its share of what the ones before left: headers, members and exits receive exactly their portions |
| BFIMass.Loop.PropagateMassToSuccessors | include/llvm/Analysis/BlockFrequencyInfoImpl.h:1198-1223 | moves a block's mass along its normalized edges, or changes nothing |
| BFIMass.Loop.InitHeaders | include/llvm/Analysis/BlockFrequencyInfoImpl.h:1098-1111 | several headers share the full mass, the last taking what is left; other blocks keep what they have |
| BFIMass.Loop.ComputeMassInLoop | include/llvm/Analysis/BlockFrequencyInfoImpl.h:1093-1123 | gives up exactly on irreducible back edges; otherwise it visits headers and members in order, each visit splitting the block's mass by its normalized weights, and what leaves goes to no header or member; mass returned to headers, mass gone to exits and mass in blocks without successors add up to at most the full mass and what the members had, and to exactly the full mass if they had nothing and no member is its own successor; several headers are then refilled, to more than the full mass in all if and only if mass came back to some but not to all of them |
| BFIMass.ExitsOutside | lib/Analysis/BlockFrequencyInfoImpl.cpp:430-433 | in every sweep, what leaves the loop has a target that is neither a header nor a member |
| BFIMass.Loop.ClearMass | include/llvm/Analysis/BlockFrequencyInfoImpl.h:600-603 | making a graph of the loop's blocks, as is done before a second pass, takes all mass from the headers and members |
| BFIMass.Loop.UpdateWithIrreducible | lib/Analysis/BlockFrequencyInfoImpl.cpp:755-765 | what came back and what left is forgotten, and compacting the list in place leaves the members that are in no package, in their order |
| BFIMass.Loop.ComputeMassInTwoPasses | include/llvm/Analysis/BlockFrequencyInfoImpl.h:1079-1091 | whichever of the two passes succeeds, the mass that came back, left, and stayed in blocks without successors is exactly the full mass: the clearing between a pass that gives up and the second one leaves nothing of the first; and each succeeds exactly if it meets no irreducible back edge |
| BFIMass.StepConserves | lib/Analysis/BlockFrequencyInfoImpl.cpp:402-435 | visiting a block adds no mass to the whole, and keeps it exactly if nothing can saturate and the block has no edge to itself; headers keep their mass |
| BFIMass.GoesForward | lib/Analysis/BlockFrequencyInfoImpl.cpp:307-327 | in processing order, the local edges that are allowed lead to blocks still to come, or from a block to itself |
| BFIMass.Loop.AdjustLoopHeaderMass | lib/Analysis/BlockFrequencyInfoImpl.cpp:767-801 | headers get shares of a full mass by the mass that returned to them |
| BFIHeaderMass.HeadersRefilled | lib/Analysis/BlockFrequencyInfoImpl.cpp:767-801 | exactly the headers that mass returned to share the full mass; the others keep what they had |
| BFIPortions.AssignAllPortions | lib/Analysis/BlockFrequencyInfoImpl.cpp:791-800 | refilling gives each header just its portion of a full mass and leaves the other blocks alone |
| BFIHeaderMass.HeadersTotal | lib/Analysis/BlockFrequencyInfoImpl.cpp:767-801 | after redistribution the headers hold the full mass between them if and only if mass came back to all of them or to none; otherwise more |
| BFIHeaderMass.HeadersExceed | lib/Analysis/BlockFrequencyInfoImpl.cpp:767-801 | an input with too much: two headers, and all mass comes back to the first |
| BFIHeaderMass.HeaderSharePositive | include/llvm/Analysis/BlockFrequencyInfoImpl.h:1098-1105 | each of up to 2^31 headers, the number of units of a probability, starts with some mass, in spite of rounding at every share |
| BFIMass.Loop.ExitingMass | lib/Analysis/BlockFrequencyInfoImpl.cpp:359-364 | full mass minus the returned masses, and nothing if they saturate |
| BFIHeaders.FindIrreducibleHeaders | lib/Analysis/BlockFrequencyInfoImpl.cpp:646-711 | headers are the blocks entered from outside and the targets of back edges from other non-entry blocks; headers and others are sorted and divide the component |
| BFIHeaders.OthersGoForward | lib/Analysis/BlockFrequencyInfoImpl.cpp:680-708 | with these headers no edge between other blocks goes backward or to itself, so propagating mass never gives up |
| BFIHeaders.ComputeIrreducibleLoop | lib/Analysis/BlockFrequencyInfoImpl.cpp:713-733 | a loop made of an irreducible component with these headers is swept without giving up, and no mass is lost if the blocks had none before |
| BranchWeights.BranchProbabilityInfo.CalcMetadataWeights | lib/Analysis/BranchProbabilityInfo.cpp:221-313 | takes the probabilities exactly if all successors have constant weights; other blocks' probabilities stay |
| BranchWeights.UsedWeightsFit | lib/Analysis/BranchProbabilityInfo.cpp:263-282 | scaled weights fit into 32 bits in sum, and the sum is never zero |
| BranchWeights.ProportionsNear | lib/Analysis/BranchProbabilityInfo.cpp:263-287 | how near each probability is to the weight's part of the sum of the metadata, for all weights: half a unit, and what dividing the weights can lose; or to an equal part, if no weight is left or no edge is reachable |
| BranchWeights.SmallWeightsNearest | lib/Analysis/BranchProbabilityInfo.cpp:263-287 | weights whose sum has at most 32 bits give the nearest probabilities |
| BranchWeights.BranchProbabilityInfo.FitWeights | lib/Analysis/BranchProbabilityInfo.cpp:263-282 | the loops compute the scaled weights, or ones if nothing useful is left |
| BranchWeights.BranchProbabilityInfo.Redistribute | lib/Analysis/BranchProbabilityInfo.cpp:289-307 | unreachable edges are cut to one unit and the difference goes to the reachable ones in equal parts |
| BranchWeights.NeverSaturates | lib/Analysis/BranchProbabilityInfo.cpp:293-306 | the difference and any reachable probability together are at most one, so no addition saturates |
| BranchWeights.FinalSumsToOne | lib/Analysis/BranchProbabilityInfo.cpp:284-310 | the probabilities add up to one within half a unit per edge and one unit per reachable edge |
| BranchWeights.FinalKeepsOrder | lib/Analysis/BranchProbabilityInfo.cpp:284-310 | edges of one kind keep the order of their weights, and an unreachable edge has at most one unit when a reachable one exists |
| AddressForms.GetIndexDifference | lib/Analysis/BasicAliasAnalysis.cpp:1704-1738 | under every valuation the result stands for the first form minus the second, modulo 2^64; no scale of zero appears; unless equality is denied, each variable still occurs once if it did, and such a form has no difference with itself |
| AddressForms.SubtractIndex | lib/Analysis/BasicAliasAnalysis.cpp:1717-1736 | merging, erasing or appending one index subtracts its term, with wrap-around scales |
| AddressForms.NormalFormUnique | lib/Analysis/BasicAliasAnalysis.cpp:1704-1738 | forms in which each variable occurs once, and with no scale of zero, that stand for the same addresses have the same entries; so the difference is determined but for its order |
| Bits.LowestSetBit | lib/Analysis/BasicAliasAnalysis.cpp:1326 | x ^ (x & (x - 1)) is the lowest set bit |
| Bits.MaskIsRemainder | lib/Analysis/BasicAliasAnalysis.cpp:1331 | masking with a power of two minus one leaves the remainder |
| Bits.OrMultiples | lib/Analysis/BasicAliasAnalysis.cpp:1294-1299 | everything or-ed together is a multiple of the lowest bit of the result |
| AddressAliasing.ModuloTest | lib/Analysis/BasicAliasAnalysis.cpp:1290-1335 | the test passes only if the two byte ranges share no address modulo 2^64 for any value of the indices; and for known sizes and variables of 64 bits that occur once each, it passes whenever that is so for all values they can take |
| AddressAliasing.ModuloExact | lib/Analysis/BasicAliasAnalysis.cpp:1290-1335 | both directions for the test by the lowest bit set in any scale: where it fails, unextended variables have values with which the accesses meet |
| AddressAliasing.ApartModulo | lib/Analysis/BasicAliasAnalysis.cpp:1328-1335 | two accesses that fit side by side modulo a power of two are disjoint when their distance is known modulo it |
| AddressAliasing.AliasAtDistance | lib/Analysis/BasicAliasAnalysis.cpp:1252-1347 | MustAlias just at distance zero; at a constant distance PartialAlias just if one access starts within the other, NoAlias otherwise, also with one unknown size; at a symbolic distance NoAlias just by one of three tests: the modulus, for all indices and with wrap-around; known signs and a constant offset of two variables, for the distance as an integer |
| AddressAliasing.AliasForms | lib/Analysis/BasicAliasAnalysis.cpp:1221-1224 | the same for two decomposed pointers over one base: what each reason for NoAlias guarantees about their addresses, and PartialAlias means a shared byte for all indices |
| AddressAliasing.SignsWrap | lib/Analysis/BasicAliasAnalysis.cpp:1337-1341 | NoAlias by known signs fails where addresses wrap around: an input whose variable is a signed number of 64 bits that is not negative, and whose accesses are the same |
| AddressRanges.PositiveSum | lib/Analysis/BasicAliasAnalysis.cpp:1302-1324 | terms that the code takes for positive add up to no less than zero and no more than the largest sum, for all values of the variables' widths and signs |
| AddressAliasing.SignsFit | lib/Analysis/BasicAliasAnalysis.cpp:1337-1341 | NoAlias by known signs is right, with addresses that wrap around, if the base and the largest sum that the widths and signs of the variables allow leave room for the first access |
| AddressAliasing.SignsExact | lib/Analysis/BasicAliasAnalysis.cpp:1337-1341 | the exact condition for one index whose steps cannot jump over the other access: the accesses are apart for all values of the variable's width and sign, with addresses that wrap around, if and only if the largest distance leaves room for the first access |
| AddressAliasing.ApartExact | lib/Analysis/BasicAliasAnalysis.cpp:1252-1341 | when addresses wrap around, two accesses are apart exactly if their distance modulo 2^64 leaves room for both |
| AddressAliasing.BesideExact | lib/Analysis/BasicAliasAnalysis.cpp:1252-1341 | accesses that are side by side as integers, no farther than the address space, are apart exactly if neither reaches around it to the other |
| AddressAliasing.OffsetProves | lib/Analysis/BasicAliasAnalysis.cpp:1740-1793 | two variables at a constant offset modulo their width are never closer than the heuristic says, whichever wraps, also if the product of that distance and the scale overflows |
| AddressAliasing.OffsetWraps | lib/Analysis/BasicAliasAnalysis.cpp:1788-1793 | adding a size of nearly 2^64 to the constant wraps around, and the heuristic is wrong: an input with two variables of 8 bits, zero extended to 64 |
| AddressAliasing.OffsetExact | lib/Analysis/BasicAliasAnalysis.cpp:1740-1793 | when the answer by a constant offset is right for all values that two variables of that width take: just if the accesses are side by side at both distances, with and without one of the variables wrapping around |
| AddressAliasing.FieldsApartIff | lib/Analysis/BasicAliasAnalysis.cpp:1058-1067 | fields of array elements never overlap, whichever elements they are in, exactly if the test passes in one of the two orders; also for a trailing field that starts at the end of the struct |
| LinearExpressions.LinearMeans | lib/Analysis/BasicAliasAnalysis.cpp:200-339 | without sign extensions, Scale * V + Offset equals the expression in every environment, modulo its width, and modulo the outermost width if nothing beneath wraps; also at the depth limit and through zero extension |
| LinearExpressions.LinearReaches | lib/Analysis/BasicAliasAnalysis.cpp:200-339 | within six steps an expression is decomposed down to its innermost operand exactly if every disjunction only adds, what is zero extended is marked not to wrap, and what is sign extended is marked so for signed numbers, or for words beneath a zero extension |
| LinearExpressions.LinearShape | lib/Analysis/BasicAliasAnalysis.cpp:295-333 | the bits counted as extended make up for the difference in width |
| LinearExpressions.BinMeans | lib/Analysis/BasicAliasAnalysis.cpp:224-282 | each operation carries the equation over, and the stronger one as long as it is marked not to wrap |
| LinearExpressions.ExtendedMeans | lib/Analysis/BasicAliasAnalysis.cpp:318-333 | zero extension keeps the equation if nothing beneath wraps; otherwise the decomposition is dropped |
| LinearExpressions.SignedMeans | lib/Analysis/BasicAliasAnalysis.cpp:224-282 | as long as all operations are marked not to wrap as signed numbers, the exact value is the line of the signed constants |
| LinearExpressions.SextKept | lib/Analysis/BasicAliasAnalysis.cpp:303-316 | the decomposition of a sign extension that is kept is right for a value of the variable exactly if the kept scale and extended offset come to the exact line of the signed constants there; the next rows turn that into conditions on the constants |
| LinearExpressions.SextDropped | lib/Analysis/BasicAliasAnalysis.cpp:310-316 | one that is dropped, as something may have wrapped, is right |
| LinearExpressions.SextThroughZext | lib/Analysis/BasicAliasAnalysis.cpp:318-333 | one through a zero extension is right exactly if the operand is not negative |
| LinearExpressions.SextOfSum | lib/Analysis/BasicAliasAnalysis.cpp:303-316 | for sums, that is exactly if the constants add up within the signed range of the narrow width |
| LinearExpressions.SextOfProduct | lib/Analysis/BasicAliasAnalysis.cpp:262-268 | for a variable times constants without signed wrap, it is right in every environment that keeps the flags exactly if the constants have the same product as words and as signed numbers, modulo the wide width, or only zero can be multiplied without wrapping |
| LinearExpressions.NoNegativeFactor | lib/Analysis/BasicAliasAnalysis.cpp:262-268 | the two products agree if no constant is negative, so then it is right |
| LinearExpressions.SextOfOneFactor | lib/Analysis/BasicAliasAnalysis.cpp:262-268 | with one constant, it is right in every environment exactly if that constant is not negative |
| LinearExpressions.SumFails | lib/Analysis/BasicAliasAnalysis.cpp:303-309 | an input beyond it: x + 100 + 100 on 8 bits, none of which wraps for x = -100 |
| LinearExpressions.ProductFails | lib/Analysis/BasicAliasAnalysis.cpp:262-268 | the scale is not sign extended: x * -1 on 8 bits becomes 255 * x |
| LinearExpressions.ZextFails | lib/Analysis/BasicAliasAnalysis.cpp:318-333 | the sign extension of zext x - 1 is taken for a zero extension |
| SteensSummary.FunctionInfo.constructor | lib/Analysis/CFLSteensAliasAnalysis.cpp:112-178 | the summary is complete for all return values and parameters, or empty with more than 50 arguments |
| SteensSummary.FunctionInfo.AddToRetParamRelations | lib/Analysis/CFLSteensAliasAnalysis.cpp:130-158 | one walk terminates, on cyclic chains as well, and keeps the summary complete |
| SteensSummary.SameSetRelated | lib/Analysis/CFLSteensAliasAnalysis.cpp:122-158 | values whose chains reach the same set are related by the closure of the summary under equivalence and equal dereference, and the set's visible attributes are recorded for a related value |
| SteensSummary.RelatedIffSameSet | lib/Analysis/CFLSteensAliasAnalysis.cpp:122-158 | with one root for each index the summary is exact: related just if the same set |
| SteensSummary.AttributesGenuine | lib/Analysis/CFLSteensAliasAnalysis.cpp:146-149 | attributes that are recorded for a value are those of a set that its chain reaches |
| SteensSummary.ChainRelated | lib/Analysis/CFLSteensAliasAnalysis.cpp:130-158 | stopping at the first mapped set loses nothing: deeper levels are related through it |
| SteensSummary.WalkMeets | lib/Analysis/CFLSteensAliasAnalysis.cpp:133-143 | meeting a mapped set completes the root with at most one relation |
| ModRefQueries.CallLocationRight | lib/Analysis/AliasAnalysis.cpp:146-200 | if every registered analysis is sound, the aggregate answer about a call and a location covers everything the call does to it |
| ModRefQueries.CallCallRight | lib/Analysis/AliasAnalysis.cpp:202-299 | Mod is set whenever the first call writes what the second accesses, Ref whenever it reads what the second writes |
| ModRefQueries.AnswersWithin | lib/Analysis/AliasAnalysis.cpp:150-156 | the aggregate is never less precise than any single analysis |
| ModRefQueries.CallLocationJustified | lib/Analysis/AliasAnalysis.cpp:146-200 | Mod and Ref are given only where the behavior, constant memory and the argument mask leave room for them: for calls that access nothing elsewhere, only through an argument that may point into the location |
| ModRefQueries.CallCallJustified | lib/Analysis/AliasAnalysis.cpp:202-299 | so are they for two calls: if one of them accesses only its arguments, only through an argument with a conflicting access |
| ModRefQueries.BehaviorRight | lib/Analysis/AliasAnalysis.cpp:301-313 | meeting the behaviors keeps them sound, since no access is both through an argument and to hidden memory |
| ModRefQueries.ArgsMaskRight | lib/Analysis/AliasAnalysis.cpp:172-191 | the argument loop misses no argument that reaches into the location |
| ModRefQueries.AAResults.GetModRefInfo | lib/Analysis/AliasAnalysis.cpp:146-200 | the method with its early exits computes the specified answer |
| ModRefQueries.AAResults.GetModRefInfoOfCalls | lib/Analysis/AliasAnalysis.cpp:202-299 | so does the query about two calls |
| ModRefQueries.AAResults.ScanTheirArgs | lib/Analysis/AliasAnalysis.cpp:240-266 | the argument loop may stop once all that is left to find was found |
| ModRefQueries.AAResults.ScanOwnArgs | lib/Analysis/AliasAnalysis.cpp:270-296 | so may the loop over the first call's arguments |
| ModRefQueries.AAResults.GetModRefInfoOfInstruction | lib/Analysis/AliasAnalysis.cpp:126-144 | an instruction and a call are unrelated only if the call touches nothing of what it accesses |
| ModRefQueries.AAResults.GetModRefBehavior | lib/Analysis/AliasAnalysis.cpp:301-313 | the meet of all behaviors, with an early exit |
| ModRefQueries.AAResults.GetArgModRefInfo | lib/Analysis/AliasAnalysis.cpp:112-124 | the meet over all analyses, with an early exit |
| ModRefQueries.AAResults.Alias | lib/Analysis/AliasAnalysis.cpp:93-101 | the first analysis with a definite answer decides |
| ModRefQueries.AliasRight | lib/Analysis/AliasAnalysis.cpp:93-101 | a definite answer about two locations is right: NoAlias means disjoint, PartialAlias overlapping, and MustAlias starting at the same address |
| ModRefQueries.FirstDecides | lib/Analysis/AliasAnalysis.cpp:93-101 | it is that of the first analysis that has one, and there is none just if no analysis has |
| ModRefQueries.CallLocationSharpens | lib/Analysis/AliasAnalysis.cpp:146-200 | one more analysis never blurs the answer about a location, unless a call known to only write is now said not to access memory, and still anywhere |
| ModRefQueries.CallLocationMayBlur | lib/Analysis/AliasAnalysis.cpp:150-162 | for all behaviors that do so, sound analyses whose answer changes from Mod to Ref |
| ModRefQueries.CallLocationExact | lib/Analysis/AliasAnalysis.cpp:146-200 | hence exactly for these behaviors one more sound analysis can blur the answer about a location |
| ModRefQueries.CallCallSharpens | lib/Analysis/AliasAnalysis.cpp:202-299 | one more analysis never blurs the answer about two calls outside three cases, told by the behaviors before and after |
| ModRefQueries.CallCallBlurs | lib/Analysis/AliasAnalysis.cpp:202-299 | for all behaviors within these cases, sound analyses that blur the answer |
| ModRefQueries.CallCallExact | lib/Analysis/AliasAnalysis.cpp:202-299 | hence exactly for these behaviors one more sound analysis can blur the answer about two calls |
| ModRefQueries.CallCallMayBlur | lib/Analysis/AliasAnalysis.cpp:240-268 | two calls that really write, analyses that are right about them, and an answer that turns from nothing to anything |

## Left out

- BrainFCompiler.BrainF.NextSymbol: the run counters are unbounded integers, where the code uses int.
- BrainFCorrectness.Parse: pointers are compared as positions, and allocation does not fail.
- CFLAnders.Analysis.BuildReachSet: edges are sets, so the order and repetition of edges and of worklist items is not modelled; reverse edges are assumed to mirror edges; field offsets are a TODO of the code.
- CFLAttributes.BuildInfoFrom: filling the FunctionInfo, its summary and mayAlias are not modelled.
- AliasSetTracker.AliasSetTracker.AddPointer: every pointer has one size and one set of tags, fixed by the oracle.
- AliasSetTracker.AliasSetTracker.GetAliasSetForPointer: the size of a known pointer does not change, so the merging that a larger size would cause is not modelled.
- AliasSetTracker.AliasSetTracker.AddUnknown: instructions are not deleted, so the vector of instructions has no null entries.
- Alias set tracker: deletion and copying of values, merging of trackers, volatile flags, printing, and the linked pointer list, which is a sequence.
- BFIMass.Loop.ComputeMassInLoop: with several headers, at most 2^31 of them, and the mass that comes back must be so small that its sum can be normalized into 32 bits, which the code asserts; a full mass is, so this leaves out only members that already hold more.
- BFIMass.Loop.ComputeMassInTwoPasses: which components are packaged, and the edges between packages, are parameters.
- BFIMass.Loop.AddToDist: the assertions about irreducible loops are answered by giving up, as in a build without assertions.
- Block frequencies: loop packaging, unwrapping, scaled floating-point frequencies and their conversion.
- BranchWeights.BranchProbabilityInfo.CalcMetadataWeights: the other heuristics and the callback handles.
- AddressForms.GetIndexDifference: scales are arbitrary 64-bit numbers; how a GEP is decomposed into them is not modelled.
- AddressAliasing.AliasAtDistance: what is known about signs and about two variables with a constant offset is a parameter; how the second decomposition finds it is not part of it. A scale of -2^63, which the code negates, is excluded where the constant-offset test is given a meaning.
- AddressAliasing.FieldsApartIff: offsets and sizes do not wrap around.
- LinearExpressions.SextKept: sign extensions of expressions without others; what one beneath further operations means is not stated, and of products mixed with sums only this condition for one value at a time.
- AddressAliasing.SignsExact: several indices, or one with larger steps, have the sufficient condition of SignsFit only.
- SteensSummary.FunctionInfo.constructor: building the stratified sets is not modelled; offsets of relations are always unknown, as in the code.
- ModRefQueries: fences, atomics and the queries about single instructions other than the one with a call.
- The SNES backend, the C API headers, pass registration, printers, the JIT examples, ParallelJIT, ExceptionDemo, aliasPHI speculation, the BasicAA cache and the Python utilities.
