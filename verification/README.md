# Verified models of gallispin's compiler passes and Click containers

The project models the algorithmic core of the compiler (its graph engine and the passes over basic
blocks) and of the Click headers that ship with it (multi-limb arithmetic, reciprocal division, heaps,
the ring-buffer deque and the hash containers), and proves what each of them promises its callers.
`dafny verify dfyconfig.toml` checks everything.

| modules | what they model |
|---|---|
| `Words`, `Integers`, `BigintInverse`, `Bigint`, `BigintDivide`, `BigintUnparse` | 32-bit words with explicit wrap-around; n-limb multiplication and division in place on arrays; the reciprocal and the branch-free division step; printing in bases 2 to 36 |
| `Libdivide`, `BucketCounts` | generation of magic multipliers, division by multiply and shift on all three paths, the branch-free pair, recovery of the divisor, and which bucket counts it recovers |
| `Reachability`, `Graph`, `Components`, `Condensation` | out-edge lists, depth-first search, topological sort, Kosaraju's components, the condensation and the order in which blocks are printed |
| `CallGraph` | the reachability search on the call graph and the recursion test |
| `DeadOps`, `DeadOpsMeaning` | mark-and-sweep removal of unused operations, and a small-step meaning of functions over an environment, a memory and a trace of effects, in which each kind of operation says for itself what it may change |
| `InlineModel`, `InlineContents`, `InlineState`, `InlineSteps`, `InlineBroken`, `InlineRun`, `InlineLaid`, `InlineOrder`, `InlineFinish`, `Inline`, `InlineElement` | expansion of calls into basic blocks, as runs of a state machine whose invariant every step keeps; what the blocks of an expansion are to hold and in which order they come, told from the functions alone; and pruning of the functions an element no longer needs |
| `DuplicateBbs`, `DuplicateRegion` | duplication of a region of basic blocks |
| `HeapOrder`, `Heap` | binary and d-ary heaps with position tracking |
| `Ring`, `Deque` | the ring buffer behind the deque, with constructed and raw slots told apart |
| `Chains`, `HashContainer`, `HashTable`, `HashMap` | chains of elements linked through the elements, iterators that insert and erase while they iterate, and the maps that the two hash tables implement |
| `Options` | optional values |

Code that works by changing things step by step is imperative here too: limb buffers and heaps are
arrays, `AdjacencyList`, `Function`, `Inliner`, `Program`, `DequeMemory`, `HashContainer`,
`HashTable` and `HashMap` are classes. Each method is proved against a specification, and lemmas
prove what that specification means. Basic blocks created by the inliner, and elements of a hash
container, are known by number; the memory they live in is a map or sequence field of the class.

## What turned out not to hold

The models follow the code. Where the code does not do what its name or documentation says, a failing
input is given and the exact condition is proved; the one place where only one direction is proved says
so.

* `IsAcyclic` never reports a cycle, because `visited` is set together with `visiting` and looked at
  first (`Components.HasCycleFrom`, `Components.IsAcyclic`). `TopologicalSort` puts successors first
  exactly when the only cycles are self-loops (`Components.TopologicalSort`).
* `generate_inline_bbs`, for a function that has one entry and one return block like all functions it
  expands on the way, delivers what its assertions ask for exactly when every block holds at most one
  call to expand, every function to expand is itself of this kind, and the return block is not also the
  entry with nothing to expand in it. With two calls in one block the first callee's last block still
  counts as a return block when the second callee is attached, so nothing leads to the second entry; a
  single block that is both entry and return is listed twice (`Inline.Inliner.Generate`,
  `InlineModel.Good`).
* `libdivide_u32_recover` recovers the divisor on the shift and plain multiply paths. On the add path
  the 33-bit divisor is cut to 32 bits. For divisors below 2^16 it recovers exactly those whose record
  does not take the add path (`Libdivide.RecoveredIff`). Above 2^16 only one direction is proved: off
  the add path recovery is right, and on it recovery is wrong for every magic number above `2^(s+1)`
  (`Libdivide.RecoverFailsOnAddPath`); smaller ones can be recovered by accident, as 260533454 is
  (`Libdivide.RecoveredByAccident`). For the bucket counts 2^k - 1 of the hash container the condition
  is exact for all sizes: they are recovered if and only if k is 1, 2, 4, 8, 16 or 32
  (`BucketCounts.CountRecoveredIff`), so the container's debug check fails for all others, the initial
  count 63 among them (`BucketCounts.SelfCheckIff`, `BucketCounts.InitialBucketCountNotRecovered`).
* `duplicate_bbs` renames arguments but neither branch conditions nor return values. The copies leave
  their blocks by the right variables if and only if the region defines none of the conditions and
  return values of its blocks (`DuplicateRegion.ExitsRightIff`; for a single condition or return value
  `DuplicateRegion.ConditionsNotRenamed`, `DuplicateRegion.ReturnValuesNotRenamed`). A block that
  branches on a variable of its own is a failing input: its copy branches on a variable that only the
  original defines (`DuplicateRegion.DuplicateSelfBranch`).
* `Deque::resize` does nothing to the slots when the change is a whole lap of the ring, which happens
  exactly from empty to full and from full to empty. The constructor that fills a deque runs into this
  for every size above zero (`Deque.DequeMemory.Resize`, `Deque.DequeMemory.Sized`).

## Model

| member | source | states |
|---|---|---|
| Integers.IntMultiply | click-llvm-ir/dummy_inc/click/integers.hh:394-412 | the four half-word products and their carries assemble to the exact double-width product, with no carry lost |
| Integers.PartialProducts | click-llvm-ir/dummy_inc/click/integers.hh:394-412 | a product of two words is the weighted sum of its half-word products, each small enough not to wrap |
| Bigint.ValueSnoc | click-llvm-ir/dummy_inc/click/bigint.hh:41-60 | limbs are stored least significant first: a limb appended at the end weighs its power of the base |
| Bigint.MultiplyAdd | click-llvm-ir/dummy_inc/click/bigint.hh:200-213 | x' + carry * 2^(32n) = x + a * b over n limbs, in place, also when x and a are the same buffer |
| Bigint.Multiply | click-llvm-ir/dummy_inc/click/bigint.hh:227-237 | x' + carry' * 2^(32n) = a * b + carry over n limbs, buffers may coincide |
| Bigint.MultiplyHalfLimb | click-llvm-ir/dummy_inc/click/bigint.hh:124-139 | the two-step product by a half-word multiplier is exact |
| Bigint.MultiplyHalf | click-llvm-ir/dummy_inc/click/bigint.hh:251-261 | the multiplication identity for a half-word multiplier |
| BigintInverse.HalfDigit | click-llvm-ir/dummy_inc/click/bigint.hh:146-173 | one half-word digit of schoolbook division is exact after at most two corrections, although the intermediate sums wrap |
| BigintInverse.Inverse | click-llvm-ir/dummy_inc/click/bigint.hh:146-173 | for every divisor with its high bit set the result is floor((2^64-1)/b) - 2^32 |
| BigintInverse.ReciprocalDocumented | click-llvm-ir/dummy_inc/click/bigint.hh:141-173 | that is floor(2^64/b) - 2^32 except for b = 2^31, where it is the largest word |
| BigintInverse.Add | click-llvm-ir/dummy_inc/click/bigint.hh:101-105 | two-limb addition is addition modulo 2^64 |
| BigintInverse.EstimateWithinOne | click-llvm-ir/dummy_inc/click/bigint.hh:369-383 | the quotient estimated with the reciprocal is the true one or one less, for all dividends whose high limb is below the divisor |
| BigintInverse.QuotientEstimate | click-llvm-ir/dummy_inc/click/bigint.hh:369-377 | the wrapped two-limb computation delivers that estimate |
| BigintInverse.PreinvertedDivide | click-llvm-ir/dummy_inc/click/bigint.hh:369-383 | the branch-free step returns the exact quotient and remainder although its intermediates wrap |
| BigintDivide.FirstLimb | click-llvm-ir/dummy_inc/click/bigint.hh:280-286 | the skipped first step is a division step: quotient limb 0 or 1 |
| BigintDivide.DivideNormalized | click-llvm-ir/dummy_inc/click/bigint.hh:280-292 | a = x * b + r with r < b for a divisor with its high bit set |
| BigintDivide.DivideShifted | click-llvm-ir/dummy_inc/click/bigint.hh:294-323 | a = x * b + r with r < b for a smaller divisor, dividing shifted limbs by the shifted divisor, with and without the skipped step |
| BigintDivide.ShiftedFinish | click-llvm-ir/dummy_inc/click/bigint.hh:320-321 | shifting the remainder back gives the remainder of the unshifted division |
| BigintDivide.Divide | click-llvm-ir/dummy_inc/click/bigint.hh:274-326 | for every n >= 1 and every non-zero divisor, a = x * b + r and r < b, in place or not |
| BigintUnparse.BufferSuffices | click-llvm-ir/dummy_inc/click/bigint.hh:335-338 | the digit buffer of n * 32 / div + 1 characters has room for another digit as long as the number is not zero |
| BigintUnparse.DigitRoundTrip | click-llvm-ir/dummy_inc/click/bigint.hh:346-352 | every digit character reads back to its digit and is of the case asked for |
| BigintUnparse.UnparseClear | click-llvm-ir/dummy_inc/click/bigint.hh:334-358 | for bases 2 to 36 the text reads back to the number, has no leading zeros and only digits and letters of the case asked for, and the number is cleared |
| Libdivide.PowerOfTwoTest | click-llvm-ir/dummy_inc/click/libdivide.h:191-193 | d & (d - 1) is zero exactly for powers of two |
| Libdivide.MagicQuotient | click-llvm-ir/dummy_inc/click/libdivide.h:207-216 | when the multiplier's error is small enough, multiplying and shifting is division |
| Libdivide.AverageShift | click-llvm-ir/dummy_inc/click/libdivide.h:255-258 | the overflow-free average on the add path is the 33-bit product shifted |
| Libdivide.InternalGen | click-llvm-ir/dummy_inc/click/libdivide.h:186-236 | every divisor gets a divisor record of one of the three correct forms |
| Libdivide.LargePowerWorks | click-llvm-ir/dummy_inc/click/libdivide.h:216-226 | doubling the multiplier and remainder gives a correct 33-bit magic number |
| Libdivide.Gen | click-llvm-ir/dummy_inc/click/libdivide.h:238-263 | for every divisor, dividing any 32-bit number with the generated record is n / d; the record has the add marker exactly for the divisors whose 32-bit magic number would be too coarse, and without it the divisor is recovered |
| Libdivide.BranchfreeGen | click-llvm-ir/dummy_inc/click/libdivide.h:242-246 | the branch-free pair divides exactly for every divisor from 2 on |
| Libdivide.RecoverShift | click-llvm-ir/dummy_inc/click/libdivide.h:265-269 | recovery on the shift path |
| Libdivide.RecoverMultiply | click-llvm-ir/dummy_inc/click/libdivide.h:270-278 | recovery on the plain multiply path |
| Libdivide.RecoveredIff | click-llvm-ir/dummy_inc/click/libdivide.h:265-301 | for every divisor of up to 16 bits, recovery gives the divisor back if and only if its record is not on the add path |
| Libdivide.RecoverFailsOnAddPath | click-llvm-ir/dummy_inc/click/libdivide.h:279-301 | recovery returns a wrong divisor for every add-path record with a magic number above 2^(s+1), however large the divisor |
| Libdivide.RecoveredByAccident | click-llvm-ir/dummy_inc/click/libdivide.h:279-301 | below that bound the wrong arithmetic can hit the divisor: 260533454 is recovered |
| BucketCounts.CountTakesAddPath | click-llvm-ir/dummy_inc/click/libdivide.h:205-226 | the divisor 2^k - 1 needs a 33-bit magic number if and only if k does not divide 32 |
| BucketCounts.WideCountMagic | click-llvm-ir/dummy_inc/click/libdivide.h:216-226 | on the add path, the magic number of 2^k - 1 for k above 16 is 2^(32-k) + 1 |
| BucketCounts.CountRecoveredIff | click-llvm-ir/dummy_inc/click/libdivide.h:265-301 | the divisor 2^k - 1 is recovered if and only if k is one of 1, 2, 4, 8, 16, 32 |
| BucketCounts.SelfCheckIff | click-llvm-ir/dummy_inc/click/hashcontainer.hh:438-464 | the debug check after a divider is made holds for the bucket counts 1, 3, 15, 255, 65535 and 2^32 - 1 and fails for every other 2^k - 1 |
| BucketCounts.InitialBucketCountNotRecovered | click-llvm-ir/dummy_inc/click/hashcontainer.hh:438-448 | the initial bucket count is not recovered from its divider |
| Graph.AdjacencyList.HaveEdge | compiler/include/graph.hpp:71-78 | finds exactly the edges that are there |
| Graph.AdjacencyList.SetEdge | compiler/include/graph.hpp:35-51 | adds the edge once, keeps all others and their order |
| Graph.Dfs | compiler/include/graph.hpp:372-383 | appends exactly the vertices newly visited, each once, in finishing order, and leaves every visited vertex's successors visited |
| Graph.FinishOrderAppend | compiler/include/graph.hpp:372-383 | finishing order is kept when the results of successive searches are joined |
| Components.FinishingOrder | compiler/include/graph.hpp:312-316 | searching from every vertex in turn yields all vertices once in finishing order |
| Components.HasCycleFrom | compiler/include/graph.hpp:349-367 | the cycle search answers no on every graph |
| Components.IsAcyclic | compiler/include/graph.hpp:281-290 | so the test passes on every graph |
| Components.TopologicalSort | compiler/include/graph.hpp:298-306 | a permutation of the vertices that has successors first if and only if there are no cycles but self-loops |
| Components.TopologicalIsAcyclic | compiler/include/graph.hpp:298-306 | an order with successors first exists only without longer cycles |
| Components.Reverse | compiler/include/graph.hpp:318-330 | the reversed graph has exactly the reversed edges |
| Components.SecondSearch | compiler/include/graph.hpp:338-345 | a search of the reversed graph in reverse finishing order finds exactly one component |
| Components.StronglyConnectedComponents | compiler/include/graph.hpp:308-347 | the lists are non-empty, distinct, partition the vertices, each is a class of mutual reachability, and no edge leads from a later list to an earlier one |
| Components.ShareListIffMutual | compiler/include/graph.hpp:308-347 | two vertices share a list if and only if each reaches the other |
| Condensation.ComponentIndex | compiler/src/hir-common-pass.cpp:991-996 | every vertex is mapped to the list it is in |
| Condensation.SccGraph | compiler/src/hir-common-pass.cpp:979-1012 | components are joined exactly when an edge crosses from one to the other |
| Condensation.CondensationOnlySelfLoops | compiler/src/hir-common-pass.cpp:997-1005 | the graph of components has no cycles but self-loops, which is what its topological sort needs |
| Condensation.PrintOrder | compiler/src/highLv-ir.cpp:922-947 | the reverse walk over the sorted components visits every block once, each component in one piece, and every edge stays inside a component or leads forward |
| Condensation.CycleNotReported | compiler/include/graph.hpp:298-306 | on the two-vertex cycle no order has successors first, although the sort's own assertion passes |
| CallGraph.Reachable | compiler/src/hir-common-pass.cpp:275-297 | a search that shares its visited buffer is right when it succeeds, and a failed one leaves behind only vertices that cannot reach the target |
| CallGraph.ReachableFresh | compiler/src/hir-common-pass.cpp:275-297 | with a fresh buffer the answer is reachability |
| CallGraph.IsRecursive | compiler/src/hir-common-pass.cpp:299-324 | true if and only if the function lies on a call cycle, with one buffer for all searches |
| CallGraph.InlineShrinks | compiler/src/hir-common-pass.cpp:374-416 | expanding a non-recursive callee strictly shrinks the set of functions still reachable, which bounds the recursion |
| DeadOps.Function.UpdateUses | compiler/src/hir-common-pass.cpp:25-44 | the source map sends every local variable to the operation that defines it |
| DeadOps.Function.Sweep | compiler/src/hir-common-pass.cpp:120-148 | one pass marks nothing a closed set does not contain, and a pass without change means the marks are closed |
| DeadOps.Function.MarkNeeded | compiler/src/hir-common-pass.cpp:101-149 | the mark loop ends, with the least set that holds all effectful, returned and branch-condition operations and the definitions of arguments of its members |
| DeadOps.NeededIff | compiler/src/hir-common-pass.cpp:94-149 | an operation is needed if and only if a chain of arguments leads to it from an effectful operation, a returned value or a branch condition |
| DeadOps.Function.RemoveUnusedOps | compiler/src/hir-common-pass.cpp:94-161 | every block keeps exactly its needed operations, in order, and nothing else changes |
| DeadOps.Function.Run | compiler/src/hir-common-pass.cpp:258-264 | the pass with its use updates leaves a well-formed function whose source map is right again |
| DeadOps.PrunedWellFormed | compiler/src/hir-common-pass.cpp:151-160 | every variable a remaining operation reads is still defined |
| DeadOps.NothingLeftToRemove | compiler/src/hir-common-pass.cpp:94-161 | a second removal changes nothing |
| DeadOpsMeaning.HarmlessIff | compiler/src/hir-common-pass.cpp:52-92 | the operations called harmless are exactly those that the instruction set allows to compute only |
| DeadOpsMeaning.HarmlessKeeps | compiler/src/hir-common-pass.cpp:72-92 | on every machine a harmless operation leaves memory and trace alone |
| DeadOpsMeaning.EffectShows | compiler/src/hir-common-pass.cpp:72-92 | on a machine that counts them every other operation shows in the memory, and no harmless one does |
| DeadOpsMeaning.BodySimilar | compiler/src/hir-common-pass.cpp:151-160 | a block body and its pruned form have the same memory, the same effects with the same arguments, and agree on all needed variables |
| DeadOpsMeaning.MeaningPreserved | compiler/src/hir-common-pass.cpp:72-161 | from similar states, any number of steps takes both functions along the same blocks to similar states |
| DeadOpsMeaning.RemovalPreservesRuns | compiler/src/hir-common-pass.cpp:72-161 | every run has the same path, observed operations with the same arguments, memory and return value before and after the removal, by a meaning that does not know the pass's idea of side effects |
| InlineModel.CalleeShrinks | compiler/src/hir-common-pass.cpp:374-416 | the measure that lets the conditions on callees be stated by recursion |
| InlineModel.SingleBlockNotGood | compiler/src/hir-common-pass.cpp:491-498 | a single block that is entry and return is a function the expansion cannot handle |
| InlineModel.TwoCallsNotGood | compiler/src/hir-common-pass.cpp:421-433 | so is a block with two calls of the simplest callee, which itself is fine |
| InlineContents.KeptSomewhere | compiler/src/hir-common-pass.cpp:372-433 | no operation of a body block is lost: before the expanded call they stay in the block's own part, after it they go on in the callee's last block |
| InlineContents.LastUnique | compiler/src/hir-common-pass.cpp:483-498 | exactly one block of an expansion returns: the last one of what the return block calls |
| InlineSteps.SpliceStrong | compiler/src/hir-common-pass.cpp:416-433 | splicing in a good callee keeps distinctness, closure, in-degrees and returns as they should be |
| InlineSteps.SpliceWeak | compiler/src/hir-common-pass.cpp:416-433 | whatever the callee, jumps to the body's own blocks remain copies of the body's jumps |
| InlineBroken.SecondEntry | compiler/src/hir-common-pass.cpp:416-433 | after a second expansion in one block nothing jumps to the second callee's entry |
| InlineBroken.SpliceBroken | compiler/src/hir-common-pass.cpp:416-433 | an expansion that has gone wrong cannot be repaired by a later one |
| InlineBroken.FinishStrong | compiler/src/hir-common-pass.cpp:435-454 | taking over the body block's jumps and flags keeps the invariant |
| InlineRun.StepKeeps | compiler/src/hir-common-pass.cpp:366-454 | entering a block, copying an operation, splicing in a callee and finishing a block each keep the invariant: as it should be so far, or wrong in a way that stays |
| InlineRun.RunValid | compiler/src/hir-common-pass.cpp:326-454 | so the invariant holds at the end of every run of these steps |
| InlineLaid.StepTold | compiler/src/hir-common-pass.cpp:366-454 | each step of an expansion that stays good keeps every completed block holding its contents, and the open part its contents so far |
| InlineLaid.RunTold | compiler/src/hir-common-pass.cpp:326-454 | so they do at the end of every run |
| InlineLaid.AllLaid | compiler/src/hir-common-pass.cpp:456-499 | after the last body block the listed blocks are exactly those of the expansion, each with the operations, jumps and flags that the functions say |
| InlineOrder.RunOrdered | compiler/src/hir-common-pass.cpp:326-454 | at the end of every run that stayed good the blocks are listed as the body and the callees list them |
| InlineOrder.OrderIs | compiler/src/hir-common-pass.cpp:484-498 | moving the entry to the front and the return block to the end leaves the order of the others |
| InlineOrder.RunLaid | compiler/src/hir-common-pass.cpp:326-499 | every run that stays good to the end of the body gives the whole inlined flow graph, in order |
| InlineFinish.InDegreeZero | compiler/src/hir-common-pass.cpp:456-481 | counting in-degrees finds exactly the blocks nothing jumps to |
| InlineFinish.EntryHasNoPred | compiler/src/hir-common-pass.cpp:456-482 | the copy of the entry always has in-degree zero |
| InlineFinish.GoodCounts | compiler/src/hir-common-pass.cpp:474-483 | for a good function both asserted counts are one |
| InlineFinish.Finish | compiler/src/hir-common-pass.cpp:456-498 | orders the blocks entry first and return last, or stops at the assertion |
| Inline.Inliner.InlineCall | compiler/src/hir-common-pass.cpp:404-433 | one expanded call is one step of the run, from good state to good or for ever wrong, by whether the callee is good and the first in its block |
| Inline.Inliner.CopyOps | compiler/src/hir-common-pass.cpp:371-435 | all operations of a block are kept in order or expanded, one step of the run for each |
| Inline.Inliner.ExpandBlock | compiler/src/hir-common-pass.cpp:366-454 | one block of the body with its calls expanded, as the steps of the run that copies it |
| Inline.Inliner.Generate | compiler/src/hir-common-pass.cpp:326-499 | for a function that has one entry and one return block like all it expands: succeeds with distinct blocks if and only if the function is good; then one entry, which is first, one return, which is last, all jumps inside, only built-in or recursive calls left, and the blocks are one to one those of the inlined flow graph, in its order, with exactly the operations, jumps and flags it gives them |
| Inline.GoodByBlocks | compiler/src/hir-common-pass.cpp:326-499 | being good is a condition on each block and on the entry |
| InlineElement.CallGraphOf | compiler/src/hir-common-pass.cpp:862-897 | the edges are exactly the calls of functions that are not built-in |
| InlineElement.FunctionsToKeep | compiler/src/hir-common-pass.cpp:915-931 | keeps, in order, exactly the functions the entry reaches |
| InlineElement.CalleeKept | compiler/src/hir-common-pass.cpp:913-931 | a function called from a kept one is kept |
| InlineElement.ExpandedCalls | compiler/src/hir-common-pass.cpp:899-911 | what the expanded entry still calls is recursive |
| InlineElement.InlineEntry | compiler/src/hir-common-pass.cpp:899-941 | for a good entry function in an element whose other functions may be of any shape if they are not expanded: the new body with exactly the contents of the inlined flow graph, the kept functions closed under calls, and the entry's new index |
| DuplicateBbs.Discover | compiler/src/hir-common-pass.cpp:510-541 | the search ends although blocks are queued repeatedly, with exactly the reachable blocks |
| DuplicateBbs.RenameDefs | compiler/src/hir-common-pass.cpp:553-567 | results get new variables, one for each old one |
| DuplicateBbs.Program.CopyBlocks | compiler/src/hir-common-pass.cpp:543-550 | one new block for every listed block, originals untouched |
| DuplicateBbs.Program.RenameDefinitions | compiler/src/hir-common-pass.cpp:552-567 | all definitions of the copies are new and recorded |
| DuplicateBbs.Program.Relink | compiler/src/hir-common-pass.cpp:568-604 | arguments, phi sources and jumps are led to the copies exactly where there is one |
| DuplicateBbs.Program.Duplicate | compiler/src/hir-common-pass.cpp:510-607 | copies exactly the reachable blocks, each with its renamed contents and its conditions and return value as they were |
| DuplicateRegion.CopiesApart | compiler/src/hir-common-pass.cpp:543-550 | copying is one to one between the region and the new blocks |
| DuplicateRegion.EdgesMatch | compiler/src/hir-common-pass.cpp:591-604 | a copy's successors are exactly the copies of its original's successors |
| DuplicateRegion.Isomorphic | compiler/src/hir-common-pass.cpp:591-604 | the copied region has the edges of the original |
| DuplicateRegion.NoJumpBack | compiler/src/hir-common-pass.cpp:591-604 | no jump of a copy leads back into the original region |
| DuplicateRegion.CopyReach | compiler/src/hir-common-pass.cpp:510-607 | from the copy of the start exactly the copies are reachable |
| DuplicateRegion.ArgumentsRenamed | compiler/src/hir-common-pass.cpp:568-580 | an argument changes if and only if the region defines it |
| DuplicateRegion.ArgumentsFollow | compiler/src/hir-common-pass.cpp:566-578 | an argument that an operation of the region computes becomes the result that the copy of this operation computes at the same place; any other argument stays |
| DuplicateRegion.PhiSourcesFollow | compiler/src/hir-common-pass.cpp:579-589 | a phi takes its values from the copies of the blocks it took them from, where there are such; sources of other operations stay |
| DuplicateRegion.JumpsFollow | compiler/src/hir-common-pass.cpp:591-604 | default jump and branches, in position, lead to the copies of their targets or stay; flags, conditions and return value are the original's |
| DuplicateRegion.ConditionsNotRenamed | compiler/src/hir-common-pass.cpp:595-604 | a condition of a copy stays the original's variable, which is what renaming gives if and only if the region does not define it |
| DuplicateRegion.ReturnValuesNotRenamed | compiler/src/hir-common-pass.cpp:543-550 | the same for the value a copied block returns |
| DuplicateRegion.ExitsRightIff | compiler/src/hir-common-pass.cpp:510-607 | all copies leave by their own variables, and none by a variable of the original, if and only if the region defines no condition and no return value of its blocks |
| DuplicateRegion.DuplicateSelfBranch | compiler/src/hir-common-pass.cpp:510-607 | duplicating a block that defines its own condition gives a copy that branches on, and returns, what only the original defines |
| DuplicateRegion.StaysSingleAssignment | compiler/src/hir-common-pass.cpp:552-567 | every variable is still defined once |
| DuplicateRegion.StaysWellFormed | compiler/src/hir-common-pass.cpp:591-607 | jumps still lead to blocks, so that a region can be duplicated again |
| HeapOrder.ChildrenOf | click-llvm-ir/dummy_inc/click/heap.hh:302-310 | the children of a node are a run of indices; node 0 of a d-ary heap has one child fewer |
| HeapOrder.RootIsFirst | click-llvm-ir/dummy_inc/click/heap.hh:166-188 | under any strict weak order nothing in a heap comes before its root |
| HeapOrder.ChangedElement | click-llvm-ir/dummy_inc/click/heap.hh:54-62 | changing one element of a heap gives what change_heap asks for |
| HeapOrder.StepUp | click-llvm-ir/dummy_inc/click/heap.hh:86-90 | one exchange with the parent leaves only the moved element in question |
| HeapOrder.StepDown | click-llvm-ir/dummy_inc/click/heap.hh:92-103 | one exchange with the first child leaves only the moved element in question |
| HeapOrder.SwapPlaced | click-llvm-ir/dummy_inc/click/heap.hh:38-41 | one placement call keeps all records but the moved element's right |
| Heap.SiftUp | click-llvm-ir/dummy_inc/click/heap.hh:86-90 | the loop towards the root |
| Heap.FirstChildBinary | click-llvm-ir/dummy_inc/click/heap.hh:92-97 | the child that comes before the node and its sibling |
| Heap.FirstChildDary | click-llvm-ir/dummy_inc/click/heap.hh:302-309 | the same among up to arity children |
| Heap.SiftDown | click-llvm-ir/dummy_inc/click/heap.hh:92-103 | the loop away from the root ends with a heap |
| Heap.PushHeap | click-llvm-ir/dummy_inc/click/heap.hh:30-44 | heap order, the same elements, every record right, other records untouched |
| Heap.ChangeHeap | click-llvm-ir/dummy_inc/click/heap.hh:286-320 | the same from a heap apart from one element, and that element's new index |
| Heap.RemoveHeap | click-llvm-ir/dummy_inc/click/heap.hh:356-369 | the removed element is last with its own record as it was; the others are a heap with their records right |
| Heap.PopHeap | click-llvm-ir/dummy_inc/click/heap.hh:191-196 | what is removed comes no later than anything left |
| Ring.ViewAdvance | click-llvm-ir/dummy_inc/click/deque.hh:14-26 | moving the head rotates the logical order |
| Ring.GapMoves | click-llvm-ir/dummy_inc/click/deque.cc:89-93 | moving one element across the gap moves the gap |
| Ring.ErasedFront | click-llvm-ir/dummy_inc/click/deque.cc:108-128 | shifting the front up, destroying what is left and advancing the head erases a range |
| Ring.ErasedBack | click-llvm-ir/dummy_inc/click/deque.cc:114-128 | shifting the back down and destroying what is left erases a range |
| Ring.Unrolled | click-llvm-ir/dummy_inc/click/deque.cc:150-153 | copying the two parts of a wrapped ring straightens it |
| Deque.DequeMemory.PushBack | click-llvm-ir/dummy_inc/click/deque.hh:39-47 | appends; a full buffer is doubled, or has four slots after having none, any other is kept; unchanged if it is full and there is no memory to grow |
| Deque.DequeMemory.PushFront | click-llvm-ir/dummy_inc/click/deque.hh:66-74 | prepends; a full buffer is doubled, or has four slots after having none, any other is kept; unchanged if it is full and there is no memory to grow |
| Deque.DequeMemory.PopBack | click-llvm-ir/dummy_inc/click/deque.hh:59-65 | drops the last element and destroys its slot |
| Deque.DequeMemory.PopFront | click-llvm-ir/dummy_inc/click/deque.hh:86-92 | drops the first element and destroys its slot |
| Deque.DequeMemory.Clear | click-llvm-ir/dummy_inc/click/deque.hh:93-99 | destroys every element across the wrap point |
| Deque.DequeMemory.Insert | click-llvm-ir/dummy_inc/click/deque.cc:65-99 | inserts at any position for every head, size and capacity, constructing and destroying each slot in turn; false and unchanged exactly if the deque is full and cannot grow |
| Deque.DequeMemory.Erase | click-llvm-ir/dummy_inc/click/deque.cc:101-133 | erases any range, and returns the position after it |
| Deque.DequeMemory.Reserve | click-llvm-ir/dummy_inc/click/deque.cc:143-158 | growth keeps the contents and unrolls the ring; without memory nothing changes and the result is false |
| Deque.DequeMemory.ReserveAndPush | click-llvm-ir/dummy_inc/click/deque.cc:135-163 | growth keeps the contents; then the element is pushed at the end asked for; without memory for the growth nothing is pushed and the result is false |
| Deque.DequeMemory.Assign | click-llvm-ir/dummy_inc/click/deque.cc:35-51 | becomes equal to the other deque, which is unchanged; assigning to itself changes nothing; without memory it is left empty |
| Deque.DequeMemory.Resize | click-llvm-ir/dummy_inc/click/deque.cc:165-187 | truncates or extends if and only if the change is not a whole lap; otherwise all slots stay as they were; without memory to grow nothing changes |
| Deque.DequeMemory.Sized | click-llvm-ir/dummy_inc/click/deque.hh:349-349 | the filling constructor leaves all slots raw for every size above zero |
| Chains.LinkedDistinct | click-llvm-ir/dummy_inc/click/hashcontainer.hh:551-560 | a chain that ends visits no element twice |
| Chains.RemovedAt | click-llvm-ir/dummy_inc/click/hashcontainer.hh:601-605 | storing the successor through the pointer unlinks one element |
| Chains.InsertedAt | click-llvm-ir/dummy_inc/click/hashcontainer.hh:617-620 | linking in a new element keeps the rest of the chain |
| Chains.ReplacedAt | click-llvm-ir/dummy_inc/click/hashcontainer.hh:607-620 | an element takes another's place |
| Chains.ChainUpdated | click-llvm-ir/dummy_inc/click/hashcontainer.hh:593-622 | relinking one chain leaves the chains of all other buckets alone |
| Chains.FlattenDistinct | click-llvm-ir/dummy_inc/click/hashcontainer.hh:374-385 | no element is stored twice, so that an iteration visits each once |
| HashContainer.HashContainer.Bucket | click-llvm-ir/dummy_inc/click/hashcontainer.hh:472-482 | multiply, shift and subtract with wrap-around is the hash modulo the bucket count |
| HashContainer.HashContainer.Sized | click-llvm-ir/dummy_inc/click/hashcontainer.hh:451-464 | an empty container with the smallest sufficient bucket count of the form 2^k - 1, and whether its debug check holds |
| HashContainer.HashContainer.Next | click-llvm-ir/dummy_inc/click/hashcontainer.hh:348-361 | an iterator moves to the rest of what it had to visit |
| HashContainer.HashContainer.Begin | click-llvm-ir/dummy_inc/click/hashcontainer.hh:374-385 | starts before all elements and moves the first bucket up over empty ones only |
| HashContainer.HashContainer.Visit | click-llvm-ir/dummy_inc/click/hashtable.hh:1035-1040 | walking from begin to end visits the contents, each element once |
| HashContainer.HashContainer.Find | click-llvm-ir/dummy_inc/click/hashcontainer.hh:551-560 | the first element with the key in its bucket, or the place to insert one and no such element |
| HashContainer.HashContainer.FindPrefer | click-llvm-ir/dummy_inc/click/hashcontainer.hh:570-585 | the same, with the element moved to the front of its chain |
| HashContainer.HashContainer.Remove | click-llvm-ir/dummy_inc/click/hashcontainer.hh:601-605 | removes the element and stands before the next one, in this bucket or a later one |
| HashContainer.HashContainer.Replace | click-llvm-ir/dummy_inc/click/hashcontainer.hh:607-621 | exchanges the element at the iterator |
| HashContainer.HashContainer.Insert | click-llvm-ir/dummy_inc/click/hashcontainer.hh:609-621 | inserts; rehashes first to the next count 2^k - 1 if and only if that is asked for, the container is too full and there is a larger count; otherwise exactly one chain changes, by the element at its place |
| HashContainer.HashContainer.Set | click-llvm-ir/dummy_inc/click/hashcontainer.hh:593-622 | all branches: the stored set, the size, the previous element and the iterator; the bucket count changes only for an insertion that may rebalance a too full container; otherwise exactly one position of one chain changes, and nothing at all if the element is the one that is there |
| HashContainer.HashContainer.InsertAt | click-llvm-ir/dummy_inc/click/hashcontainer.hh:624-633 | inserts at the iterator, which then stands behind the new element |
| HashContainer.HashContainer.Erase | click-llvm-ir/dummy_inc/click/hashcontainer.hh:642-647 | removes at an iterator that goes on to the next element |
| HashContainer.HashContainer.EraseKey | click-llvm-ir/dummy_inc/click/hashcontainer.hh:649-655 | removes the first element with the key if and only if there is one, and touches nothing else |
| HashContainer.HashContainer.Rehash | click-llvm-ir/dummy_inc/click/hashcontainer.hh:673-705 | a new bucket count of the form 2^k - 1, the smallest that suffices, and the same elements, each in its new bucket |
| HashContainer.HashContainer.EraseAll | click-llvm-ir/dummy_inc/click/hashtable.hh:1054-1062 | erasing while iterating takes out every element once and empties the container |
| HashContainer.HashContainer.Clear | click-llvm-ir/dummy_inc/click/hashcontainer.hh:657-663 | empties the buckets |
| HashContainer.HashContainer.StoredOnce | click-llvm-ir/dummy_inc/click/hashcontainer.hh:472-482 | every stored element is stored once, in the bucket of its hash |
| HashContainer.BucketCountFor | click-llvm-ir/dummy_inc/click/hashcontainer.hh:675-678 | rounding up to 2^k - 1 ends, with the smallest count that suffices |
| HashContainer.BucketCountGrows | click-llvm-ir/dummy_inc/click/hashcontainer.hh:610-612 | one more bucket than 2^k - 1 means 2^(k+1) - 1 |
| HashTable.HashTable.Find | click-llvm-ir/dummy_inc/click/hashtable.hh:919-930 | lookup in the map |
| HashTable.HashTable.FindInsert | click-llvm-ir/dummy_inc/click/hashtable.hh:938-948 | the key's element, made if it was missing; the bucket count grows, to the next 2^k - 1, exactly when a new key meets a full table |
| HashTable.HashTable.Set | click-llvm-ir/dummy_inc/click/hashtable.hh:983-995 | map update, and whether the key was new; a known key leaves all chains alone, and the bucket count grows exactly when a new key meets a full table |
| HashTable.HashTable.Erase | click-llvm-ir/dummy_inc/click/hashtable.hh:1008-1017 | map removal, and the number removed |
| HashTable.HashTable.Clear | click-llvm-ir/dummy_inc/click/hashtable.hh:1054-1062 | leaves the empty map |
| HashTable.HashTable.CloneElements | click-llvm-ir/dummy_inc/click/hashtable.hh:1019-1033 | inserting behind a live iterator copies the other table: the same map, and the same iteration order |
| HashMap.HashMap.Find | click-llvm-ir/dummy_inc/click/hashmap.cc:150-174 | lookup in the map |
| HashMap.HashMap.Insert | click-llvm-ir/dummy_inc/click/hashmap.cc:216-240 | map update, and whether the key was new; at most two pairs per bucket while the map may still grow; the bucket count changes only at the threshold, and otherwise a new pair goes to the head of its bucket |
| HashMap.HashMap.FindPairForce | click-llvm-ir/dummy_inc/click/hashmap.cc:267-288 | the key's pair, made with the default value if it was missing; load bound and bucket count as for insertion |
| HashMap.HashMap.Erase | click-llvm-ir/dummy_inc/click/hashmap.cc:242-265 | map removal, and whether the key was there; the pair leaves its chain and nothing else changes |
| HashMap.CountFor | click-llvm-ir/dummy_inc/click/hashmap.cc:208-211 | the smallest sufficient bucket count of the form 2^k - 1, or the largest allowed |
| HashMap.GrownOnce | click-llvm-ir/dummy_inc/click/hashmap.cc:227-230 | growing takes 2^k - 1 buckets to 2^(k+1) - 1, up to the maximum |
| HashMap.HashMap.Resize0 | click-llvm-ir/dummy_inc/click/hashmap.cc:177-202 | relinking every pair into a new number of buckets leaves the map what it was and resets the threshold |
| HashMap.HashMap.Clear | click-llvm-ir/dummy_inc/click/hashmap.cc:290-305 | leaves the empty map |
| HashMap.HashMap.Visit | click-llvm-ir/dummy_inc/click/hashmap.cc:326-356 | walking from begin to end visits every pair once |

## Left out

- Libdivide.RecoverFailsOnAddPath: says nothing of add-path records whose magic number is at most 2^(s+1), which only divisors from 2^16 on have; there recovery can succeed by accident (`Libdivide.RecoveredByAccident`), and which of them it recovers is known only for the bucket counts (`BucketCounts.CountRecoveredIff`).
- The inline assembly and wide-type paths of limb multiplication: the generic half-word product is modelled.
- `int` overflow of `n * 32` in the printing buffer size, and of `capacity * 2` and `i * arity`: sizes are unbounded.
- 64-bit and 16-bit limbs, and the 64-bit and branch-full vector parts of libdivide.
- `BigintUnparse.UnparseClear`: bases outside 2 to 36 are outside its documented domain; the choice of letters is modelled, the String class is not.
- Graph.AdjacencyList.SetEdge: does not model the value stored with an edge, which setting an existing edge overwrites, because no modelled algorithm looks at it; nor is the matrix form of adjacency lists modelled.
- DeadOps.Function.UpdateUses: does not model the use lists of variables and the parents of blocks, which the same pass rebuilds and which the removal of operations does not read.
- DeadOpsMeaning.MeaningPreserved: operations without side effects are total functions of their arguments, the memory and the effects so far; faulting loads and undefined values are not modelled.
- Inline.Inliner.Generate: says which operations each block holds, in which order, but not what their variables are called; the source binds no callee's return value to the call's result and leaves phi sources naming the first half of a split block, so that there is no meaning of values to preserve.
- Inline.Inliner.InlineCall: does not model the mapping of arguments to the callee's parameters, for the same reason.
- Inline.Inliner.CopyOps: does not model the renaming of results, arguments and phi sources of the operations it keeps.
- Inline.Inliner.ExpandBlock: does not model the condition variables of the copied branches.
- DuplicateBbs.Program.CopyBlocks: does not model the names of the copied blocks, which nothing else reads.
- InlineElement.InlineEntry: covers entry functions whose expansion succeeds, by the exact condition `Good`, when each function to expand has one entry and one return block (`Expandable`), as the source asserts; for the others the assertions stop the pass or the block list repeats a block.
- DuplicateBbs.Program.Duplicate: assumes that each variable is defined once, as the compiler's representation intends; the order in which the blocks are copied is arbitrary.
- `fork_from_bb`, `break_select_op`, `remove_empty_bb` and `remove_unused_phi_entry`: phi sources and conditions are not fully updated, so there is no meaning to preserve.
- The packet and state passes, LLVM loading, demangling, printing of text and file access.
- Heap.PushHeap: the comparator is a fixed strict weak order on elements; a changed key is a changed element.
- Allocation failure in the hash containers, arenas, and argument aliasing: allocation of elements and buckets succeeds, and values are copied.
- Fill-`assign` of the deque, which is `resize` twice, and moves that differ from copies.
- HashContainer.HashContainer.Rehash: elements are numbers and their links a map held by the container, so two containers sharing one element's link are not modelled; the debug assertions are not executed.
- Assignment and swapping of `HashTable` and `HashMap`, which add nothing to cloning, insertion and exchange of fields, and the specialization of `HashMap` to pointers, which repeats the general one.
