# Celox analyses and passes, modelled and proved in Dafny

Celox compiles RTL designs to machine code for simulation. This project models the analyses its back ends share and
three of its code-transforming algorithms, and proves what they promise, for every graph, every event sequence and
every run:

* **Control flow.** Lengauer-Tarjan dominators with path compression, dominator-tree times, lowest common ancestors,
  dominance frontiers and the loop forest, together with the Cooper-Harvey-Kennedy iteration used to print functions.
  Dominance always means "on every path from the root"; both algorithms are proved to find the closest strict dominator.
* **SSA and MemorySSA.** Pruned SSA by liveness, iterated frontiers and renaming with an undo log; MemorySSA on top of
  it; and the clobber walker with its epochs and memo. The results are stated about runs: which definition a use reads,
  and which store a load sees last.
* **Memory dependences.** The tracker that keeps an interval map of last writers and readers per object. The closure of
  the edges it emits is the closure of all pairwise conflicts.
* **Scheduling.** The bottom-up list scheduler whose cached priorities follow every change of what is live.
* **Shift legalisation.** A value-range fixpoint over MIR, and the rewrite of shift counts it justifies, against a
  small-step semantics of a subset of MIR.
* **Wide integers.** The word-by-word emitters for integers of any number of 64-bit chunks. The model performs the
  operations a builder would emit, one Dafny operation per emitted instruction.

Loops over worklists and tables are methods with invariants, the long-lived objects (`ClobberWalker`,
`MemoryDependencyTracker`) are classes, the union-find forest and the memory-backed shifts work on arrays in place.
Tables that a single function fills are sequences it reassigns. Specifications are predicates over paths, runs, bytes
or numbers, and recursive definitions where the result is an order; they do not mention the algorithms.

## Model

| member | source | states |
|---|---|---|
| CfgErrors.ValidateEdges | crates/celox-analysis/src/cfg.rs:397-418 | no error exactly for a nonempty graph with its root and every edge target inside; an edge error names the first row that leaves the graph and its first target outside |
| Numbering.NumberBlocks | crates/celox-analysis/src/cfg.rs:444-487 | the explicit-stack numbering is a depth-first tree of exactly the reachable blocks |
| DfsTheory.SemiIsIdom | crates/celox-analysis/src/cfg.rs:514-552 | when no vertex between semidominator and `w` has a smaller semidominator, the semidominator is the closest strict dominator |
| DfsTheory.RelativeIdom | crates/celox-analysis/src/cfg.rs:514-552 | otherwise `w` has the same closest strict dominator as the vertex with the least semidominator |
| LengauerTarjan.Eval | crates/celox-analysis/src/cfg.rs:489-512 | in-place path compression keeps the forest and returns a linked ancestor of least semidominator |
| LengauerTarjan.ImmediateDominators | crates/celox-analysis/src/cfg.rs:444-553 | every reachable block but the root gets the one strict dominator that all its strict dominators dominate; others get none |
| DomTree.FromIdom | crates/celox-analysis/src/cfg.rs:69-142 | succeeds exactly for links with a parentless root and parents in range; entry and exit times nest exactly like the tree |
| Dominance.QueryIsDominance | crates/celox-analysis/src/cfg.rs:144-157 | the constant-time query on the times answers whether a block lies on every path from the root to another |
| Dominance.Lca | crates/celox-analysis/src/cfg.rs:160-182 | the answer exists exactly for two blocks of the tree, and the common ancestors of both are its ancestors |
| Frontier.DominanceFrontiers | crates/celox-analysis/src/cfg.rs:555-596 | each block's set is the textbook frontier: it dominates a predecessor of a member but not strictly the member |
| Loops.SharedNested | crates/celox-analysis/src/cfg.rs:725-773 | with true dominators, two loops that share a block are nested, so the overlap error cannot arise |
| Loops.NaturalLoops | crates/celox-analysis/src/cfg.rs:725-773 | always succeeds; each loop is its header and the blocks that reach a back-edge tail without passing it, and its parent is the smallest strictly enclosing loop |
| ControlFlow.ReversePostorder | crates/celox-analysis/src/cfg.rs:420-441 | the reverse of the order in which a recursive depth-first search finishes exactly the reachable blocks; the root leads, and a target comes after its block unless it leads back to it |
| ControlFlow.Analyze | crates/celox-analysis/src/cfg.rs:264-341 | succeeds exactly for valid graphs with every block reachable, with all tables right for the same rows without repetitions; otherwise reports exactly the unreachable blocks |
| ControlFlow.OneFirstOccurrences | crates/celox-analysis/src/cfg.rs:285-288 | dropping parallel edges leaves one possible row: the targets in the order of their first occurrence |
| SearchOrder.Search | crates/celox-analysis/src/cfg_order.rs:45-71 | the first-visit and finishing orders are those of a recursive traversal that marks blocks when it pushes them; each block finishes before the block that discovered it, and all reachable blocks finish |
| IterativeDominators.Intersect | crates/celox-analysis/src/cfg_order.rs:94-104 | the walk by numbers ends at a block whose ancestors are the common ancestors |
| IterativeDominators.PassStep | crates/celox-analysis/src/cfg_order.rs:106-127 | relinking one block keeps every true dominator up the links, keeps links along the discovery, and only moves links up |
| IterativeDominators.FixedIsDominance | crates/celox-analysis/src/cfg_order.rs:106-127 | when a pass changes nothing, the blocks up the links are exactly the dominators |
| IterativeDominators.IterateDominators | crates/celox-analysis/src/cfg_order.rs:85-127 | the passes end, with the closest strict dominator of every reachable block |
| DominanceOrder.Merges | crates/celox-analysis/src/cfg_order.rs:134-146 | a merge is a block to which several edges lead from reachable blocks, none of which it dominates |
| DominanceOrder.TreePreorder | crates/celox-analysis/src/cfg_order.rs:161-166 | the stack loop lists a block and then the whole subtree of each child in turn |
| DominanceOrder.DominanceOrder | crates/celox-analysis/src/cfg_order.rs:10-176 | a permutation of the distinct keys; without the entry the ascending keys, with it the dominator tree in preorder, merges after their siblings and the others by first visit, and then the unreachable blocks |
| OneDominanceOrder.OneOrder | crates/celox-analysis/src/cfg_order.rs:10-176 | two results for the same entry, blocks and successors are the same list |
| SiblingOrder.SubtreesInOrder | crates/celox-analysis/src/cfg_order.rs:134-159 | of two blocks with one immediate dominator, everything the one that comes first dominates precedes everything the other does; merges come last, otherwise the first visited first |
| DominanceOrder.DominatorsFirst | crates/celox-analysis/src/cfg_order.rs:5-9 | each reachable block but the entry comes after its immediate dominator |
| DominanceOrder.IndicesAreAll | crates/celox-analysis/src/cfg_order.rs:161-175 | every block occurs exactly once, and the preorder part is exactly the reachable blocks |
| SsaScan.ComputeLive | crates/celox-analysis/src/ssa.rs:195-213 | the backward worklist finds exactly the blocks from whose entry some path uses the variable before defining it |
| SsaScan.PlacePhis | crates/celox-analysis/src/ssa.rs:215-234 | phis are placed exactly where a chain of live frontier steps from a definition forces them |
| SsaSpec.PlacementIsLeast | crates/celox-analysis/src/ssa.rs:215-234 | the placement is contained in every placement closed under live frontiers |
| SsaBuild.Build | crates/celox-analysis/src/ssa.rs:139-351 | succeeds exactly for one event list per block without repeated identities, with the forced phis, the exact input per edge and the exact version per use; errors name the repeated identity's block |
| SsaSpec.UseIsReaching | crates/celox-analysis/src/ssa.rs:255-310 | without a phi at the root, every use evaluates along every path to the last definition before it |
| SsaBuild.BuiltRecordIsRight | crates/celox-analysis/src/ssa.rs:139-351 | every use on every path reads the last definition, if and only if no variable that may be read undefined from the root has a definition that flows back to the root |
| SsaBuild.RootWithoutPredecessors | crates/celox-analysis/src/ssa.rs:301-310 | a root without predecessors meets that condition for every variable |
| RootPhi.FirstReadHasNoValue | crates/celox-analysis/src/ssa.rs:301-310 | on a root that branches to itself and reads before it writes, the recorded first read has no value on the path that just entered |
| RootPhi.BuildLoop | crates/celox-analysis/src/ssa.rs:139-351 | construction accepts that function and returns such a record |
| MemoryBuild.Build | crates/celox-analysis/src/memory_ssa.rs:433-622 | succeeds exactly for distinct points and stores; every store, phi and point holds the access of the memory version there; the later lookup errors cannot arise |
| MemoryGraph.RunHasWalk | crates/celox-analysis/src/memory_ssa.rs:234-353 | every run from the root to a point has a backward walk that ends at the run's last store that may alias |
| MemoryGraph.ClobberIsLastStore | crates/celox-analysis/src/memory_ssa.rs:178-353 | if no store flows back to the root, an access met by every walk is true of every run: the last aliasing store, none at all, or a phi block passed since without one |
| MemoryConverse.ClobbersAreLastStoresIff | crates/celox-analysis/src/memory_ssa.rs:433-622 | for every oracle, run, point and answer that holds, if and only if no store flows back to the root |
| ClobberRun.StepKeeps | crates/celox-analysis/src/memory_ssa.rs:258-348 | every turn of the walk keeps the invariant that ties its stacks and memo to backward walks |
| ClobberRun.StepShrinks | crates/celox-analysis/src/memory_ssa.rs:258-348 | every turn lowers a measure, though definitions reset on a cycle may be entered again |
| ClobberRun.WalkAnswers | crates/celox-analysis/src/memory_ssa.rs:349-353 | a finished walk's access is met by every complete backward walk; a cycle means an endless chain of passed definitions |
| ClobberWalkers.ClobberWalker.FindClobber | crates/celox-analysis/src/memory_ssa.rs:234-353 | one query ends on every graph, is indeterminate exactly for an endless chain, and otherwise answers an access every walk meets; without mutual phis the memo stays right for the next query, and the answer is the last such access when every access leads to a stop |
| ClobberWalkers.ClobberWalker.Query | crates/celox-analysis/src/memory_ssa.rs:209-232 | starting a session forgets every mark, also when the 32-bit epoch wraps around |
| SharedMemo.EntangledMisses | crates/celox-analysis/src/memory_ssa.rs:206-232 | on every pair of phis that lead to each other, the inner with a single way out the outer can avoid: after a query of the outer, the inner is answered with that way out, which some walk avoids |
| SharedMemo.EntangledIsMutual | crates/celox-analysis/src/memory_ssa.rs:322-339 | such pairs are mutual phis, which the condition for right sessions excludes |
| MutualPhis.MutualIsGraph | crates/celox-analysis/src/memory_ssa.rs:433-622 | a four-block loop nest has exactly this graph of two phis that are inputs of each other |
| MutualPhis.SessionCanMiss | crates/celox-analysis/src/memory_ssa.rs:206-232 | in that graph with an aliasing store, the second query of a session answers the store although a walk reaches the initial memory without it |
| MutualPhis.FreshCanBeCoarse | crates/celox-analysis/src/memory_ssa.rs:322-339 | in that graph with a store that does not alias, a fresh query answers the outer phi although every walk meets the initial memory |
| MemoryQuery.ClobberBefore | crates/celox-analysis/src/memory_ssa.rs:196-232 | from events to answer: there always is one, every walk from the point meets it, and it is true of every run if no store flows back to the root |
| Memory.AliasIsSharedByte | crates/celox-analysis/src/memory.rs:31-49 | two effects may alias exactly when some byte belongs to both, empty ranges aside |
| RangeHistory.SplitAt | crates/celox-analysis/src/dependence.rs:58-71 | splitting changes no byte's history and leaves no segment across the point |
| RangeHistory.ReadRange | crates/celox-analysis/src/dependence.rs:73-119 | finds exactly the last writers of the range's bytes and adds the reader to exactly those bytes, filling gaps |
| RangeHistory.WriteRange | crates/celox-analysis/src/dependence.rs:121-152 | finds exactly the writers and readers of the range's bytes and replaces exactly their history |
| RangeHistory.CoalesceAround | crates/celox-analysis/src/dependence.rs:169-199 | merging equal neighbours changes no byte's history |
| DependenceSpec.ReadStep | crates/celox-analysis/src/dependence.rs:313-351 | one load keeps edges sound, memory true and every conflict ordered |
| DependenceSpec.WriteStep | crates/celox-analysis/src/dependence.rs:353-390 | one store does, through splits and the clearing of whole objects or of everything |
| Dependence.MemoryDependencyTracker.Read | crates/celox-analysis/src/dependence.rs:313-351 | the found set is exactly the writers of the bytes touched, the new state records the reader there and nothing else changes |
| Dependence.MemoryDependencyTracker.Write | crates/celox-analysis/src/dependence.rs:353-390 | the found set is exactly the writers and readers of the bytes touched, which then have this writer only |
| Dependence.MemoryDependencyTracker.AddEvent | crates/celox-analysis/src/dependence.rs:290-311 | one more event, also of a repeated instruction, keeps the run's invariant and reports no edge to itself |
| DependenceSpec.ClosureIsConflictClosure | crates/celox-analysis/src/dependence.rs:274-311 | chains of emitted edges order exactly the instructions that chains of conflicts order |
| DependenceSpec.ConflictIsAlias | crates/celox-analysis/src/memory.rs:29-49 | events without empty ranges conflict exactly when two of their effects may alias, one of them a write |
| DagQueue.Validate | crates/celox-analysis/src/dag_schedule.rs:298-322 | accepts exactly graphs with ascending rows in range, and value edges among the hard edges; otherwise the error is a fault the graph has, with its node |
| DagQueue.TopologicalOrder | crates/celox-analysis/src/dag_schedule.rs:575-606 | finds a cycle exactly when there is one, otherwise a topological permutation with entry depths |
| DagQueue.ExitDepths | crates/celox-analysis/src/dag_schedule.rs:371-380 | one backward sweep gives every node one more than its deepest user |
| DagCache.InsertReady | crates/celox-analysis/src/dag_schedule.rs:608-674 | a node enters the queue under its priority; all cached priorities stay current |
| DagCache.SetLive | crates/celox-analysis/src/dag_schedule.rs:728-760 | after a value starts or stops being live, the adjusted priorities equal the recomputed ones |
| DagCache.UseToken | crates/celox-analysis/src/dag_schedule.rs:450-490 | after a token loses a user, the adjusted priorities equal the recomputed ones, in every case of how many users are left |
| DagSpec.DeltaIsChange | crates/celox-analysis/src/dag_schedule.rs:627-659 | the priority of a ready node is exactly the change of weighted pressure its turn brings |
| DagSchedule.Select | crates/celox-analysis/src/dag_schedule.rs:412-513 | one selection brings liveness, token counts, ready nodes and every cached priority to the next scheduled set |
| DagSchedule.Schedule | crates/celox-analysis/src/dag_schedule.rs:226-263 | an order exactly for well-formed acyclic graphs, a cycle error exactly for well-formed cyclic ones; the order is a topological permutation, and bottom up no ready node would change weighted pressure less than the one taken, then have greater exit depth, entry depth or number |
| DagSchedule.GreedyIsUnique | crates/celox-analysis/src/dag_schedule.rs:207-211 | the greedy rule determines the schedule |
| DagSchedule.DeltasCancel | crates/celox-analysis/src/dag_schedule.rs:411-520 | over a complete schedule the selected priorities add up to zero |
| DagSchedule.DepthBounds | crates/celox-analysis/src/dag_schedule.rs:371-380 | no chain from a node is longer than its depth |
| DagSchedule.DepthReached | crates/celox-analysis/src/dag_schedule.rs:371-380 | some chain from a node is as long as its depth |
| Words.EnclosingLowMask | crates/celox-backend-arm64/src/mir_legalize.rs:249-255 | the smallest number of ones only that is at least the value |
| MirBounds.BoundSound | crates/celox-backend-arm64/src/mir_legalize.rs:127-246 | if the bounds hold for an instruction's operands, the inferred bound holds for its result |
| MirFixpoint.ValueUpperBounds | crates/celox-backend-arm64/src/mir_legalize.rs:111-247 | the iteration ends; every bound is justified, a register has a bound exactly when its operation gives one and it is that number, and no other such bounds are looser |
| MirTrace.OneLoosest | crates/celox-backend-arm64/src/mir_legalize.rs:111-247 | with 32-bit results inside the low half, the bounds are determined: two such results are the same |
| MirPrecision.BoundReached | crates/celox-backend-arm64/src/mir_legalize.rs:127-246 | for constants, copies, loads, conjunctions, sums, products and constant shifts, operands within their bounds reach the bound |
| MirPrecision.MaskReachedIff | crates/celox-backend-arm64/src/mir_legalize.rs:144-146 | a masked value reaches its bound exactly when the mask is within the operand's bound or keeps all its bits |
| MirPrecision.LowMeetReachedIff | crates/celox-backend-arm64/src/mir_legalize.rs:160-164 | the 32-bit conjunction reaches its bound exactly when the bound is within the low half |
| MirPrecision.LowJoinUnreached | crates/celox-backend-arm64/src/mir_legalize.rs:165-172 | a bound of a 32-bit join beyond the low half is never reached |
| MirFixpoint.BoundsHoldInRuns | crates/celox-backend-arm64/src/mir_legalize.rs:111-247 | every bound holds for its register in every run, around loops and through phis |
| MirLegalize.GuardValue | crates/celox-backend-arm64/src/mir_legalize.rs:40-100 | selecting between the machine's wrapping shift and zero, or the sign, computes the shift that does not wrap |
| MirLegalize.Legalize | crates/celox-backend-arm64/src/mir_legalize.rs:13-109 | phis stay and instructions are rewritten under justified bounds that are the operations' own and the loosest, with temporaries no original register uses and one spill description each |
| MirShape.OpenShape | crates/celox-backend-arm64/src/mir_legalize.rs:43-104 | a variable shift whose count has no bound below 64 becomes raw shift, fill and choice, in two new temporaries with their spill records |
| MirShape.OtherShape | crates/celox-backend-arm64/src/mir_legalize.rs:43-58 | every other instruction stands unchanged, two places later for each such shift before it |
| MirShape.BlockShape | crates/celox-backend-arm64/src/mir_legalize.rs:21-42 | nothing else is added, and a block without such a shift is returned as it was |
| MirShape.FunctionShape | crates/celox-backend-arm64/src/mir_legalize.rs:13-109 | two registers are added for each such shift and the records of the others stay |
| MirSsa.LegalizedIsSsa | crates/celox-backend-arm64/src/mir_legalize.rs:43-109 | the temporaries of all blocks are different: the result is well-formed and defines every register once |
| MirLegalize.LegalizedRunsAlike | crates/celox-backend-arm64/src/mir_legalize.rs:13-109 | for every memory and number of blocks run, the legalised function on modulo-64 shifts stores and computes what the original does |
| WideArith.WideAdd | crates/celox-backend-cranelift/src/wide_ops.rs:293-324 | the carry chain is the sum modulo the chunks |
| WideArith.WideSub | crates/celox-backend-cranelift/src/wide_ops.rs:326-357 | the borrow chain is the difference modulo the chunks |
| WideArith.WideNegate | crates/celox-backend-cranelift/src/wide_ops.rs:975-1004 | complement and carry is the negative modulo the chunks |
| WideArith.MultiplyStep | crates/celox-backend-cranelift/src/wide_ops.rs:499-510 | product, accumulator and carry make two words: the new carry never overflows |
| WideArith.WideMul | crates/celox-backend-cranelift/src/wide_ops.rs:481-514 | the schoolbook loop is the product modulo the chunks, for any number of them |
| WideCompare.UnsignedCompare | crates/celox-backend-cranelift/src/wide_ops.rs:419-479 | the flag word is the comparison of the numbers, except that not-equal yields 254 or 255 |
| WideCompare.NotEqualInBitZero | crates/celox-backend-cranelift/src/wide_ops.rs:438-439 | only the lowest bit of not-equal is the answer: the word is never 0 or 1 |
| WideCompare.SignedCompare | crates/celox-backend-cranelift/src/wide_ops.rs:700-766 | the signed comparison at the operation width, and what happens when top chunks differ in padding alone |
| WideDiv.NoOverflow | crates/celox-backend-cranelift/src/wide_ops.rs:816-831 | the remainder is at most the dividend's prefix, so doubling it never leaves the chunks |
| WideDiv.Divide | crates/celox-backend-cranelift/src/wide_ops.rs:798-877 | dividend is divisor times quotient plus remainder, and the remainder is below a nonzero divisor |
| WideDivRem.SignExtend | crates/celox-backend-cranelift/src/wide_ops.rs:924-954 | the chunks become the signed number at any declared width, modulo the chunks |
| WideDivRem.DivRem | crates/celox-backend-cranelift/src/wide_ops.rs:768-911 | quotient and remainder truncated toward zero, zero for a zero divisor, modulo two to the operation width |
| WideDivRem.TruncSplits | crates/celox-backend-cranelift/src/wide_ops.rs:886-891 | truncating quotient and remainder recompose the dividend, and the remainder follows its sign |
| WideShift.RightMeaning | crates/celox-backend-cranelift/src/wide_ops.rs:401-406 | the joined words are floor division by two to the amount, for every amount |
| WideShift.LeftMeaning | crates/celox-backend-cranelift/src/wide_ops.rs:407-413 | the joined words are multiplication by two to the amount modulo the chunks, for every amount |
| WideShift.ShiftRegisters | crates/celox-backend-cranelift/src/wide_ops.rs:359-417 | the select chains compute that shift by the amount in the lowest chunk |
| WideShift.ShiftMemory | crates/celox-backend-cranelift/src/wide_ops.rs:576-647 | the indexed loads write the same chunks to separate memory and nothing beyond them |
| WideShift.SarRegisters | crates/celox-backend-cranelift/src/wide_ops.rs:516-568 | floor division of the number whose chunks above the top repeat the logical sign |
| WideShift.SarMemory | crates/celox-backend-cranelift/src/wide_ops.rs:652-698 | the same for memory, with the loads out of range reading the sign |
| WideShift.SarIsSignedShift | crates/celox-backend-cranelift/src/wide_ops.rs:531-539 | that is the signed shift of the logical number for every amount, if and only if every padding bit repeats the sign |

## Findings

What the code does not promise, each with its condition and an input:

* **A phi at the root** (ssa.rs:301-310) has inputs for predecessors only. The reaching-definition theorem holds if and
  only if no variable that may be read undefined from the root has a definition that flows back there
  (`SsaBuild.BuiltRecordIsRight`); `RootPhi.FirstReadHasNoValue` shows a one-block function on which it fails. The same
  defect reaches MemorySSA, and the same condition, for stores, is exact there (`MemoryConverse.ClobbersAreLastStoresIff`).
* **A session's memo** (memory_ssa.rs:322-339) may keep a premature answer of a phi resolved below another that is
  still open. Sessions are right when no two phis lead to each other (`FindClobber`); they are wrong on every entangled
  pair (`SharedMemo.EntangledMisses`), and `MutualPhis.SessionCanMiss` shows a four-block loop nest. Between the two
  lie mutual phis whose exits agree, or whose inner phi has several exits. There the marks a query leaves depend on
  the order in which it takes phi inputs and on which accesses were asked for before, so the exact condition would
  have to replay the walk; none is given.
* **A fresh query may stop short**: it may answer a phi although an access further back is on every walk
  (`MutualPhis.FreshCanBeCoarse`). It answers the last mandatory access when no two phis lead to each other and every
  access leads to the initial memory or an aliasing store.
* **Wide not-equal** (wide_ops.rs:438) complements a byte flag, so its word is 254 or 255; only bit zero is the answer.
* **Signed comparison** (wide_ops.rs:717-757) tests raw chunks for equality. Operands whose top chunks differ above the
  sign bit alone compare as neither less nor greater nor equal, whatever the lower chunks hold.
* **Arithmetic right shift** (wide_ops.rs:531-539) takes the fill from the logical sign but shifts the padding as it is;
  it is the signed shift if and only if the padding repeats the sign.
* **Bounds of 32-bit and, or and exclusive or** (mir_legalize.rs:160-172) count unbounded operands as 32-bit, but operands
  with larger bounds at those: two 64-bit loads give 2^64 - 1, which no result reaches (`MirPrecision.LowMeetReachedIff`,
  `LowJoinUnreached`). Less knowledge then gives the tighter bound, so the bound kept may depend on the order of visits;
  the law for these operations (`MirLaws.Near`) fixes it when it is within the low half and brackets it otherwise.
* **Empty ranges**: `effects_may_alias` may report an empty range inside another one, the tracker ignores empty ranges
  (dependence.rs:73-77). The tracker is proved against shared bytes; for events without empty ranges both agree.

## Left out

* Post-dominators, strongly connected regions and control dependence (cfg.rs:186-212, 598-723).
* Hash maps, ordered maps and ordered sets become Dafny maps, sets and sequences; library sorts become insertion. A
  missing index, `usize::MAX` in the source, is -1 or `None`. Identities are natural numbers. The `SsaCfg` trait is one
  record. In cfg_order.rs the entry's own link to itself is an absent link.
* Machine-integer overflow of counters, depths, pressures and register numbers, and the errors that report it
  (dag_schedule.rs:24-35, memory_ssa.rs:624-634). Epochs wrap around as in the source.
* The mapped rows of the scheduler (dag_schedule.rs:131-205, 265-296, 324-351).
* `RangeMemoryHistory` and `MemoryObjectHistory` are values that the tracker class reassigns, not objects of their own.
* MIR is a subset with one representative per class: moves, immediates, 64- and 32-bit arithmetic, masks, shifts,
  comparisons, selects, loads, stores, branches and phis. Loaded values are an arbitrary function of the stores done.
  Immediate shift counts are below 64.
* MirLegalize.LegalizedRunsAlike: says nothing about runs in which the original reads a register it never wrote.
* ClobberWalkers.ClobberWalker.FindClobber: the right-session and last-access clauses need the conditions given above.
* WideDivRem.DivRem: operation width, chunk count and operand widths are related as the translator computes them
  (translator/arith.rs:305 and 685); a chunk sequence holds 64-bit words, so the single 128-bit value is not modelled.
* Bitwise operations, reductions, bit counts and four-state masks of wide_ops.rs, which are chunk-wise.
* `tail_call_split.rs`, `mir_opt.rs`, both register allocators and `sparse_write_state.rs`.
