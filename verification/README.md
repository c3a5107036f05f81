# Verified model of the compiler's decision procedures

A Dafny model of the algorithms in this GPU-kernel compiler that decide things: whether asynchronous copies may share a completion slot, where a buffer goes in the heap, what an interval proves about a symbol, what a compile-time condition is worth, which thread owns which element. `dafny verify dfyconfig.toml` checks the whole project.

## What is modelled

**DMA completion.** `Programs` gives structured programs (sequences, branches, loops, break, continue, return, in-threads blocks, unfinished runs) a meaning as sets of traces. `ControlFlow` builds the control-flow graph as the source does and proves that its paths are exactly those traces. `DmaModel` says what really happens on a run: handles are bound to contexts, rotations permute the bindings, an issue puts a transfer in flight, a wait completes it, reusing a busy context loses the transfer that was there. `DmaFacts` has the abstract state (pending, must-pending, outstanding transfers, initialised buffers) and `DmaPrecision` the proof that a statement leaves the sharpest facts there are and that a join is the least one; `DmaCertificate` says what a finished table guarantees about a run and that it is the least solution, `DmaAnalysis` the worklist itself with its termination measure, and `DmaCompletion` the theorem about the report: a device is analysed exactly when its checks pass, no run leaves the modelled protocol and no more than 32768 points and bindings are reached; the table covers every run and holds nothing but what some run shows, findings (their statements and reasons too), conflicts and the bound are exact, the buffer findings are those of the least solution, races with transfers in flight are all reported, when nothing is misused every reported race is real, and where in addition paths to one point agree, reads are reported exactly if a run makes them uninitialised. `CompletionSlots` joins this with the allocator: contexts that ever hold transfers at the same moment never get the same slot, and each gets the least slot that is free of those it interferes with.

**Heap.** `HeapSimulator` is the interference-graph allocator, proved against a reference description of best fit (the least aligned offset clear of every interfering chunk placed before, in the order of sizes and names), with interference stated by common live statements, disjointness, tightness and the bound by the sum of aligned sizes. `UnionFind` and `HeapRoots` are the partition into independent roots, which reach exactly from the first to the last byte of their chunks, including the assertion at its end. `Sorting` stands for `std::sort`.

**Intervals.** `Intervals` is the canonical set representation and its algebra, exact over all integers; `IntervalReasoning` is interval arithmetic and the three-valued predicate evaluator, both exact for all expressions when every occurrence of a symbol is chosen on its own and products are rounded up to ranges, the projection of a predicate onto one symbol with the exact conditions under which a projected comparison or its negation can be trusted, and the prover that puts them together.

**Compile-time conditions.** `ConstexprParser` is the recursive-descent evaluator, as functions of text and position and as the object that moves `pos` and `error`. `ConstexprTrees` proves that the text of any expression tree, with any blank space before every token and parentheses wherever they are needed or wanted, evaluates to the short-circuit checked 64-bit meaning of the tree, and that skipping agrees with running on any text; `ConstexprGrammar` proves the converse, that a text has a value only if it is such a tree. `TextScanning` and `ConstexprFolding` are comment and literal skipping, bracket matching, and the folding of `static_assert` and `if constexpr`, whose conditionals are related to chains of arms joined by `else`. `ConstexprAssertions` and `ConstexprBranches` say what becomes of an assertion and of a conditional whose condition is the text of a tree: it folds exactly as the meaning of the tree demands. `ScanningLaws` describes comments, literals and keywords by their text. `ConstexprValues` holds characters, tokens, literals and checked arithmetic, and `ConstexprLaws` the laws that determine them without computing them.

**Smaller cores.** `FragmentLayouts` (which thread and register hold an element, and how row reductions walk them), `Contiguity` (when a block of a tensor is one interval of memory), `ParallelVariables` and `ActiveThreads` (what a parallel variable is worth in a thread, and thread masks over a nest of parallel and in-threads blocks), `MmaWaits`, `MmaNotes` and `MmaRuns` (wait depths for asynchronous matrix operations, what they say about the text, and the runs of programs with branches and loops that carry them), `Resolution` (storage behind a name, and closure over several relations), `EditDistance`. `Basics` and `Arithmetic` are shared by the others.

## Results that go against the code

- A projected comparison whose bound is a symbol with a known interval is sound exactly when it is written with `<` or `<=`, or the projected symbol stands on the right and the bound has a single value (`AtomIsSoundIffTrusted`); otherwise an admitted assignment satisfies the predicate and is excluded (`UntrustedAtomLies`). A negated comparison that puts no limit on the symbol excludes every value of it (`NegatedForeignAtomExcludesAll`), so projecting a negation is sound exactly when the opposite comparison can be trusted, or, where there is no limit, when nothing satisfies the negation (`NegatedAtomIsSoundIff`), which for comparisons that name nothing twice is when evaluation over intervals already finds the comparison true (`NegatedAtomIsDecided`); `NOT (y < 3)` projected onto `x` is a failing input (`NegationLosesWorld`).
- The prover inherits this. Under a scope that is one comparison its answers are right, for all declared bounds and all questions about given symbols, exactly when the comparison is written with `<` or `<=` or bounds no symbol by one taken before it (`ComparisonScopeIsRightIff`). The symbols come from a set ordered by address, and in every order the answers are right exactly when the comparison is written with `<` or `<=` or is not between a symbol and another one shifted by numbers (`RightInAnyOrderIff`). Otherwise a question about all the symbols is answered with false though it is true in a world in scope (`UnsafeScopeMisleads`): with `n` declared as 0 or 1 and taken first, the scope `x >= n` makes `n == 1 && x == 1` false (`ProvesTooMuch`).
- The thread-mask analysis takes every dimension of a parallel to run as fast as the last one. It has the value of a bounded parallel variable right in every thread exactly when the variable has one value, the block has one unit, or the inner extents multiply to 1 and the lanes of an enforced group fit the bound (`RightIffFlat`, `RightAboutVariableIffFlat`); under `parallel {x, y} by [4, 8] : thread` it takes thread 1 to have `x == 1`, while `x` is 0 there (`FirstDimensionIsWrong`). Verdicts and masks are right for predicates over such variables.
- Wait notes for matrix operations are made in the order of the text. They are enough on every run when no conditional body changes what is noted of the futures issued before it (`WaitsComplete`); where a branch, a loop or an in-threads block retires such a future, hardware that heeds the notes may leave it running on the runs that pass the statement without entering the body (`SkippedBodyLosesFuture`). Every conditional body opens a scope of its own (lib/visitor.hpp:512-553) and so issues to queues of its own, and then retiring is the only disturbance there is (`OwnScopesDisturbIffRetire`). The smallest case is two issues, `if (c) { wait second; }`, `wait first;` (`FirstFutureIsLost`).
- The register formula of a vector reduced from a uniform tile undoes its row formula exactly for one register of up to eight rows, or two registers of eight (`ReducedIndexInvertsIff`).
- The contiguity test puts 2 for a nil extent. Its answer true is right, whatever the nil extents turn out to be, exactly when every dimension inside the outermost one that can exceed 1 has the same extent, or nil, in block and array, or extent 1 in the array; its answer false is right exactly when no dimension, outside which the block extents are all 1 or nil, has inside it only dimensions whose extents in block and array are equal where both are known (`AnswerIsRightIff`, with `SurelyFull` and `PossiblyFull`). Where the stand-ins make a block of an array, the first condition is that nil stands against nil in those dimensions (`TrueAnswerIsRightIff`). A block of 2 in a nil extent passes for whole (`NilPassesForWhole`), so does a nil extent of the block in an extent of 2 (`NilBlockPassesForWhole`), and a nil extent that turns out to be 1 is reported as a gap (`NilHidesOne`). The only call of the test is switched off with `#if 0` (lib/semacheck.cpp:1634).
- The thread count returns to its old value after every visit exactly when it was known or no thread-level parallel is open; below a thread-level parallel of unknown bound it leaks from one nested parallel to the next (`DimReturnsIff`).
- The row formula of a replicated vector made from an accumulator is right exactly for register 0 (`ReplicatedRowIsRightIffFirst`).
- The rows named by the destination of a uniform row reduction are the rows reduced exactly when one of columns and threads divides the other (`ReducedRowsAgreeIffDividing`).
- A uniform tile fills every register of every thread exactly when the threads divide it evenly (`UniformIsBijectiveIffEven`).

## Model

| member | source | states |
|---|---|---|
| ControlFlow.Builder.Build | lib/dma_completion_analysis.cpp:247-275 | the nodes added for a statement form its fragment of the graph, the earlier nodes are unchanged, and every new node has a successor |
| ControlFlow.BuildGraph | lib/dma_completion_analysis.cpp:237-276 | the whole graph is the fragment of the device body over the single exit node 0 |
| ControlFlow.GraphIsExact | lib/dma_completion_analysis.cpp:247-276 | a trace is a run of the program if and only if it is the trace of a path from the entry, and a finished run if and only if such a path ends at node 0 |
| ControlFlow.PathIsRun | lib/dma_completion_analysis.cpp:247-276 | every path from the entry is a run, finished when it ends at the exit |
| DmaModel.RotationKeepsPermutation | lib/dma_completion_analysis.cpp:385-395 | any rotate list, with duplicates too, maps a permutation of contexts to a permutation |
| DmaModel.RotationIsCyclicShift | lib/dma_completion_analysis.cpp:390-395 | on distinct handles a rotation moves each binding one handle forward, the first to the last, and leaves all other handles alone |
| DmaModel.HandlesSpell | lib/dma_completion_analysis.cpp:380-384 | the handles of an action spell the known ones among its names, in order |
| DmaModel.ReusedIs | lib/dma_completion_analysis.cpp:398-407 | a context is reused by exactly the transfers and placeholders whose name denotes it at that moment |
| DmaModel.EscapesIff | lib/dma_completion_analysis.cpp:385-406 | exactly the rotations that name a foreign context and the declarations whose handle denotes another context than its own have no model |
| DmaModel.FilledIff | lib/dma_completion_analysis.cpp:355-359 | a transfer fills exactly the buffers one of its accesses writes as a whole |
| DmaModel.LastAllocationDecides | lib/dma_completion_analysis.cpp:339-343 | a buffer is initialised after some accesses if and only if its last allocation among them initialises it, or it was initialised before and is not allocated anew |
| DmaModel.VisibleIffActive | lib/dma_completion_analysis.cpp:274 | exactly the statements with an action or an access have a node |
| DmaFacts.StepCovers | lib/dma_completion_analysis.cpp:321-427 | if the facts cover the state before a statement, the transformed facts cover the state after it |
| DmaFacts.TransferOk | lib/dma_completion_analysis.cpp:350-427 | a statement keeps must-pending within pending, transfers empty exactly where nothing is pending, and the binding a permutation |
| DmaFacts.PendingIsReal | lib/dma_completion_analysis.cpp:396-426 | a context marked pending after a statement is pending there on every run on which its pending mark before was true |
| DmaFacts.TransferIsReal | lib/dma_completion_analysis.cpp:396-426 | an outstanding transfer recorded after a statement is in flight there on every run on which its record before was true, unless a transfer has been lost |
| DmaPrecision.TransferIsBest | lib/dma_completion_analysis.cpp:321-427 | unless the statement reuses a context that may be busy, the facts after it are the sharpest there are: a context is pending, must be pending, has a transfer outstanding or a buffer is initialised if and only if it is so after the statement in some, all, some or all states without a lost transfer that the facts before cover |
| DmaPrecision.TransferMonotone | lib/dma_completion_analysis.cpp:321-427 | lower facts before a statement leave lower facts after it, under the same binding |
| DmaPrecision.FactsOfStep | lib/dma_completion_analysis.cpp:321-427 | a statement that loses no transfer takes facts that say all about one state to facts that say all about the next |
| DmaFacts.MergeCovers | lib/dma_completion_analysis.cpp:436-461 | a join is above both facts and keeps the order between must-pending, pending and transfers |
| DmaPrecision.MergeIsLeast | lib/dma_completion_analysis.cpp:436-461 | a join lies below exactly the facts that lie above both |
| DmaFacts.SlackBounds | lib/dma_completion_analysis.cpp:436-462 | facts that rise and change use up a non-negative amount of slack |
| DmaAnalysis.TotalSlackDrops | lib/dma_completion_analysis.cpp:311-464 | raising one entry of the table lowers the termination measure of the worklist |
| DmaCertificate.WitnessStep | lib/dma_completion_analysis.cpp:321-463 | pending marks handed to a successor are each shown by a path that reaches it |
| DmaCertificate.TraceStep | lib/dma_completion_analysis.cpp:321-463 | outstanding transfers handed to a successor are each shown by a path that reaches it |
| DmaCertificate.HopCovered | lib/dma_completion_analysis.cpp:311-464 | one step of a run from a covered state leads to a covered state, with everything in flight in the middle of the step accounted for in the report |
| DmaCertificate.PathCovered | lib/dma_completion_analysis.cpp:311-464 | a certified table covers the state at the end of every path from the entry |
| DmaCertificate.CertifiedIsLeast | lib/dma_completion_analysis.cpp:285-464 | the final table holds at the entry and is carried over by every statement, and lies below every table that is so |
| DmaAnalysis.IntersectWritten | lib/dma_completion_analysis.cpp:351-370 | the loop over outstanding issues computes the buffers that all of them fill |
| DmaAnalysis.CompleteContext | lib/dma_completion_analysis.cpp:350-376 | completing a context clears its three facts and adds the buffers every possible issue fills, if some issue must be outstanding; TransferIsBest says that these are the buffers a wait initialises in every state |
| DmaAnalysis.RotateHandles | lib/dma_completion_analysis.cpp:390-395 | the in-place rotation loop computes the rotation |
| DmaAnalysis.Occupy | lib/dma_completion_analysis.cpp:407-425 | putting a context to a new use transforms its facts as the specification says, for asynchronous, synchronous and placeholder uses |
| DmaAnalysis.MergeInto | lib/dma_completion_analysis.cpp:436-461 | the three merge loops compute the join and report a change exactly when there is one |
| DmaAnalysis.Analysis.Diagnose | lib/dma_completion_analysis.cpp:302-310 | a finding is recorded once and its context becomes suspect |
| DmaAnalysis.Analysis.LeaveDevice | lib/dma_completion_analysis.cpp:316-320 | at the exit every context that may be pending becomes a finding, and nothing else changes |
| DmaAnalysis.Analysis.Inspect | lib/dma_completion_analysis.cpp:322-349 | every clash of an access with an outstanding transfer and every unproved local read is recorded, and the initialised set is updated access by access |
| DmaAnalysis.Analysis.Reuse | lib/dma_completion_analysis.cpp:407-416 | reuse of a pending context is diagnosed; an issue adds its conflicts and raises the bound to the demand |
| DmaAnalysis.Analysis.Execute | lib/dma_completion_analysis.cpp:321-427 | one statement is executed on facts as specified, and it is given up exactly when it leaves the modelled protocol |
| DmaAnalysis.Analysis.Propagate | lib/dma_completion_analysis.cpp:429-462 | arriving facts are merged, a changed key is scheduled again, and the budget fails exactly at the partition limit |
| DmaAnalysis.ReceivedRises | lib/dma_completion_analysis.cpp:429-462 | receiving facts only raises the table and lowers the measure unless nothing changes |
| DmaAnalysis.Analysis.Solve | lib/dma_completion_analysis.cpp:311-465 | the worklist terminates; when it is not given up its table is a post-fixed point on every edge that certifies the report, every buffer finding and the bound are demanded by facts every solution has, and it is given up only when some run leaves the protocol or more keys are reached than the limit, with the reason that belongs to it |
| DmaCompletion.TableIsExact | lib/dma_completion_analysis.cpp:289-464 | the keys of the final table are exactly the points and bindings some path reaches, pending marks exactly the contexts some such path leaves in flight, and must-pending holds on all of them |
| DmaCompletion.FindingsProved | lib/dma_completion_analysis.cpp:302-320 | a context has a finding if and only if some run reuses it while a transfer is in flight there or ends with one, and the findings are, each once, the statements that reuse it so on some run and the contexts some run ends with |
| DmaCompletion.ConflictsProved | lib/dma_completion_analysis.cpp:410-416 | two contexts conflict if and only if some run has both in flight or misuses one of them |
| DmaCompletion.BuffersProved | lib/dma_completion_analysis.cpp:322-376 | every race of an access with a transfer in flight is reported on every run, and, when no context is misused, every local read of a buffer nothing has initialised |
| DmaCompletion.RacesProved | lib/dma_completion_analysis.cpp:322-338 | when no context is misused, every reported race happens on some run |
| DmaCompletion.BufferFindingsProved | lib/dma_completion_analysis.cpp:322-349 | the buffer findings are exactly those of the least table that holds at the entry and is carried over by every statement |
| DmaCompletion.ReadsProved | lib/dma_completion_analysis.cpp:344-376 | when no context is misused and paths that lead to one point and binding leave everything in one state, a read is reported if and only if some run reads a buffer that nothing has initialised |
| DmaCompletion.BoundProved | lib/dma_completion_analysis.cpp:414-416 | the bound is the largest number of contexts that may hold a transfer where one is issued, counted over all paths to that point and binding |
| DmaCompletion.WaitMakesReadSafe | lib/dma_completion_analysis.cpp:344-376 | a transfer fills a buffer: a read of it before the wait races and finds it not initialised, after the wait neither |
| DmaCompletion.ClashesOf | lib/dma_completion_analysis.cpp:327-331 | accesses clash if and only if they are of one buffer and one of them writes |
| DmaCompletion.AddSuspects | lib/dma_completion_analysis.cpp:470-473 | the final conflicts are the old ones and every pair with a suspect context |
| DmaCompletion.Precheck | lib/dma_completion_analysis.cpp:176-186 | the analysis may run if and only if no fallback was found before, participants have one level, and a participant-local device with contexts has one scope at thread level |
| DmaCompletion.AnalyzeFlow | lib/dma_completion_analysis.cpp:237-474 | the fixed point is completed if and only if no run executes a statement without a model and no more than 32768 points and bindings are reached, and then its report is exact: findings, conflicts and bound by runs, buffer findings by the least solution, and reads by runs where paths agree and nothing is misused |
| DmaCompletion.KeysFit | lib/dma_completion_analysis.cpp:285-434 | a certified table within the limit has an entry for every key some path reaches |
| DmaAnalysis.EscapeHappens | lib/dma_completion_analysis.cpp:377-406 | a statement without a model at a recorded key is come to by some run that has kept to the protocol so far, as the same kind of escape |
| DmaCompletion.Analyze | lib/dma_completion_analysis.cpp:176-474 | contexts that may share a slot never hold transfers at one moment of any run, whatever the outcome; a device is analysed if and only if the checks pass, no foreign context is named, no run leaves the protocol and the limit is kept, and then findings, conflicts and the bound are exact, no run has more transfers in flight than the bound or, without findings, loses one, races with transfers in flight are all reported and none is false when nothing is misused, the buffer findings are those of the least solution, and reads are exact where paths agree and nothing is misused |
| CompletionSlots.AllocateCompletions | lib/resource_allocator.cpp:156-182 | on every run contexts that hold transfers at the same moment are in different slots of the plan, each context has, in the order of names, the least slot not taken by one it interferes with, and there are no more slots than that; a device is analysed if and only if the checks pass, no run leaves the protocol and the limit is kept, and then it has a plan; a plan is missing exactly after a fallback that is not dedicated, which means failed checks or a run that rotates across families; after a dedicated one, which means a run that declares a rotated context again or too many keys, every context has a slot of its own |
| CompletionSlots.SlotsFromAllocation | lib/resource_allocator.cpp:171-179 | a report under which sharing is safe and an allocation that respects its interference give safe slots |
| CompletionSlots.AllSlotsDiffer | lib/resource_allocator.cpp:171-179 | contexts that all interfere all get slots of their own |
| CompletionSlots.SlotIsLeast | lib/resource_allocator.cpp:171-179 | every slot below that of a context is held by one with an earlier name that interferes with it |
| CompletionSlots.OneSlotSuffices | lib/resource_allocator.cpp:171-179 | contexts of which no two interfere share one slot |
| Sorting.SortSorts | lib/heap_simulator.hpp:96-101 | sorting by a comparison yields an ordered sequence |
| HeapSimulator.Interfere | lib/heap_simulator.hpp:34-44 | the two-pointer sweep answers whether some two ranges overlap |
| HeapSimulator.OverlapIffLiveTogether | lib/heap_simulator.hpp:34-44 | ranges overlap if and only if both chunks are live at some statement |
| HeapSimulator.AlignUpIsLeast | lib/heap_simulator.hpp:317-320 | aligning up gives the least aligned number not below its argument |
| HeapSimulator.PlacedBeforeIsComparison | lib/heap_simulator.hpp:95-101 | the placement order is a strict weak order |
| HeapSimulator.StringLessIffDiffers | lib/heap_simulator.hpp:95-101 | names are compared as in a dictionary: by the first character that differs, and a prefix comes first |
| HeapSimulator.TiesGoByName | lib/heap_simulator.hpp:95-101 | chunks of one size are placed in the order of their names |
| HeapSimulator.BuildInterference | lib/heap_simulator.hpp:103-128 | the matrix is symmetric and says for every pair what ranges, overrides and the explicit relation say |
| HeapSimulator.MergeSpans | lib/heap_simulator.hpp:153-169 | merged ranges are separated, cover the same bytes and end where some range ended |
| HeapSimulator.FindPosition | lib/heap_simulator.hpp:171-189 | the scan always finds a position, the least aligned one clear of all ranges |
| HeapSimulator.Forbidden | lib/heap_simulator.hpp:138-148 | the collected ranges forbid exactly the positions that overlap an earlier interfering chunk |
| HeapSimulator.Place | lib/heap_simulator.hpp:135-210 | the chunk gets a best-fit position, and the failure branch is not taken |
| HeapSimulator.GlobalDecreasingSizeBestFitAllocate | lib/heap_simulator.hpp:85-216 | chunks in decreasing size, and those of one size by name, each have the least aligned offset apart from the earlier chunks they interfere with, in a heap exactly as large as its last byte needs and never above the sum of aligned sizes |
| HeapSimulator.InterferingChunksAreApart | lib/heap_simulator.hpp:49-52 | any two interfering chunks of an allocation occupy disjoint byte ranges |
| HeapSimulator.LiveChunksAreApart | lib/heap_simulator.hpp:49-52 | without callbacks, chunks that are live at one statement occupy disjoint byte ranges |
| HeapSimulator.LoneChunkStartsHeap | lib/heap_simulator.hpp:171-189 | a chunk that interferes with no other lies at offset 0 |
| HeapSimulator.StackedHeap | lib/heap_simulator.hpp:85-216 | when all chunks interfere and alignment is 0 the heap is exactly the sum of the sizes |
| HeapSimulator.AllocateInterference | lib/heap_simulator.hpp:225-232 | allocation under an explicit relation is an allocation with that relation as interference |
| UnionFind.Forest.Find | lib/heap_simulator.hpp:242-251 | returns the representative of the class, and path compression changes no class |
| UnionFind.Forest.Unite | lib/heap_simulator.hpp:252-256 | joins exactly the two classes |
| UnionFind.CompressionKeepsForest | lib/heap_simulator.hpp:245-249 | pointing a node at its representative keeps the forest acyclic with the same classes |
| HeapRoots.FindClasses | lib/heap_simulator.hpp:258-266 | two chunks end in one class if and only if a chain of overlapping chunks connects them |
| HeapRoots.TouchIffSharesByte | lib/heap_simulator.hpp:264 | chunks that are not empty overlap if and only if they have a byte in common, and an empty one overlaps what lies around it |
| HeapRoots.HullsAreApart | lib/heap_simulator.hpp:268-291 | the hulls of different components share no byte |
| HeapRoots.CollectComponents | lib/heap_simulator.hpp:268-284 | each class gets one component, from its first to its last byte |
| HeapRoots.NumberRoots | lib/heap_simulator.hpp:293-302 | roots are numbered in order of position with aligned sizes that sum to the new heap size, which is at most the aligned end of the last component if components begin aligned |
| HeapRoots.Rebase | lib/heap_simulator.hpp:304-310 | every chunk gets the number of its component and its offset within it |
| HeapRoots.AllocationIsUsable | lib/heap_simulator.hpp:202-216 | an allocation has an aligned offset for every chunk and every chunk ends within the heap |
| HeapRoots.PartitionAllocationRoots | lib/heap_simulator.hpp:234-314 | chunks share a root if and only if a chain of overlaps connects them, keep their displacements and fit their root; every root has a chunk at its beginning and, aligned up, the size from the first to the last byte of its chunks; roots are numbered by where they begin; and, for an allocation of the same alignment, chunks stay aligned and the roots sum to no more than the heap |
| Intervals.IntersectOne | lib/interval.hpp:100-121 | holds exactly the integers in both intervals |
| Intervals.Normalize | lib/interval.hpp:127-167 | any list of intervals becomes a canonical set of the same integers |
| Intervals.Contains | lib/interval.hpp:232-236 | decides membership |
| Intervals.Intersect | lib/interval.hpp:258-281 | the two-pointer sweep yields a canonical set of exactly the common integers |
| Intervals.Unite | lib/interval.hpp:283-288 | yields a canonical set of exactly the integers of either |
| Intervals.Complement | lib/interval.hpp:290-308 | yields a canonical set of exactly the other integers |
| Intervals.IsSubsetOf | lib/interval.hpp:238-241 | decides inclusion of the sets of integers |
| Intervals.EqualityIsExact | lib/interval.hpp:243 | two canonical sets are structurally equal if and only if they hold the same integers |
| Intervals.BoundsAreTight | lib/interval.hpp:198-206 | the bounds enclose the set and are attained |
| IntervalReasoning.IntervalAdd | lib/interval.hpp:313-325 | holds exactly the sums |
| IntervalReasoning.IntervalSub | lib/interval.hpp:327-339 | holds exactly the differences |
| IntervalReasoning.IntervalNeg | lib/interval.hpp:341-351 | holds exactly the negations |
| IntervalReasoning.IntervalMul | lib/interval.hpp:353-369 | holds exactly the products of the elements rounded up to ranges: what lies between the products of the ends of a range in either set, from there on without end where a zero that stands alone meets a range without end, and everything when an element may be negative |
| IntervalReasoning.ZeroTimesUnboundedIsLoose | lib/interval.hpp:353-369 | the exception is one: the product of a zero interval and an unbounded one holds every positive number, though all products are zero |
| IntervalReasoning.EvalExprInterval | lib/interval.hpp:536-567 | holds the value of the expression in every admitted world, and exactly the values it can take with every occurrence chosen on its own and products rounded up to ranges |
| IntervalReasoning.CompareSets | lib/interval.hpp:627-676 | on nonempty sets answers true or false exactly when all pairs of elements compare that way |
| IntervalReasoning.EvalPredInterval | lib/interval.hpp:571-687 | there is an answer if and only if what is compared has values and all of them compare that way, through AND, OR and NOT, and it is right in every admitted world |
| IntervalReasoning.AnswersIffAgree | lib/interval.hpp:571-687 | where everything compared has values there is an answer if and only if the predicate can have only that truth value, every occurrence of a symbol chosen on its own |
| IntervalReasoning.AnswerIsTrue | lib/interval.hpp:571-687 | an answer is the truth in every admitted world |
| IntervalReasoning.ProductOfRanges | lib/interval.hpp:556 | the product of expressions with the values from a to b and from c to d, none negative, has the values from a * c to b * d |
| IntervalReasoning.EndsDecideProduct | lib/interval.hpp:571-687 | its comparison with a number is answered if and only if the products of the end points decide it |
| IntervalReasoning.MayBeIffAdmitted | lib/interval.hpp:571-687 | where nothing occurs twice, the truth values that evaluation over intervals leaves open are exactly those the predicate has in admitted worlds |
| IntervalReasoning.DecomposeLinear | lib/interval.hpp:389-420 | an expression split as symbol plus constant has that value in every world |
| IntervalReasoning.DecomposesIffShifted | lib/interval.hpp:389-420 | exactly the expressions made from the symbol by adding numbers on either side and subtracting them on the right are split, with the sum of those numbers |
| IntervalReasoning.LimitSet | lib/interval.hpp:471-480 | the set of a limit holds exactly the values within it |
| IntervalReasoning.ProjectConstraint | lib/interval.hpp:497-533 | computes the projection of every predicate, which on AND, OR and NOT over the symbol plus a constant compared with a constant is exact, and on predicates whose comparisons can be trusted, or whose opposites can under an odd number of negations, holds every value the predicate admits |
| IntervalReasoning.SymbolLimits | lib/interval.hpp:436-490 | a comparison with another symbol limits the symbol by the place behind the last value of the other when it stands on the right, and by its first value when it stands on the left |
| IntervalReasoning.ExactProjection | lib/interval.hpp:424-533 | on the exact fragment a value is in the projection if and only if the predicate holds of it |
| IntervalReasoning.SoundProjection | lib/interval.hpp:424-533 | on the trusted fragment a world that satisfies the predicate has its symbol in the projection, and under a negation a world that falsifies it has its symbol outside |
| IntervalReasoning.AtomIsSoundIffTrusted | lib/interval.hpp:436-490 | for a symbol the environment leaves open, a projected comparison keeps every admitted solution if and only if it uses no symbolic bound, is written with < or <=, or has the symbol on the right of a bound with one value |
| IntervalReasoning.UntrustedAtomLies | lib/interval.hpp:445-456 | otherwise an admitted world satisfies the comparison and is excluded |
| IntervalReasoning.NegatedForeignAtomExcludesAll | lib/interval.hpp:509-513 | the negation of any comparison that puts no limit on the symbol projects to the empty set |
| IntervalReasoning.NegatedAtomIsSoundIff | lib/interval.hpp:424-513 | for a symbol the environment leaves open, a projected negated comparison keeps every admitted solution if and only if the opposite comparison can be trusted, or, where the comparison puts no limit on the symbol, the negation has no admitted solution |
| IntervalReasoning.NegatedAtomIsDecided | lib/interval.hpp:424-513 | for a comparison in which nothing occurs twice the second case is that evaluation over intervals finds the comparison true |
| IntervalReasoning.NegationLosesWorld | lib/interval.hpp:509-513 | `NOT (y < 3)` projected onto `x` loses a world that satisfies it |
| IntervalReasoning.TryProveWithIntervals | lib/semacheck.cpp:155-197 | the symbols get exactly the values their bounds and the projected scope leave, one after another; there is an answer if and only if evaluation over these values gives it; and where every narrowing can be trusted an answer is right in every world within the bounds in which the scope holds, as with any scope whose comparisons are written with < or <= or bound no symbol by one taken before it, and under NOT compare each symbol with a number |
| IntervalReasoning.UnsafeScopeMisleads | lib/semacheck.cpp:155-197 | under a comparison not written with < or <= that bounds a symbol by one taken before it, which is declared as 0 or 1, the symbols can be narrowed, and however they are the question whether all of them have the values of a certain world is answered with false, though that world is within the bounds and in scope |
| IntervalReasoning.ComparisonScopeIsRightIff | lib/semacheck.cpp:155-197 | under a scope that is one comparison, every answer to a question about the symbols is right in every world in scope, for all declared bounds, if and only if the comparison is written with < or <= or bounds no symbol by one taken before it |
| IntervalReasoning.RightInAnyOrderIff | lib/semacheck.cpp:155-197 | so it is in every order of the symbols if and only if the comparison is written with < or <= or is not between a symbol and another one shifted by numbers |
| IntervalReasoning.ProvesTooMuch | lib/semacheck.cpp:155-197 | with `n` declared as 0 or 1 and taken first, under the scope `x >= n` the answer to `n == 1 && x == 1` is false, though it is true in a world in scope |
| Contiguity.ComputeStrides | lib/ast.hpp:2744-2750 | the backward loop yields row-major strides, the products of the inner extents |
| Contiguity.InnerProduct | lib/ast.hpp:2752-2757 | the forward loop yields the offset of the block's last element |
| Contiguity.IsContiguous | lib/ast.hpp:2724-2764 | reshapes and squeezes are contiguous; a block of known extents is reported contiguous if and only if its offsets fill an interval with no gap, and with nil extents it takes whole a report is right, and so is its absence where none of them turns out to be 1 |
| Contiguity.ContiguityIsDecided | lib/ast.hpp:2720-2764 | a block leaves no gap whatever its nil extents turn out to be if and only if every dimension inside the outermost one that can exceed 1 has equal extents or is 1 in the array, and leaves one in every case if and only if no dimension, outside which the block extents are all 1 or nil, has inside it only dimensions whose extents are equal where both are known |
| Contiguity.AnswerIsRightIff | lib/ast.hpp:2724-2764 | an answer true is right for all values of the nil extents if and only if the first condition holds, and an answer false if and only if the second does |
| Contiguity.TrueAnswerIsRightIff | lib/ast.hpp:2724-2764 | where the stand-ins make a block of an array, an answer true is right for all values of the nil extents if and only if, inside the outermost dimension whose block extent is not written as 1, nil stands against nil |
| Contiguity.NilPassesForWhole | lib/ast.hpp:2730-2742 | a block of extent 2 in a nil extent is reported contiguous although it leaves gaps for every actual extent above 2 |
| Contiguity.NilBlockPassesForWhole | lib/ast.hpp:2730-2742 | the block [2, nil] of [4, 2] is reported contiguous although it leaves a gap when the nil is 1 |
| Contiguity.NilHidesOne | lib/ast.hpp:2730-2742 | the block [nil, 2] of [nil, 4] is reported not contiguous although it has no gap when the nil is 1 |
| Contiguity.TestIsFullInside | lib/ast.hpp:2755-2760 | the test on last offset and count holds if and only if every extent inside the outermost one above 1 is full |
| Contiguity.NoGapIsFullInside | lib/ast.hpp:2720-2723 | the offsets fill an interval if and only if every extent inside the outermost one above 1 is full |
| ConstexprValues.OpAtIs | lib/choreo_template.cpp:789-911 | an operator is recognised at its own precedence level and at no other, longest spelling first |
| ConstexprValues.ApplyInRange | lib/choreo_template.cpp:848-911 | an operation on 64-bit values that is not refused has a 64-bit value |
| ConstexprLaws.DivisionTruncates | lib/choreo_template.cpp:882-905 | a dividend is quotient times divisor plus remainder, and the remainder is smaller than the divisor and takes the sign of the dividend |
| ConstexprLaws.DivisionIsUnique | lib/choreo_template.cpp:882-905 | no other two numbers do so |
| ConstexprLaws.QuotientLaws | lib/choreo_template.cpp:869-911 | quotient and remainder are refused exactly for divisor 0 and for the smallest number by -1, and otherwise belong together |
| ConstexprLaws.SumLaws | lib/choreo_template.cpp:848-867 | a sum is the number in range from which either summand takes back to the other, a difference the number that summed gives the minuend, and they overflow exactly when there is none |
| ConstexprLaws.ProductLaws | lib/choreo_template.cpp:869-911 | products come from sums: 0 times is 0, once more adds once, the sign changes with either factor, and they overflow exactly out of range |
| ConstexprLaws.ComparisonLaws | lib/choreo_template.cpp:809-846 | comparisons are 1 or 0, and all come from `<` and `==` |
| ConstexprLaws.ConnectiveLaws | lib/choreo_template.cpp:789-807 | connectives are 1 or 0, with every number but 0 as true |
| ConstexprLaws.LiteralsSpell | lib/choreo_template.cpp:991-1020 | decimal, octal and hexadecimal literals have the value they spell, up to the largest 64-bit integer |
| ConstexprLaws.AliasesStandFor | lib/choreo_template.cpp:115-153 | which names stand for another type |
| ConstexprParser.ConstexprEvaluator.Consume | lib/choreo_template.cpp:782-787 | skips blank space and moves past the token exactly if it stands there |
| ConstexprParser.ConstexprEvaluator.ParseOr | lib/choreo_template.cpp:789-797 | leaves value, position and error as the parser function of the lowest level says |
| ConstexprParser.ConstexprEvaluator.ParseAnd | lib/choreo_template.cpp:799-807 | the same for conjunction |
| ConstexprParser.ConstexprEvaluator.ParseEquality | lib/choreo_template.cpp:809-819 | the same for equality |
| ConstexprParser.ConstexprEvaluator.ParseRelational | lib/choreo_template.cpp:821-846 | the same for order comparisons |
| ConstexprParser.ConstexprEvaluator.ParseAdditive | lib/choreo_template.cpp:848-867 | the same for sums, with overflow |
| ConstexprParser.ConstexprEvaluator.ParseMultiplicative | lib/choreo_template.cpp:869-911 | the same for products, quotients and remainders, with overflow and zero divisors |
| ConstexprParser.ConstexprEvaluator.ParseUnaryOperand | lib/choreo_template.cpp:913-928 | the same for negation and sign |
| ConstexprParser.ConstexprEvaluator.ParsePrimaryOperand | lib/choreo_template.cpp:943-1021 | the same for groups, literals, booleans and type comparisons |
| ConstexprParser.ConstexprEvaluator.Evaluate | lib/choreo_template.cpp:1027-1040 | gives the evaluation of the text, refusing text left over; what that is say PrintedTreeEvaluates and EvaluatesIffTree |
| ConstexprTrees.PrintedTreeEvaluates | lib/choreo_template.cpp:771-1041 | the text of any well-formed tree, with any blank space before every token and at the end and with parentheses wherever needed or wanted, evaluates to the truth of the tree's meaning, and to an arithmetic error exactly when the meaning is a fault |
| ConstexprTrees.ReadsPrinted | lib/choreo_template.cpp:789-1021 | a printed operand anywhere in a text reads as its meaning, evaluated or skipped, and the parser stands right behind it |
| ConstexprTrees.SkippedTreeIsPassed | lib/choreo_template.cpp:789-1021 | a skipped printed tree is consumed completely without an error |
| ConstexprTrees.SkipFollows | lib/choreo_template.cpp:789-1021 | on any text, skipping raises no arithmetic error and ends where a run without errors ends |
| ConstexprGrammar.LevelTree | lib/choreo_template.cpp:789-1021 | what is parsed without an error, evaluated or skipped, is a tree whose operators bind at least as tightly as the level, and the parser stands behind it |
| ConstexprGrammar.EvaluatesIffTree | lib/choreo_template.cpp:771-1041 | a text has a value if and only if it is the text of a well-formed tree, with blank space, that has one, and then it is the truth of the meaning of the tree |
| TextScanning.SkipCommentOrLiteral | lib/choreo_template.cpp:258-278 | moves past the comment, string, character or raw string that starts here, and otherwise not at all |
| TextScanning.SkipTrivia | lib/choreo_template.cpp:280-296 | moves past blank space and comments only |
| TextScanning.FindMatching | lib/choreo_template.cpp:315-352 | finds the bracket the specification finds |
| TextScanning.MatchIsFirstBalanced | lib/choreo_template.cpp:315-352 | that is the first closing bracket outside comments and literals at which the brackets balance, and there is none if none is found |
| ScanningLaws.PieceIsSkipped | lib/choreo_template.cpp:230-278 | a closed comment, string, character or raw string is passed over as a whole, and a comment up to the end of a line without that |
| ScanningLaws.SkippedIsPiece | lib/choreo_template.cpp:230-278 | what is passed over is one of these, or goes on to the end of the text |
| ScanningLaws.Openers | lib/choreo_template.cpp:258-278 | comments and literals begin with `//`, `/*`, `R"`, a double or a single quote, and with nothing else |
| ScanningLaws.TriviaIsPassed | lib/choreo_template.cpp:280-296 | blank space and comments are passed over as far as they go |
| ScanningLaws.KeywordIsFirst | lib/choreo_template.cpp:298-304 | the keyword found is the first one outside comments and literals |
| ScanningLaws.ConditionalIsFirst | lib/choreo_template.cpp:1192-1204 | the conditional found is the first one outside comments and literals |
| ConstexprFolding.FoldStaticAssertions | lib/choreo_template.cpp:1060-1165 | the loop computes the fold of the assertions of a text; which assertions pass, and what is left of them, say AssertionFoldsIffDemanded, AssertionOfTree and AssertionsAreBlanked |
| ConstexprFolding.AssertionsKeepNewlines | lib/choreo_template.cpp:1053-1165 | a fold of assertions that succeeds has exactly the lines of the text |
| ConstexprAssertions.VerdictOfArgument | lib/choreo_template.cpp:1060-1157 | arguments that are the text of a tree, with or without a message, pass if and only if the tree means a number other than 0, and a tree that means 0 is complained of with the message |
| ConstexprAssertions.AssertionOfTree | lib/choreo_template.cpp:1060-1165 | wherever `static_assert(` tree `[, message]);` stands as a word of its own, it is passed, up to its semicolon, if and only if the tree means a number other than 0 |
| ConstexprAssertions.AssertionFoldsIffDemanded | lib/choreo_template.cpp:1060-1165 | the text of one such assertion folds if and only if the tree means a number other than 0 |
| ConstexprAssertions.AssertionsAreBlanked | lib/choreo_template.cpp:1053-1165 | a fold that succeeds leaves of every assertion only blanks, with `\n` and `\r` at their places, and all other text as it was |
| ConstexprFolding.EndIffChain | lib/choreo_template.cpp:1167-1190 | the end of a conditional is found if and only if arms with matching brackets stand there, joined by `else`, with nothing or a braced `else` behind the last, and it is where that chain ends |
| ConstexprFolding.ChosenIffChain | lib/choreo_template.cpp:1205-1272 | a branch is chosen if and only if the whole chain of arms has matching brackets and its first condition has a value |
| ConstexprFolding.ChoiceOfChain | lib/choreo_template.cpp:1205-1272 | of a chain of arms the body of the first stays if its condition is true, and otherwise the whole rest as one conditional, or the body of the last `else`, or nothing |
| ConstexprFolding.FirstTrueArmStays | lib/choreo_template.cpp:1205-1272 | choosing again from what was chosen ends at the body of the first arm whose condition is true, or of the last `else`, or at nothing, and always replaces the whole chain |
| ConstexprFolding.ChainFolds | lib/choreo_template.cpp:1192-1306 | a chain of arms up to the end of the text folds to the fold of the body of the first arm whose condition is true, or of the last `else`, or to nothing, in as many `if (true)` scopes as conditions were looked at, each padded with newlines only |
| ConstexprBranches.ChoiceOfTree | lib/choreo_template.cpp:1192-1272 | the text of a conditional over a tree, with blank space before its tokens, keeps its body if the tree means a number other than 0, its `else` body or nothing if it means 0, and is refused if the tree has no value |
| ConstexprBranches.FoldOfBranches | lib/choreo_template.cpp:1192-1306 | such a text folds, if the tree has a value and what it keeps folds, to that fold in an `if (true)` scope, padded with newlines to the lines of the text, and fails otherwise |
| ConstexprFolding.ScannersAgree | lib/choreo_template.cpp:1167-1272 | the end the folder finds for a conditional is the end the separate scanner finds |
| ConstexprFolding.FoldConstexpr | lib/choreo_template.cpp:1192-1306 | the recursive folder terminates and computes the fold |
| ConstexprFolding.FoldKeepsNewlines | lib/choreo_template.cpp:1287-1297 | a fold that succeeds has exactly the lines of the text |
| ConstexprFolding.FoldsIffLiveHolds | lib/choreo_template.cpp:1274-1304 | a fold succeeds if and only if the live conditionals are well formed and every assertion in live text holds |
| ConstexprFolding.FoldShifts | lib/choreo_template.cpp:1192-1306 | text is folded as if nothing stood in front of it |
| ConstexprFolding.DiscardedTextIsIrrelevant | lib/choreo_template.cpp:1223-1304 | two texts whose first conditionals differ but leave the same text and have as many lines fold alike |
| FragmentLayouts.AccumulatorIsBijective | lib/fragment_layout.hpp:75-151 | on 64 rows and whole column groups, element to register and thread and register and thread to element undo each other |
| FragmentLayouts.AccumulatorStores | lib/fragment_layout.hpp:69-88 | the formulas invert the store of the hardware: the four registers of a column group hold the elements at row warp * 16 + lane / 4 and eight below, in columns group * 8 + lane % 4 * 2 and the next |
| FragmentLayouts.RowIsShared | lib/fragment_layout.hpp:176-205 | a row of an accumulator lies with consecutive threads, as many as the reduction takes for a row |
| FragmentLayouts.UniformIsLeast | lib/fragment_layout.hpp:322-336 | a uniform tile has the least number of registers with which its threads hold it, and takes them by fours if and only if four for each thread divide a tile that is not empty |
| FragmentLayouts.RegistersAreCoalesced | lib/fragment_layout.hpp:263-283 | consecutive registers of a group hold consecutive positions, the next thread goes on behind the group, and the next group of a thread behind those of all threads |
| FragmentLayouts.UniformElementReturns | lib/fragment_layout.hpp:114-151 | in scalar and vector-4 uniform layouts of any thread count every element comes back from its register and thread |
| FragmentLayouts.UniformRegisterReturns | lib/fragment_layout.hpp:221-283 | a register of a thread comes back from its element if and only if its position lies in the tile |
| FragmentLayouts.UniformIsBijectiveIffEven | lib/fragment_layout.hpp:322-336 | every register of every thread holds an element if and only if the threads divide the tile evenly |
| FragmentLayouts.AccumulatorReduction | lib/fragment_layout.hpp:176-216 | a row reduction of an accumulator reads each register once, and each inner loop stays in one row |
| FragmentLayouts.BroadcastRowMatches | lib/fragment_layout.hpp:156-164 | the register of the replicated vector an accumulator register is combined with is that of its row, in the first thread of its group of four |
| FragmentLayouts.ReplicatedRowIsRightIffFirst | lib/fragment_layout.hpp:233-240 | the row formula of a vector replicated from an accumulator is right if and only if the register is 0 |
| FragmentLayouts.UniformReductionReadsOnce | lib/fragment_layout.hpp:176-216 | when columns and threads divide one another a scalar uniform row reduction reads each register once |
| FragmentLayouts.ReducedRowsAgreeIffDividing | lib/fragment_layout.hpp:390-409 | the rows the destination names are the rows reduced, for all registers and threads, if and only if columns and threads divide one another |
| FragmentLayouts.StridedIndexInvertsIff | lib/fragment_layout.hpp:102-240 | on a replicated vector with a row stride the register formula undoes the row formula, for all registers and threads, if and only if it has one register of at most eight rows or two of exactly eight |
| FragmentLayouts.ReducedIndexInvertsIff | lib/fragment_layout.hpp:390-409 | the same condition for the destination of a uniform row reduction whose columns and threads divide one another |
| ParallelVariables.LookupFinds | lib/active_threads.hpp:85-91 | looking a name up finds the declaration the name stands for in the nest of parallels, with its level and bound |
| ParallelVariables.UnitsAreConsecutive | lib/active_threads.hpp:33-43 | 32 consecutive threads form a warp and 128 a warpgroup, numbered in their order by the analysis and the generated code |
| ParallelVariables.ProductOfBoth | lib/active_threads.hpp:304-312 | the product of bounds multiplies along the list, and one unknown bound makes it unknown |
| ParallelVariables.DimensionsSpellIndex | Documents/Developer/parallel-index-codegen.md:48-50 | the values of the dimensions, row by row, spell the index of the thread's unit, wrapped at the number of their combinations |
| ParallelVariables.RightIffFlat | lib/active_threads.hpp:94-98 | the analysis has the row-major value of a bounded variable in every thread if and only if the variable is flat: one value, one unit, or inner extents that multiply to 1 with lanes that fit |
| ActiveThreads.RightAboutVariableIffFlat | lib/active_threads.hpp:116-152 | the verdicts on a bounded variable being equal to constants are right in every thread if and only if the variable is flat |
| ActiveThreads.FirstDimensionIsWrong | lib/active_threads.hpp:94-98 | under `parallel {x, y} by [4, 8] : thread` the verdict on `x == 1` in thread 1 is true, while `x` is 0 |
| ActiveThreads.VerdictAgrees | lib/active_threads.hpp:94-199 | for predicates over flat variables a decided verdict is the truth in that thread, with the row-major values of the generated code, for all values of what the analysis cannot see |
| ActiveThreads.ComparisonsAreUsual | lib/active_threads.hpp:101-112 | the comparisons are those of the integers, all given by `<` |
| ActiveThreads.ModIsRemainder | lib/active_threads.hpp:154-170 | the remainder is what is left over by a division that rounds towards zero |
| ActiveThreads.VerdictIffSettled | lib/active_threads.hpp:116-199 | for predicates over flat variables there is a verdict if and only if comparisons of bounded parallel variables, or their remainders, with constants settle the predicate |
| ActiveThreads.ComputeTotalBound | lib/active_threads.hpp:299-314 | the total bound is the given one, or the product of all known dimensions, or unknown |
| ActiveThreads.Analysis.BuildMask | lib/active_threads.hpp:202-224 | there is a mask if and only if the predicate is decided in every thread; it is true exactly where the predicate and all enclosing masked predicates are found true, and, over flat variables, exactly where they hold |
| ActiveThreads.Analysis.UpdateThreadDim | lib/active_threads.hpp:51-55 | the first known thread-level bound sets the thread count and later ones leave it |
| ActiveThreads.OutermostGivesCount | lib/active_threads.hpp:51-55 | within a nest of parallels the thread count is that of the outermost one with a known whole, in threads of its units, 128 for a group-4 and 32 for a group |
| ActiveThreads.Analysis.EnterParallel | lib/active_threads.hpp:277-322 | one entry is pushed, the thread count is set if it was unknown, and the scope gets the innermost mask |
| ActiveThreads.Analysis.EnterInThreads | lib/active_threads.hpp:323-343 | a mask is pushed exactly for a decidable predicate |
| ActiveThreads.Analysis.LeaveParallel | lib/active_threads.hpp:351-366 | one entry is popped and the thread count is forgotten with the last thread-level entry |
| ActiveThreads.Analysis.LeaveInThreads | lib/active_threads.hpp:367-370 | the mask pushed on entry, if any, is popped |
| ActiveThreads.Analysis.Visit | lib/active_threads.hpp:271-372 | a visit of any tree leaves both stacks as they were, every stacked mask has one flag a thread, and every scope inside is annotated with the mask of exactly the decidable predicates around it, which over flat variables marks the threads in which they hold |
| ActiveThreads.DimReturnsIff | lib/active_threads.hpp:317-366 | every visit gives the thread count back if and only if it was known or no thread-level parallel was open |
| MmaWaits.AsyncOpGraph.IssueMMA | lib/codegen_prepare.hpp:171-184 | the future joins the queue of its scope as pending |
| MmaWaits.AsyncOpGraph.ResolveMMAWait | lib/codegen_prepare.hpp:129-151 | a wait notes the number of later operations, marks its target and everything before it as emitted and removes them, or reports that it was emitted before |
| MmaWaits.QueuesHoldPending | lib/codegen_prepare.hpp:129-184 | after any events with distinct futures each queue holds exactly its pending operations in issue order |
| MmaNotes.EmittedIffCovered | lib/codegen_prepare.hpp:129-151 | after any events with distinct futures, a future is marked emitted if and only if a wait was for it or for a later one of its scope |
| MmaNotes.NoteOfWait | lib/codegen_prepare.hpp:129-151 | a wait is noted as emitted before if and only if an earlier wait was for its target or a later one of its scope, and otherwise its depth is the number of operations issued after the target to its scope |
| MmaNotes.GreaterDepthIsUnsafe | lib/codegen_prepare.hpp:139-142 | no greater depth is safe: hardware with one unit for each scope may leave the target running |
| MmaWaits.EmittedIsComplete | lib/codegen_prepare.hpp:129-151 | for statements executed in the order of the text, on hardware that retires in order and obeys the depths, every future marked emitted is complete at every point, however scopes share hardware queues |
| MmaWaits.WaitedIsComplete | lib/codegen_prepare.hpp:129-188 | for statements executed in the order of the text, after a wait for an issued future that future is complete |
| MmaWaits.AsyncOpGraph.Visit | lib/codegen_prepare.hpp:171-189 | visiting a program of branches, loops and blocks leaves on every wait the note that belongs to the operations before it in the text |
| MmaNotes.VisitedIsRun | lib/codegen_prepare.hpp:171-189 | the book after a visit is the book after the events of the text, the first arm of a branch before the second |
| MmaNotes.AnnotatedIffNoted | lib/codegen_prepare.hpp:171-189 | a program is annotated if and only if every wait of it carries the note of a wait after the events before it in the text |
| MmaRuns.WaitsComplete | lib/codegen_prepare.hpp:129-189 | on every run of a program in which waits are for futures issued on every way to them and no conditional body disturbs earlier futures, after every executed wait its future is complete, on any hardware that retires in order and heeds the notes |
| MmaRuns.Follows | lib/codegen_prepare.hpp:129-189 | along any run of such a statement every wait is done, and where the run reaches the end the book of the visit is true of the operations it has issued |
| MmaRuns.OwnScopesDisturbIffRetire | lib/visitor.hpp:512-553 | a body that issues to queues of its own disturbs the futures issued before it if and only if it retires one of them |
| MmaRuns.SkippedBodyLosesFuture | lib/codegen_prepare.hpp:139-142 | where a statement that a run can pass without doing anything (a branch with or without an else arm, a loop, an in-threads block) retires a future issued before it, on every such run that comes by with the future still running, hardware that heeds the notes may leave it running after the next wait for it |
| MmaRuns.FirstFutureIsLost | lib/codegen_prepare.hpp:139-142 | two issues in one scope, a branch that waits for the second and a wait for the first: the run that skips the branch may end with the first still running |
| Resolution.ResolveNoStorageAlias | lib/access_tracking.cpp:111-118 | an acyclic chain is followed to its end |
| Resolution.AcyclicIffNoTrap | lib/access_tracking.cpp:111-118 | the chains of no-storage aliases end for every name if and only if no set of names is closed under the links |
| Resolution.Resolver.Resolve | lib/buffer_access_analysis.cpp:61-89 | everything visited has been expanded and is reachable, the result is the storage owners among the visited names, and cyclic bindings do not keep it from ending |
| Resolution.ResolveBuffers | lib/buffer_access_analysis.cpp:47-93 | returns exactly the storage-owning names reachable through futures, aliases and bindings |
| Resolution.ProcessMap | lib/access_tracking.hpp:82-106 | adds the names one map gives and queues those not processed yet |
| Resolution.TransitiveClosure | lib/access_tracking.hpp:110-128 | returns the least superset of the names closed under all the maps |
| EditDistance.EditDistance | lib/aux.hpp:335-347 | the table computes the distance |
| EditDistance.LowerCaseOf | lib/aux.hpp:342-344 | each of A to Z has the letter of its place in a to z as its lower case, and other characters stay |
| EditDistance.DistanceIsLeastCost | lib/aux.hpp:335-347 | the distance is the least cost of a script of insertions, deletions and case-insensitive substitutions |
| EditDistance.ZeroIffEqual | lib/aux.hpp:342-344 | the distance is zero if and only if the strings are equal up to case |
| EditDistance.Symmetric | lib/aux.hpp:335-347 | the distance is symmetric |
| EditDistance.TriangleInequality | lib/aux.hpp:335-347 | the distance satisfies the triangle inequality |

## Left out

- DmaCompletion.BuffersProved: races with a transfer that was lost when its context was reused are not claimed to be reported, because the analysis forgets that transfer and reports the reuse instead; where paths to one point disagree on what is initialised, reports of reads are exact for the least solution (BufferFindingsProved) and not for single runs, because a join intersects what the paths initialise.
- DmaPrecision.TransferIsBest: not claimed where a context that may be busy is reused, because the analysis then keeps the earlier transfer beside the new one, while on a run the reuse loses it.
- IntervalReasoning.IntervalMul: an operand that may be negative gives everything, as in the code; zero times an unbounded interval has no upper end, as in the code (ZeroTimesUnboundedIsLoose).
- IntervalReasoning.ProjectConstraint: the condition for soundness is exact for a single comparison and its negation (AtomIsSoundIffTrusted, NegatedAtomIsSoundIff); for larger predicates it is sufficient.
- IntervalReasoning.TryProveWithIntervals: which symbols are narrowed, in which order, and what bounds their types declare are inputs; the condition on the scope is exact for a single comparison (ComparisonScopeIsRightIff) and sufficient for scopes with several comparisons or NOT, where another comparison may make up for a wrong one.
- MmaRuns.WaitsComplete: the condition on conditional bodies is sufficient; the converse is shown where a body retires an earlier future and a run passes it with that future still running (SkippedBodyLosesFuture), which is the only way a body with scopes of its own can disturb (OwnScopesDisturbIffRetire).
- Contiguity.IsContiguous: symbolic extents, for which the source returns a condition to be checked later, are not modelled; with nil extents its own contract is one way, and AnswerIsRightIff gives the exact condition.
- The value of the first of several dimensions, or of the only one: the documentation takes it modulo its bound and the generated code does not (`threadIdx.x / 32` for a group, in lib/Target/GPU/cute_codegen.cpp); the two agree while the index stays below the number of combinations, and the model follows the documentation. In accepted GPU programs it does stay below, because lib/Target/GPU/gpu_adapt.hpp:134-166 asks for exactly 32 lanes of an enforced group and 128 of an enforced group-4 and refuses a group inside a group-4.
- FragmentLayouts.AccumulatorIsBijective: only tiles of 64 rows, the shape the layout has formulas for.
- DMA completion: how statements and contexts are collected from the syntax tree, which access belongs to which statement, source locations, diagnostic texts and the limitation notes are inputs or absent; a header of a plain block carries no action or effect, since the graph has no node for it; conditions of branches are not tracked, as in the code.
- Device recognition of participant scopes and the fallbacks found during the visit come in as fields of the device.
- Unordered pairs of context names are sets of two names.
- Machine integers: sizes and offsets of the heap, interval end points and distances are unbounded; only compile-time conditions have 64-bit limits.
- `std::sort` is an insertion sort with the same comparison; the source leaves the order of equal elements open.
- Live ranges are intervals with begin below end and the usual overlap test; buffer names are unique and ranges sorted and disjoint, as the callers provide.
- Symbolic expressions are plain trees and their normalisation is the identity; shapes hold plain integers and nil, so symbolic extents of a block are not modelled.
- Cyclic chains of no-storage aliases, on which the source would not return.
- Fragment layouts CTMMA_ACC and WGMMA_RS_A, flat positions of accumulators, and reductions over vector-4 uniform layouts.
- Parallel level, selected unit and count of active threads noted on an in-threads block; a remainder that carries a value known at compile time is represented by that value.
- Texts of error messages of the folder that repeat the evaluator's message, and where in the source they point; template parsing, instantiation and printing; matching of angle brackets.
- Diversity shapes, assertion placement and verdict tables, fence insertion and type rules of the early semantic pass, which are shallow or rest on tables outside these files.
