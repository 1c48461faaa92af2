# Q: a verified model of its algorithmic cores

Q is an analytics engine in C (with some Lua): hash maps, sorting, a decision-tree builder, vectors, a CSV
loader and printer, graph and linear-algebra operators, and the LuaJIT assembler it carries along. The code
is written for speed, and much of what makes it right is written down nowhere, or only as debugging checks.
This project models those cores in Dafny, in the form the code has (arrays changed in place, explicit
stacks, state that methods update, interleaved threads), and proves what they are meant to guarantee.

| files | what is modelled | main results |
|---|---|---|
| `FastDiv`, `RobinHood`, `HMap`, `BatchPut` | the Robin Hood hash map, its division by an invariant integer, the multi-threaded batch put | the table is a map after every sequence of operations; probing stops early and rightly; a batch equals its puts one by one, for every interleaving, exactly when every stored key's thread number is one of the team's |
| `QSort` | the non-recursive quicksort that drags a payload along | sorted, value/payload pairs permuted, no access out of bounds although the scans are unguarded, the stack never fills |
| `Columns`, `Preproc`, `Reorder`, `Gini`, `Lanes`, `Search`, `Cuts`, `Tree`, `Builder` | the decision-tree builder on presorted columns, in its scalar form and in its form for vector gangs | all column and tree invariants, over the whole recursion, in both forms; every node of the finished tree whose rows fit the candidate buffer is divided at the best cut of all features, said of its rows alone; the two partitions always agree, the two metrics and the two choices of the best one exactly under stated conditions |
| `ArmBits`, `LabelChains`, `Layout`, `Feed`, `Fixing`, `Immediates`, `Emission`, `DynAsm` | DynASM's three passes for ARM | every label ends up with its true offset; exactly which relocations the processor reads back as the distance to their label, and which immediates as the argument that was put; exactly which undefined labels are reported; exactly `codesize` bytes are emitted |
| `Solver`, `Pivots`, `NormalSystem` | the symmetric solver by recursive Schur complement, and its use for least squares | for which matrices all answers are right, as a condition on the matrix alone; the least-squares front end always satisfies the normal equations, also for singular matrices; for every order of the parallel shares |
| `Components` | components by hooking and pointer jumping; by concurrent label propagation | termination, and the least vertex of the component as label; exactly when the blocked loop reads the graph that it was given |
| `Spooky` | streaming and one-shot SpookyHash | the same hash however the message is cut |
| `Csv`, `CsvLoad`, `CsvFiles` | CSV printing, cell scanner with trimming, resumable loader | every well-formed file, quoted or not, is loaded in chunks of any size as the rows its cells stand for; what is printed is read back; which values are, exactly |
| `ChunkedVector` | vectors that are appended to chunk by chunk | file and chunk together hold what was appended; exactly which reads are met, and that they return it |
| `Locks` | the memory accounting lock, the lock on the Lua state | mutual exclusion and accounting in every reachable state |

How to read it: a function or predicate says what something is; a method is the code; its `ensures` ties it
to the functions, and lemmas say what the functions mean. Where the code does not do what it is meant to do,
the model keeps the code as it is, and a lemma says exactly when it does (`TeamMustCoverThreads`,
`ThreadNumbersFit`, `PositionsFit`, `AlignedExactly`, `RunsAlignExactly`, `PicksAgree`, `BuildsAgree`, `ScalarMeetsGang`,
`SolveExact`, `BlocksAligned`, `SumExactWhen`, `CutExactly`, `CellReturnsExactly`, `RelocationReadsBack`,
`UnansweredReported`, ...).

Conventions. `float` and `double` are reals: no rounding, no NaN. The load-factor marks 0.85, 0.2 and 0.6 are
fractions. Allocation succeeds. Integers are unbounded except where their width matters, and there it is
written out. A failed call's status is an `int` or a datatype. Parallel loops take their iterations in any
order; where threads share data, their steps interleave freely. Hash, mixing and conversion functions are
parameters of which nothing is assumed but that they are functions.

`dafny verify dfyconfig.toml` checks the whole project.

## Model

| member | source | states |
|---|---|---|
| FastDiv.MultiplierFits | TMPL_FIX_HASHMAP/inc/fastdiv.h:52-64 | for every 32-bit divisor the packed multiplier is between 1 and 2^32 - 1 and the 64-bit product it is computed from does not overflow |
| FastDiv.Unpack | TMPL_FIX_HASHMAP/inc/fastdiv.h:63-71 | the multiplier and both shift counts come back from the packed word, which fits 64 bits |
| FastDiv.ReadFields | TMPL_FIX_HASHMAP/inc/fastdiv.h:66-75 | none of the 32-bit steps of the quotient wraps around |
| FastDiv.ReciprocalQuotient | TMPL_FIX_HASHMAP/inc/fastdiv.h:66-75 | multiplying by a reciprocal rounded up by less than the divisor gives the exact quotient of every 32-bit number (Granlund and Montgomery, PLDI 1994) |
| FastDiv.QuotientCorrect | TMPL_FIX_HASHMAP/inc/fastdiv.h:66-75 | fast_div32 with fast_div32_init is integer division, for all dividends and divisors |
| FastDiv.RemainderCorrect | TMPL_FIX_HASHMAP/inc/fastdiv.h:77-81 | fast_rem32 is the remainder, hence always a valid slot |
| RobinHood.PathIsFull | TMPL_FIX_HASHMAP/src/rs_hmap_insert.c:26-35 | in a well-placed table every slot between a bucket and its home is full and at least as deep as the probe there, around the end of the array |
| RobinHood.Displace | TMPL_FIX_HASHMAP/src/rs_hmap_insert.c:61-70 | taking the place of a bucket that has travelled less keeps every bucket well placed |
| RobinHood.ProbeStops | TMPL_FIX_HASHMAP/src/rs_hmap_get.c:50-60 | stopping at an empty slot, or at a bucket less deep than the probe, is right: the key is nowhere in the table |
| RobinHood.ProbedAll | TMPL_FIX_HASHMAP/src/rs_hmap_get.c:38-39 | the search can run out of slots only in a table that is full |
| RobinHood.SwapAndCarryOn | TMPL_FIX_HASHMAP/src/rs_hmap_insert.c:61-75 | the swap exchanges the bucket in hand without losing an item: table and bucket in hand together stay the same map |
| RobinHood.InsertSettle | TMPL_FIX_HASHMAP/src/rs_hmap_insert.c:77-84 | filling the empty slot completes the insertion: the table is the old map with the new key |
| RobinHood.InsertExhausted | TMPL_FIX_HASHMAP/src/rs_hmap_insert.c:49 | an insertion into a full table fails, and the item in hand by then is the one that is lost |
| RobinHood.ShiftOn | TMPL_FIX_HASHMAP/src/rs_hmap_del.c:80-100 | moving a bucket back into the hole keeps the map and moves the hole on; the total probe length drops, so the shift ends |
| RobinHood.StopShifting | TMPL_FIX_HASHMAP/src/rs_hmap_del.c:88-94 | at an empty slot or a bucket in its home slot nothing relies on the hole any more: the table is well placed again |
| HashMap.EmptySlotThreshold | TMPL_FIX_HASHMAP/src/rs_hmap_put.c:23-33 | at its highest load a table has an empty slot if and only if it has at least seven slots |
| HashMap.HMap.AlwaysRoom | TMPL_FIX_HASHMAP/src/rs_hmap_put.c:23-33 | with a minimum size of at least seven every reachable table has at most its high-water mark plus one items and an empty slot, so no probing loop runs out |
| HashMap.SlotIsRemainder | TMPL_FIX_HASHMAP/inc/fastdiv.h:77-81 | the slot computed by the fast division is the hash modulo the size |
| HashMap.OneGrowthStepSuffices | TMPL_FIX_HASHMAP/src/calc_new_size.c:20-32 | the growth loop, which never changes the size it grows from, needs only its first step |
| HashMap.CalcNewSize | TMPL_FIX_HASHMAP/src/calc_new_size.c:7-40 | a resize is asked for if and only if the load is too high; it fails exactly beyond the two size limits, else the new size exceeds the grown one and stays below the largest 32-bit number |
| HashMap.HMap.constructor | TMPL_FIX_HASHMAP/src/rs_hmap_instantiate.c:6-70 | a new table is valid and empty, with the configured or default minimum size, and larger than that minimum |
| HashMap.HMap.SetProbeLoc | TMPL_FIX_HASHMAP/src/rs_hmap_get.c:27-29 | the first slot probed is the key's home slot |
| HashMap.HMap.Get | TMPL_FIX_HASHMAP/src/rs_hmap_get.c:10-69 | any key but the all-zero one is found if and only if it is in the map, with its value and its slot; the all-zero key is also reported when its probe reaches an empty slot; the search fails only in a full table, never with a minimum size of seven or more |
| HashMap.HMap.Answers | TMPL_FIX_HASHMAP/src/rs_hmap_get.c:37-60 | a full bucket with the key has the map's value; exactly when the all-zero key is reported although absent |
| HashMap.HMap.ZeroKeyInEmptyTable | TMPL_FIX_HASHMAP/src/rs_hmap_get.c:42-48 | in an empty table the all-zero key is always reported as found |
| HashMap.HMap.Insert | TMPL_FIX_HASHMAP/src/rs_hmap_insert.c:10-88 | succeeds if and only if the key is present or a slot is free, so always with a minimum size of seven or more; then the map has the key, updated or new, and all others as before; on failure exactly one item is gone |
| HashMap.HMap.Travel | TMPL_FIX_HASHMAP/src/rs_hmap_insert.c:59-75 | one step of the displacement loop keeps its invariant: table plus bucket in hand are the map to be |
| HashMap.HMap.Resize | TMPL_FIX_HASHMAP/src/rs_hmap_resize.c:7-57 | succeeds if and only if the new size has room for all items and passes the check, and then keeps the map under any new seed; a size its check refuses changes nothing; a size the check accepts although it is too small fails with a full table that holds a part of the map |
| HashMap.HMap.Put | TMPL_FIX_HASHMAP/src/rs_hmap_put.c:14-36 | it succeeds if and only if the load is not above the high-water mark or both limits let the table grow, and then the map is the old one with the pair put in; a table above the mark has outgrown its size afterwards, one below is not resized; on failure nothing has changed |
| HashMap.HMap.Del | TMPL_FIX_HASHMAP/src/rs_hmap_del.c:13-117 | removes exactly the given key, returns its value, reports whether it was there; all other keys stay, through shift and shrink; which size the table has afterwards; it never fails with a minimum size of seven or more |
| HashMap.HMap.ShiftOut | TMPL_FIX_HASHMAP/src/rs_hmap_del.c:71-100 | the backward shift removes one key and re-establishes the table's invariant |
| HashMap.HMap.Shrink | TMPL_FIX_HASHMAP/src/rs_hmap_del.c:102-114 | a table below the low-water mark gets the ideal size, but not less than the minimum; this keeps the map and cannot fail |
| HashMap.HMap.Merge | TMPL_FIX_HASHMAP/src/rs_hmap_merge.c:9-29 | the destination becomes the key-wise update by the source; the source is unchanged; it fails only with a table over its high-water mark that a limit bars from growing, and then the destination has been updated by a prefix; it succeeds if no table with so many items could be barred |
| HashMap.HMap.UpdateAt | HASHMAP/src/hmap_update.c:6-23 | updating a slot found earlier updates that key's value and moves no key |
| BatchPut.PutAllOnStoredKey | HASHMAP/src/hmap_mput.c:219-240 | under puts one by one, a stored key sees just its own updates, in batch order |
| BatchPut.UpdateStep | HASHMAP/src/hmap_mput.c:228-239 | whichever thread steps next, the progress invariant over all threads is kept |
| BatchPut.ChunkIsPutAll | HASHMAP/src/hmap_mput.c:146-264 | parallel updates, then new keys in order, equal the puts one by one, if every stored key's thread number is one of the team's |
| BatchPut.TeamMustCoverThreads | HASHMAP/src/hmap_mput.c:220-229 | that holds for all update functions and values if and only if every stored key of the batch has a thread number between 0 and the size of the team, which the second parallel region leaves to the runtime |
| BatchPut.ThreadNumbersFit | HASHMAP/inc/hmap_struct.h:11 | thread numbers are kept in 8 signed bits: all hashes have one in the team if and only if there are at most 128 processors and no more than threads in the team |
| BatchPut.UpdateLost | HASHMAP/src/hmap_mput.c:173-176 | an input where that fails: with 200 processors a stored key whose hash is 150 has thread number -106, and its update is lost |
| BatchPut.ChunksArePutAll | HASHMAP/src/hmap_mput.c:146-148 | cutting the batch into chunks changes nothing |
| BatchPut.LookUpChunk | HASHMAP/src/hmap_mput.c:153-186 | each item gets its hash, whether its key is stored and where, and its thread number, cut down to 8 signed bits |
| BatchPut.RunThreads | HASHMAP/src/hmap_mput.c:219-240 | for every interleaving of the team, the table holds all updates of its threads |
| BatchPut.PutNewKeys | HASHMAP/src/hmap_mput.c:242-256 | the sequential loop puts the new keys in order; nothing is resized, so the hashes computed before still hold |
| BatchPut.MPut | HASHMAP/src/hmap_mput.c:146-264 | for any number of processors and any team the result is that of the chunks; with at most 128 processors, none beyond the team, the whole batch equals its puts one by one |
| QSort.MedianOfThree | DT/src/qsort_asc_val_F4_idx_I2.c:135-158 | the three values end in order, by swaps only |
| QSort.ScanUp | DT/src/qsort_asc_val_F4_idx_I2.c:166-170 | the unguarded scan stops inside the segment |
| QSort.ScanDown | DT/src/qsort_asc_val_F4_idx_I2.c:172-175 | the unguarded scan stops inside the segment |
| QSort.Partition | DT/src/qsort_asc_val_F4_idx_I2.c:135-193 | the walls pass each other inside the segment; nothing left of them exceeds what is right of them; pairs only move within the segment |
| QSort.CapBelow | DT/src/qsort_asc_val_F4_idx_I2.c:59-63 | halving leaves fewer than 2^(e-k) elements after k pushes |
| QSort.StackFits | DT/src/qsort_asc_val_F4_idx_I2.c:88-91 | because the larger part is pushed, 62 entries are never exceeded |
| QSort.QuickPhase | DT/src/qsort_asc_val_F4_idx_I2.c:123-225 | afterwards the smallest value of all is among the first five, and pairs are permuted |
| QSort.RotatedSorted | DT/src/qsort_asc_val_F4_idx_I2.c:265-305 | moving an element in front of the first larger one extends the sorted part |
| QSort.InsertionPhase | DT/src/qsort_asc_val_F4_idx_I2.c:227-307 | the sort without bounds checks ends sorted, pairs permuted |
| QSort.PositionsFit | DT/src/qsort_asc_val_F4_idx_I2.c:268-270 | the 16-bit positions are right if and only if there are at most 32768 elements |
| QSort.PayloadFollows | DT/src/qsort_asc_val_F4_idx_I2.c:30-45 | an order array that named where each value is in a table still does |
| QSort.QSortAsc | DT/src/qsort_asc_val_F4_idx_I2.c:94-309 | sorted ascending, and every value keeps its payload: the multiset of pairs is the same |
| Columns.UnpackPack | DT/src/preproc_j.c:7-22 | row, goal and rank come back from the packed word if and only if they fit 32, 1 and 31 bits |
| Columns.SameWord | DT/src/preproc_j.c:7-22 | two packed words are equal exactly when all three fields are |
| Columns.HalvesFill | DT/src/reorder.c:25-47 | exactly as many cells go left as the left half has places: a counting argument on the inverse array of the splitting column |
| Columns.CellsDiffer | DT/src/split.c:92-95 | no two positions of a column hold equal cells, so the quick return that compares cells is never taken |
| Preproc.QSortKeys | DT/src/preproc_j.c:31-45 | stands for the library sort with an inconsistent comparison: some sorted permutation |
| Preproc.RankCells | DT/src/preproc_j.c:81-119 | ranks start at 1 and grow by one exactly where the value changes |
| Preproc.PreprocJ | DT/src/preproc_j.c:46-155 | the column is a permutation with its inverse, goals match, ranks are ascending, dense and compare as the raw values do |
| Reorder.PartedOnce | DT/src/reorder_isp.c:20-36 | the contract determines output and inverse, so the scalar and the gang form of every width agree |
| Reorder.PartedColumn | DT/src/check.c:130-210 | after reordering, the column is still a permutation with its inverse, has the same cell for every row, and the rows of the splitting column in either half |
| Reorder.PartedRanked | DT/src/reorder.c:25-47 | stability: either half stays in rank order |
| Reorder.PartedOrdered | DT/src/reorder.c:25-47 | and the rows of either half keep the order in which they were |
| Reorder.AllPlaced | DT/src/reorder.c:48-55 | the cursors end at the split position and at the end of the segment |
| Reorder.Reorder | DT/src/reorder.c:4-58 | stable two-way partition of the segment with its inverse; fails exactly on a segment of one cell, changing nothing |
| Reorder.ReorderGang | DT/src/reorder_isp.c:2-45 | the same for gangs of any width, by masked scan and packed store |
| Gini.NeverAboveParent | DT/src/eval_metrics.c:35-50 | the weighted impurity of a split lies between 0 and the impurity of the segment, and equals it if and only if both sides have the same share of tails |
| Gini.MetricRange | DT/src/eval_metrics.c:29-51 | a metric is -1 exactly without a right side or without tails, else it is in that range |
| Gini.ScalarMeetsGang | DT/src/eval_metrics_isp.c:22-40 | scalar and gang metric agree if and only if the segment has tails or the right side is empty |
| Search.Accumulate | DT/src/accumulate.c:4-75 | fills the buffer with maximal groups and cumulative counts by the code's rule, up to the next group that has no room |
| Search.CountsExact | DT/src/accumulate.c:32-69 | a candidate's counts are the tails and heads of everything up to its end |
| Search.RunExact | DT/src/search_j.c:86-142 | that stays so across all refills |
| Search.SidesLargeEnough | DT/src/accumulate.c:46-48 | in the first fill, a candidate that can split leaves the minimum number of cells on both sides |
| Search.SplittableExactly | DT/src/search_j.c:92-96 | two candidates appear if and only if the buffer holds two and the last admissible place holds another value than the first cell |
| Search.AlignedExactly | DT/src/accumulate.c:46-66 | in a first fill candidates end where the value changes, for all columns, if and only if the minimum partition size is at most 1 or at least 2^31 |
| Search.RunsAlignExactly | DT/src/search_j.c:86-142 | over all refills they do, for all columns and buffer sizes, if and only if the minimum partition size is 0 or at least 2^31 |
| Search.RefillMisaligns | DT/src/accumulate.c:22-23 | a column that shows it for a minimum of 1: after a refill the count of cells left starts too low |
| Search.EndIsPlace | DT/src/accumulate.c:46-68 | in one fill of the whole segment every candidate ends at an admissible place: both sides are large enough, the right one begins above the least value, and the value changes there, unless it is the first place that leaves enough on the left |
| Search.PlaceIsEnd | DT/src/accumulate.c:46-68 | and at every admissible place a candidate ends |
| Search.EvalMetrics | DT/src/eval_metrics.c:7-55 | each candidate gets its weighted impurity |
| Search.EvalMetricsGang | DT/src/eval_metrics_isp.c:3-42 | the same in a gang, for a segment with tails |
| Search.GiniOf | DT/src/eval_metrics.c:23-51 | the straight-line computation is the metric by its definition |
| Search.CalcBestMetric | DT/src/calc_best_metric.c:3-22 | the first of the greatest metrics |
| Search.CalcBestMetricGang | DT/src/calc_best_metric_isp.c:1-24 | of the places where the lanes of a gang first have the greatest metric, the last one; place 0 when all are the bad value |
| Lanes.PicksAgree | DT/src/calc_best_metric_isp.c:7-23 | the two picks agree if and only if all greatest metrics, unless they are the bad value, are in one lane |
| Search.SearchJ | DT/src/search_j.c:18-149 | in both builds: says whether the feature can be split, by an exact condition; if so, reports the pick of the first fill that holds a greatest metric, and with tails present never the bad value |
| Search.BuildsAgree | DT/src/search_j.c:105-126 | the scalar and the gang build report the same candidate of a run if and only if in the first fill with a greatest metric all its greatest ones, unless they are the bad value, are in one lane |
| Search.ChosenSplits | DT/src/search_j.c:127-135 | the reported split has cells on both sides, the four counts are those of the two sides, and without a refill both sides have the minimum size |
| Search.NoRefill | DT/src/search_j.c:136-141 | a buffer as large as the segment is filled once |
| Search.Search | DT/src/search.c:13-87 | splittable if and only if some feature is; the first feature with the greatest metric, in whatever order the features are searched |
| Tree.AddLeft | DT/src/split.c:126-134 | appending a left child keeps every invariant of the tree |
| Tree.AddRight | DT/src/split.c:150-158 | appending a right child keeps them too, the rows of both children being disjoint, together the parent's, and separated by a feature value |
| Tree.FinishedLater | DT/src/split.c:136-161 | a finished node stays finished while the tree grows elsewhere |
| Tree.CheckTree | DT/src/check_tree.c:22-96 | the check accepts exactly the trees whose every node passes |
| Tree.TreePasses | DT/src/check_tree.c:34-83 | a grown tree passes if and only if its root has the minimum number of rows; parents precede children |
| Tree.ChildrenAddUp | DT/src/split.c:126-158 | a node with both children has exactly their tails and heads |
| Tree.DepthsGrow | DT/src/check_tree.c:71-82 | depths stay between 0 and the limit |
| Tree.BestWhereItFits | DT/src/split.c:71-161 | a node that has a child and whose rows fit the candidate buffer has been divided at a best cut, its children having the tails and heads of the two sets of rows |
| Cuts.CountRows | DT/src/check.c:169-190 | counting cells of a segment is counting its rows, in every column |
| Builder.CanSplitRows | DT/src/search_j.c:46-96 | whether a column can be split depends on its rows and their values only |
| Cuts.SplitsBelow | DT/src/split.c:78-81 | in the splitting column the rows below the split have no greater values than those above; they are disjoint and together the segment |
| Cuts.PlaceIsAdmissible | DT/src/accumulate.c:46-68 | the places of a column are the admissible cuts of its rows, said of rows and values only |
| Cuts.FeatureBest | DT/src/search_j.c:18-149 | for a buffer as large as the segment: the cut reported for a feature is admissible, no admissible cut of the feature has a greater weighted impurity, and in the scalar build those before it have a smaller one |
| Cuts.DividesAtBest | DT/src/search.c:13-87 | so where such a set of rows is divided, it is at an admissible cut of some feature such that no admissible cut of any feature has a greater weighted impurity of the two sets of rows, and all cuts of earlier features have a smaller one |
| Cuts.SmallLimitStrict | DT/src/accumulate.c:46-68 | with a minimum partition size of at most 1 every admissible cut has smaller values on the left than on the right |
| Cuts.NoLimitStrict | DT/src/search_j.c:86-142 | with a minimum of 0 so has every division that is reported, whatever the buffer size |
| Builder.SegmentOutside | DT/src/split.c:135-162 | a step on one segment leaves every other segment's rows and order alone |
| Builder.EndsDiffer | DT/src/split.c:95 | the first and last cell of a segment with a split differ |
| Builder.Builder.ReorderColumn | DT/src/split.c:98-121 | one column brought into the order of the splitting one, invariants kept |
| Builder.Builder.SplitColumns | DT/src/split.c:82-122 | whatever order the threads take the columns in, all columns afterwards hold the same two sets of rows in the two halves, each half in rank order; nothing outside the segment moves |
| Builder.Builder.FindSplit | DT/src/split.c:71-76 | in both builds: a split is found if and only if some feature divides the rows; then the two sets of rows and the counts are those that the search reported for the first feature of greatest metric |
| Builder.Builder.Split | DT/src/split.c:20-169 | every recursive call keeps the column and tree invariants; afterwards every node below is finished: it may not have children, or its rows have been divided into the two sets that the search reported, and the children are those large enough |
| Builder.Builder.GrowChildren | DT/src/split.c:125-166 | a child for each half that is large enough while there is room, each split in turn |
| Builder.Build | DT/src/main.c:100-142 | the whole run from raw data: all invariants; every divisible node is divided as the search reported, at a best cut of all features where its rows fit the candidate buffer; the final check passes if and only if there are enough rows |
| ArmBits.Imm12Exact | QJIT/LuaJIT-2.1.0-beta3/dynasm/dasm_arm.h:168-174 | an encoding that is returned decodes to the operand; one is found whenever there is one, with least rotation |
| ArmBits.BranchReadsBack | QJIT/LuaJIT-2.1.0-beta3/dynasm/dasm_arm.h:378-380 | for every int, the processor reads the distance back from the patched branch if and only if the range check accepts it; the other bits are kept |
| ArmBits.Load12ReadsBack | QJIT/LuaJIT-2.1.0-beta3/dynasm/dasm_arm.h:384-386 | an offset or-ed into a clear field is read back, for every int, if and only if it lies strictly between -4096 and 4096, and then the other bits are kept |
| ArmBits.Load8ReadsBack | QJIT/LuaJIT-2.1.0-beta3/dynasm/dasm_arm.h:381-383 | the same between -256 and 256, for the split field |
| ArmBits.LoadVReadsBack | QJIT/LuaJIT-2.1.0-beta3/dynasm/dasm_arm.h:387-391 | and for the word offsets of the coprocessor form, between -256 and 256 words |
| LabelChains.TargetIs | QJIT/LuaJIT-2.1.0-beta3/dynasm/dasm_arm.h:212-242 | what a reference is resolved to, said without chains: the live definition for a backward one, else the next definition |
| LabelChains.WaitsOrHasTarget | QJIT/LuaJIT-2.1.0-beta3/dynasm/dasm_arm.h:221-231 | a reference is in exactly one chain, its label's, until it has a target |
| LabelChains.AnchorSign | QJIT/LuaJIT-2.1.0-beta3/dynasm/dasm_arm.h:214-228 | an anchor is negative exactly for a live label and positive exactly when somebody waits |
| LabelChains.LinkRef | QJIT/LuaJIT-2.1.0-beta3/dynasm/dasm_arm.h:221-231 | storing a reference keeps all chains right |
| LabelChains.LinkDef | QJIT/LuaJIT-2.1.0-beta3/dynasm/dasm_arm.h:236-241 | defining a label answers everyone who waits for it and touches nobody else |
| Layout.PadAligns | QJIT/LuaJIT-2.1.0-beta3/dynasm/dasm_arm.h:369-371 | the padding of pass 3 leads to the nearest aligned word |
| Layout.AlignCorrection | QJIT/LuaJIT-2.1.0-beta3/dynasm/dasm_arm.h:319 | the correction of pass 2 makes the estimate after an alignment the true offset |
| Feed.RecordRef | QJIT/LuaJIT-2.1.0-beta3/dynasm/dasm_arm.h:212-231 | a recorded reference keeps cells, sections and history in agreement |
| Feed.RecordDef | QJIT/LuaJIT-2.1.0-beta3/dynasm/dasm_arm.h:232-242 | so does a recorded label |
| Fixing.FixLabel | QJIT/LuaJIT-2.1.0-beta3/dynasm/dasm_arm.h:321 | pass 2 turns a label's estimate into its true offset |
| Fixing.CorrectOn | QJIT/LuaJIT-2.1.0-beta3/dynasm/dasm_arm.h:310-327 | at every action, estimate plus correction is the true offset |
| Fixing.AllLaid | QJIT/LuaJIT-2.1.0-beta3/dynasm/dasm_arm.h:303-333 | after pass 2 every label cell holds its true offset; references to undefined globals are marked, from label number 20 on |
| Immediates.ImmediateReadsBack | QJIT/LuaJIT-2.1.0-beta3/dynasm/dasm_arm.h:397-412 | for every kind of immediate, an argument that pass 1 accepts is read back by the processor from the patched word if and only if the fields of its kind have room for it, and then all other bits are kept |
| Immediates.UsualReadsBack | QJIT/LuaJIT-2.1.0-beta3/dynasm/dasm_arm.h:243-266 | with the field widths that occur in action lists, the check of pass 1 is enough for that |
| Emission.CodeLength | QJIT/LuaJIT-2.1.0-beta3/dynasm/dasm_arm.h:351-422 | as many words come out as the layout says |
| Emission.RelocationReadsBack | QJIT/LuaJIT-2.1.0-beta3/dynasm/dasm_arm.h:377-412 | in each form, a distance that passes the range check is read back from a word whose field was clear if and only if it is not one of the two ends of a load's range |
| Emission.LabelOffsetTrue | QJIT/LuaJIT-2.1.0-beta3/dynasm/dasm_arm.h:393-396 | a label's cell is the number of bytes emitted in front of it |
| Emission.RefHolds | QJIT/LuaJIT-2.1.0-beta3/dynasm/dasm_arm.h:372-376 | a reference cell holds a mark exactly for an undefined global numbered 20 or more, else a position that can be read: the true offset of the label it is resolved to, if there is one |
| Emission.BranchReachesLabel | QJIT/LuaJIT-2.1.0-beta3/dynasm/dasm_arm.h:372-412 | a resolved reference: the encoder reports exactly the distances that are out of reach; else it changes the last word alone, and the processor arrives at the label if and only if the distance is not one of the two ends of a load's range |
| Emission.WordEmitted | QJIT/LuaJIT-2.1.0-beta3/dynasm/dasm_arm.h:365-371 | a word comes out as it is, escaped or not; padding is no-operations up to the nearest aligned word; labels emit nothing |
| Emission.ImmediateEmitted | QJIT/LuaJIT-2.1.0-beta3/dynasm/dasm_arm.h:397-412 | the argument given to dasm_put is what the processor finds in the emitted word, if and only if the fields of its kind have room for it; nothing else of the code changes |
| Emission.ExternalEmitted | QJIT/LuaJIT-2.1.0-beta3/dynasm/dasm_arm.h:366-368 | a relocation to an external symbol stands for the distance that the callback has given, under the conditions of any other relocation |
| Emission.UnansweredReported | QJIT/LuaJIT-2.1.0-beta3/dynasm/dasm_arm.h:294-301 | a reference without a definition is reported if and only if its label is a global numbered 20 or more; else the cell of another waiting reference, or cell 0, is taken for the label's |
| Emission.UndefinedStops | QJIT/LuaJIT-2.1.0-beta3/dynasm/dasm_arm.h:372-376 | in every run, a missing checked global always stops pass 3, which otherwise can only be stopped by a distance out of reach |
| Emission.EarlyGlobalMissed | QJIT/LuaJIT-2.1.0-beta3/dynasm/dasm_arm.h:296 | an input: a branch to global 10, which nothing defines, is encoded without complaint as a branch to the start of the code |
| Feed.PositionsFit | QJIT/LuaJIT-2.1.0-beta3/dynasm/dasm_arm.h:45-49 | positions of all sections fit the C int they are kept in if and only if there are at most 128 sections; the first of section 128 is -2^31 |
| DynAsm.Dasm.constructor | QJIT/LuaJIT-2.1.0-beta3/dynasm/dasm_arm.h:86-153 | with at most 128 sections, an empty assembler with all labels undefined |
| DynAsm.Dasm.Collapse | QJIT/LuaJIT-2.1.0-beta3/dynasm/dasm_arm.h:238 | the walk along a chain overwrites every link and nothing else, and ends |
| DynAsm.Dasm.PutAction | QJIT/LuaJIT-2.1.0-beta3/dynasm/dasm_arm.h:198-268 | one action of pass 1: its cell, its label event and its growth are recorded; the status is that of its check, a backward reference to a local label being refused exactly without a live definition |
| DynAsm.Dasm.Put | QJIT/LuaJIT-2.1.0-beta3/dynasm/dasm_arm.h:177-274 | the status is that of the first check that fails along the put, if any, or else that of the section it switches to; a put that succeeds gives the active section exactly its actions, extends the history by its labels and references, and switches section if it ends so |
| DynAsm.Dasm.LinkSection | QJIT/LuaJIT-2.1.0-beta3/dynasm/dasm_arm.h:304-329 | pass 2 over a section fixes its labels with the running correction |
| DynAsm.Dasm.MarkGlobals | QJIT/LuaJIT-2.1.0-beta3/dynasm/dasm_arm.h:294-301 | references to globals nobody defined are marked, from index 20 on |
| DynAsm.Dasm.Link | QJIT/LuaJIT-2.1.0-beta3/dynasm/dasm_arm.h:278-334 | fails if and only if a put has failed or somebody waits for a pc label; else all labels have their true offsets, the code size is right, and pass 3 can follow |
| DynAsm.Dasm.EncodeAction | QJIT/LuaJIT-2.1.0-beta3/dynasm/dasm_arm.h:359-415 | one action of pass 3 emits what the specification says, or fails as it does; what that means for words, immediates and relocations is said by the lemmas on emission |
| DynAsm.Dasm.Encode | QJIT/LuaJIT-2.1.0-beta3/dynasm/dasm_arm.h:344-423 | after any link that succeeded: emits exactly codesize bytes, the specified ones; fails only for a missing checked global or a distance out of reach, never with a phase error |
| MemUsed.StepInv | QJIT/GUTILS/src/mod_mem_used.c:56-169 | every step of every thread keeps the invariant |
| MemUsed.RunSafe | QJIT/GUTILS/src/mod_mem_used.c:56-169 | in every reachable state at most one thread is between lock and unlock, its unlock succeeds, usage is within its limit and is the sum applied modulo 2^64 |
| MemUsed.Uncontended | QJIT/GUTILS/src/mod_mem_used.c:56-145 | one uncontended call: an increment is applied exactly when the sum, modulo 2^64, is within the limit, and a decrement exactly when that much is in use; a refused call changes nothing |
| MemUsed.SumExactWhen | QJIT/GUTILS/src/mod_mem_used.c:65-70 | usage is the plain sum in every run if and only if the limit plus the largest single request stays below 2^64 |
| LuaState.StepInv | QJIT/GUTILS/src/lua_state.c:6-57 | every step keeps the invariant |
| LuaState.RunSafe | QJIT/GUTILS/src/lua_state.c:23-57 | at most one owner in every reachable state, whose release succeeds |
| Graphs.SettledIsLeast | GRAPH/CONN_COMP/src/conn.c:70-91 | labels that agree along edges and never exceed their vertex are the least vertices of the components |
| Graphs.SumDrops | GRAPH/CONN_COMP/src/conn.c:53 | lowering any label lowers the sum, which bounds the number of passes |
| Hooking.RootKept | GRAPH/CONN_COMP/src/conn.c:115-130 | pointing a vertex at its root changes nobody's root |
| Hooking.HookBlock | GRAPH/CONN_COMP/src/conn.c:70-91 | a block of pairs keeps labels sound, and each change lowers their sum |
| Hooking.JumpAll | GRAPH/CONN_COMP/src/conn.c:93-134 | after jumping every vertex points at its root |
| Hooking.JumpKeeps | GRAPH/CONN_COMP/src/conn.c:93-134 | jumping keeps labels sound and pairs that agree in agreement |
| Hooking.NoBlocks | GRAPH/CONN_COMP/src/conn.c:54-55 | the block count is zero, and divides, exactly for fewer than two edges per vertex |
| Hooking.ReadsInside | GRAPH/CONN_COMP/src/conn.c:65-73 | no pair is read beyond the edge list if and only if the block size is even or the number of blocks is odd |
| Hooking.BlocksAligned | GRAPH/CONN_COMP/src/conn.c:65-73 | the pairs read have the components of the graph, for all edge lists of that length, if and only if the block size is even |
| Hooking.Pass | GRAPH/CONN_COMP/src/conn.c:53-136 | a pass without change has checked all pairs |
| Hooking.ConnectedComponents | GRAPH/CONN_COMP/src/conn.c:34-173 | for every edge list: when it divides by zero, when it reads beyond the list; else it terminates with the least vertex of its component as every vertex's label, in the graph of the pairs read, which for blocks of even size is the graph given |
| LabelPropagation.StepInv | GRAPH/CONN_COMP/src/conn_comp.c:47-62 | any thread's next read or write keeps labels sound |
| LabelPropagation.Pass | GRAPH/CONN_COMP/src/conn_comp.c:46-62 | under any interleaving a pass with a change lowers the sum, and one without leaves no edge to improve |
| LabelPropagation.ConnComp | GRAPH/CONN_COMP/src/conn_comp.c:35-64 | on a symmetric graph it ends with the least node of the component |
| Symmetric.StepSolves | OPERATORS/AX_EQUALS_B/src/positive_solver.c:38-49 | an elimination step neither gains nor loses solutions |
| Symmetric.SkipSolves | OPERATORS/AX_EQUALS_B/src/positive_solver.c:55-59 | a zero pivot is skipped rightly exactly if the rest of its row has product 0 with the rest of the answer |
| Symmetric.AnswerFits | OPERATORS/AX_EQUALS_B/src/positive_solver.c:11-70 | an answer solves the original system if and only if the skipped pivots, and the tolerance at the last one, did no harm |
| Pivoting.TrustedAnswers | OPERATORS/AX_EQUALS_B/src/positive_solver.c:11-70 | if the last pivot is not zero and the row of every zero pivot vanishes at the later non-zero pivots, every answer is right |
| Pivoting.Misses | OPERATORS/AX_EQUALS_B/src/positive_solver.c:11-70 | for every other matrix there is a right-hand side that is answered wrongly |
| Pivoting.SolveExact | OPERATORS/AX_EQUALS_B/src/positive_solver.c:11-70 | all answers for a matrix are right if and only if its last pivot is not zero and the row of every zero pivot vanishes at the later non-zero pivots |
| Symmetric.RegularSolved | OPERATORS/AX_EQUALS_B/src/positive_solver.c:11-70 | when the rest of the row and the right-hand side vanish wherever a pivot does, there is an answer and it is right |
| Symmetric.PivotsAreRegular | OPERATORS/AX_EQUALS_B/src/positive_solver.c:11-70 | non-zero pivots are such a case |
| Symmetric.ZeroPivotMisses | OPERATORS/AX_EQUALS_B/src/positive_solver.c:49 | the missing check of the row of a zero pivot: a system answered wrongly |
| Symmetric.TruncationMisses | OPERATORS/AX_EQUALS_B/src/positive_solver.c:23 | integer abs on a double: a right-hand side of 1/2 is accepted at a zero pivot |
| PositiveSolver.Eliminate | OPERATORS/AX_EQUALS_B/src/positive_solver.c:38-48 | whatever order the shares run in, the rows below become the Schur complement and the right-hand side the reduced one |
| PositiveSolver.SolveRec | OPERATORS/AX_EQUALS_B/src/positive_solver.c:11-70 | succeeds exactly when the specification has an answer, leaves it in x, and touches nothing outside its part |
| PositiveSolver.MultiplySymm | OPERATORS/AX_EQUALS_B/src/matrix_helpers.c:31-46 | the product is the right-hand side that x solves |
| PositiveSolver.TransposeAndMultiply | OPERATORS/AX_EQUALS_B/src/matrix_helpers.c:144-162 | the upper rows of all products of two columns |
| PositiveSolver.TransposeAndMultiplyVector | OPERATORS/AX_EQUALS_B/src/matrix_helpers.c:105-120 | the products of the columns with a vector |
| PositiveSolver.GramSolves | OPERATORS/AX_EQUALS_B/src/positive_solver.c:235-242 | solving with that matrix is satisfying the normal equations |
| NormalSystem.SchurIsGram | OPERATORS/AX_EQUALS_B/src/positive_solver.c:38-48 | an elimination step on a matrix of column products leaves the matrix of products of the projected columns |
| NormalSystem.ReducedIsProducts | OPERATORS/AX_EQUALS_B/src/positive_solver.c:38-48 | and the products of the projected columns with the same right-hand side |
| NormalSystem.NormalIsRegular | OPERATORS/AX_EQUALS_B/src/positive_solver.c:11-70 | so wherever a pivot of such a matrix vanishes, its row and right-hand side do too |
| PositiveSolver.SolveNormal | OPERATORS/AX_EQUALS_B/src/positive_solver.c:226-248 | for every square matrix, singular or not, it succeeds and x satisfies the normal equations |
| Spooky.MixedConcat | TMPL_FIX_HASHMAP/src/spooky_hash.c:372-387 | mixing two messages block by block is mixing their concatenation |
| Spooky.MixedOn | TMPL_FIX_HASHMAP/src/spooky_hash.c:351-409 | stash, filled up, then whole blocks, then the rest stashed: the state is that of the longer message |
| Spooky.Finished | TMPL_FIX_HASHMAP/src/spooky_hash.c:440-471 | what is mixed in at the end, from stash and variables, is what the one-shot hash mixes in |
| Spooky.InputsApart | TMPL_FIX_HASHMAP/src/spooky_hash.c:511-517 | whole blocks and padded rest tell which message it was: the length byte keeps apart what differs in trailing zeros only |
| Spooky.State.constructor | TMPL_FIX_HASHMAP/src/spooky_hash.c:301-312 | the state of the empty message |
| Spooky.State.Update | TMPL_FIX_HASHMAP/src/spooky_hash.c:314-411 | the state of the message grows by a fragment of any length |
| Spooky.State.Final | TMPL_FIX_HASHMAP/src/spooky_hash.c:413-476 | the hash of the message so far, with the seeds given here below 192 bytes, with those of the start otherwise; the stream can go on |
| Spooky.Hash128 | TMPL_FIX_HASHMAP/src/spooky_hash.c:478-521 | the one-shot hash |
| Spooky.HashPieces | TMPL_FIX_HASHMAP/src/spooky_hash.c:301-521 | however a message is cut, streaming gives its one-shot hash |
| CsvTrim.Trim | UTILS/DEPRECATED/src/trim.c:10-52 | the trimmed text fills the cleared buffer; it fails exactly without a final zero or on a buffer of one byte |
| CsvTrim.TrimmedIs | UTILS/DEPRECATED/src/trim.c:31-49 | trimming takes spaces off both ends, all of them, and nothing else |
| CsvTrim.TrimKeeps | UTILS/DEPRECATED/src/trim.c:23-35 | a text survives trimming if and only if it has no space at its ends and leaves room for a zero |
| CsvCell.GetCell | OPERATORS/LOAD_CSV/src/get_cell.c:12-115 | next position, error flag and whole buffer, for every file and position, trimmed or not, are those of the cell there; what that is for cells with and without quotes is said by the lemmas that read them back |
| CsvCell.QuotedScans | OPERATORS/LOAD_CSV/src/get_cell.c:69-111 | the scan of an escaped text followed by quote and separator |
| CsvCell.QuotedReadsBack | OPERATORS/LOAD_CSV/src/get_cell.c:55-93 | a printed string is read back, and the scan stops just past its separator, if and only if it fits the buffer |
| CsvCell.QuotedReadsBackFor | OPERATORS/LOAD_CSV/src/get_cell.c:55-93 | trimmed, if and only if it leaves one byte more and has no space at its ends |
| CsvFiles.UnquotedReadsBack | OPERATORS/LOAD_CSV/src/get_cell.c:63-110 | a cell without quotes, backslashes resolved: it is read back, with the reader behind its separator or at the end of the file, if and only if it fits the buffer; the error flag is raised exactly if a newline comes before the separator and the buffer is not full by then |
| CsvFiles.PlainSpells | OPERATORS/LOAD_CSV/src/get_cell.c:93-110 | a text without separator, backslash and newline stands for itself |
| CsvFiles.CellReads | OPERATORS/LOAD_CSV/src/get_cell.c:44-113 | a cell in any form, quoted, bare or a mark for a missing value: the reader takes its text, trimmed if asked, and goes on behind it, or finds that it does not fit |
| CsvPrint.PrintField | OPERATORS/PRINT/src/cprint.c:93-110 | the characters up to the first zero or the width, escaped, in quotes |
| CsvPrint.Print | OPERATORS/PRINT/src/cprint.c:53-153 | prints the table if and only if there is something to print and no value is in a column of width 1 or less |
| CsvLoad.LoadCell | OPERATORS/LOAD_CSV/src/load_csv_seq.c:97-175 | one cell stored in its place, or the failures of the code |
| CsvLoad.LoadCsvSeq | OPERATORS/LOAD_CSV/src/load_csv_seq.c:84-191 | rows, their number and the offset to go on from, for every file, offset, chunk size and choice of trimmed columns, are those of the specification, whose meaning for well-formed files FileRead states; columns not loaded are untouched |
| CsvLoad.RowsResume | OPERATORS/LOAD_CSV/src/load_csv_seq.c:177-191 | where a call stops inside the file its rows are complete, and a larger call reads the same rows there |
| CsvLoad.CutAnywhere | OPERATORS/LOAD_CSV/src/load_csv_seq.c:84-191 | two calls read what one reads, unless the first stops beyond the end of the file or, with a header, at its start |
| CsvLoad.CutExactly | OPERATORS/LOAD_CSV/src/load_csv_seq.c:82-88 | with the last column loaded they do if and only if the first does not stop beyond the end of the file |
| CsvLoad.BackslashAtEnd | OPERATORS/LOAD_CSV/src/get_cell.c:45-53 | a backslash at the end of a file is such a case |
| CsvLoad.AnyChunkSize | OPERATORS/LOAD_CSV/src/load_csv_seq.c:84-191 | a file read to its end in chunks gives what one large call gives |
| CsvLoad.FailsAlike | OPERATORS/LOAD_CSV/src/load_csv_seq.c:96-187 | a call that fails for few rows fails for more |
| CsvFiles.CellSlot | OPERATORS/LOAD_CSV/src/load_csv_seq.c:97-175 | a cell that fits is stored with its marker, or not at all in a column not loaded; the load fails exactly at a missing value in a column without any, or if the conversion does |
| CsvFiles.HeaderReads | OPERATORS/LOAD_CSV/src/load_csv_seq.c:110-124 | the header is passed over, whatever form its cells have |
| CsvFiles.FileRead | OPERATORS/LOAD_CSV/src/load_csv_seq.c:84-191 | every file of well-formed lines, with or without a header and a newline at its end, is read in chunks of any size as exactly the rows that its cells stand for |
| CsvFiles.ShortLineFails | OPERATORS/LOAD_CSV/src/get_cell.c:101-108 | a line with too few cells makes the load fail |
| CsvRoundTrip.ValueReturns | OPERATORS/LOAD_CSV/src/load_csv_seq.c:140-175 | a value comes back with its text, and byte for byte if and only if only zeros followed the text; the empty string comes back as missing |
| CsvRoundTrip.CellReturnsExactly | OPERATORS/LOAD_CSV/src/load_csv_seq.c:97-175 | a printed value comes back, with the reader behind it, if and only if it fits the buffer, has no space at its ends where cells are trimmed, and is not empty where no value may be missing |
| CsvRoundTrip.RoundTrip | OPERATORS/PRINT/src/cprint.c:53-153 | what is printed, read in chunks of any size, gives the values that were printed |
| Vectors.Vec.constructor | experimental/cuda_files/Q_RUNTIME_src_core_vec.c:575-655 | an empty vector |
| Vectors.Vec.Memo | experimental/cuda_files/Q_RUNTIME_src_core_vec.c:793-818 | allowed exactly before the first flush and before the end |
| Vectors.Vec.FlushBuffer | experimental/cuda_files/Q_RUNTIME_src_core_vec.c:203-225 | a full chunk goes to the file; file plus chunk are still what was appended |
| Vectors.Vec.Add | experimental/cuda_files/Q_RUNTIME_src_core_vec.c:1093-1144 | appends any number of elements: file contents and live part of the chunk are everything appended, and the element count is chunks times chunk size plus live elements |
| Vectors.Vec.Eov | experimental/cuda_files/Q_RUNTIME_src_core_vec.c:1292-1329 | afterwards the file of a memoised vector holds everything appended |
| Vectors.Vec.ServeChunk | experimental/cuda_files/Q_RUNTIME_src_core_vec.c:949-960 | a request met from memory gives the elements asked for if and only if it does not begin beyond the last element |
| Vectors.Vec.RequestMet | experimental/cuda_files/Q_RUNTIME_src_core_vec.c:863-983 | exactly which requests are met, in terms of what was appended: in the chunk in memory those that stay inside the chunk; elsewhere only of a memoised vector, after the end those that begin at an element or ask for all if there is one, before the end whole earlier chunks given a buffer |
| Vectors.Vec.Get | experimental/cuda_files/Q_RUNTIME_src_core_vec.c:842-1013 | requests are met from memory, file or copy as RequestMet says; those met from the file or copied from it give the elements asked for, before and after the end of the vector; those met from memory exactly if they begin within the vector |
| BitVectors.PutBit | experimental/cuda_files/Q_RUNTIME_src_core_vec.c:1064-1071 | setting or clearing a bit changes that bit only |
| BitVectors.MaskIsShift | experimental/cuda_files/Q_RUNTIME_src_core_vec.c:1064-1070 | the masks and tests by shifting are those of the model |
| BitVectors.BitVec.AddBytes | experimental/cuda_files/Q_RUNTIME_src_core_vec.c:1026-1051 | byte-aligned appends |
| BitVectors.BitVec.AddBits | experimental/cuda_files/Q_RUNTIME_src_core_vec.c:1053-1085 | bit-by-bit appends |
| BitVectors.BitVec.Add | experimental/cuda_files/Q_RUNTIME_src_core_vec.c:1015-1091 | both ways append the same bits: the first len bits of the source |

## Left out

Deliberately weaker than the source, or with a condition:

- GetCell: bytes past the end of the file read as zero; the C locale decides what a space is.
- FileRead: files with cells that do not fit the buffer or are malformed are described by the specification of the loader only; the reader goes back to the start of the file there.
- LoadCsvSeq: the argument checks and the file mapping; a chunk size of 0; the conversion of a cell's text to binary is a parameter.
- Print: string columns without HTML only; the other column types and output formats.
- Put: in the assembler it is the checked build; a put needs the status of the previous ones to be good and room for its cells below 2^24 per section; after a failed put only its status is described, and that the link fails.
- Link: the array of global addresses, the growth of buffers and of the pc labels, dasm_getpclabel and dasm_checkstep are not modelled; sections' cells are one map by biased position.
- Encode: action words are decoded actions; the alignment mask is a power of two minus one, up to 255; a patching action follows a word, as in everything the preprocessor emits.
- Resize: which items a size too small loses.
- MPut: no key of the batch is the all-zero key, which in this map is the null pointer of length 0 that hmap_get rejects (a key of zero bytes is another one); the batch fits below the high-water mark, so that no put resizes.
- CalcNewSize: prime_geq is only assumed to return a larger number, below 2^32 - 1 for arguments up to 2^32 - 5, or 1 for arguments up to 1; primality and its termination are not modelled.
- QSortAsc: at most 32768 elements, where the 16-bit positions are right; the byte-wise rotation moves whole elements.
- PreprocJ: fewer than 2^31 rows; the C library's sort may pick any sorted permutation.
- SearchJ: accumulate's early return for an empty range, the error returns that its callers exclude, and the statistics counter.
- Build: for a node with more rows than the candidate buffer has places, the cut is the one that the search reports over its refills, and is not claimed to be the best of all.
- Split: the fields yidx, yval and xval of a node, which the code never writes; check, which runs only when debugging, appears as the invariants it tests.
- CheckTree: the comparison of the number of swaps in sequential builds, and printing.
- RunSafe: return codes, because the status of a refused request is overwritten by the unlock that follows it; reads of the counters outside the lock; GUTILS code that changes the counters without the lock.
- ConnectedComponents: what happens after a read beyond the edge list; reading and writing files, and the condensing step, whose result is thrown away.
- ConnComp: the graph lists both directions of every edge.
- SolveNormal: square matrices, stored by columns; the copying and checking variants are not modelled.
- Update: the message length is not limited to 64 bits.
- Get: in the vector, 32-bit overflow of index plus length, truncation of the chunk number to 32 bits, and bit vectors; in the hash map, probe sequence lengths are not limited to 16 bits.
- Eov: not modelled for bit vectors; writing a partial chunk of bits depends on buf_to_file, which is not part of this model.
- Add: for bit vectors, the checks that vec_add makes before it calls vec_add_B1.

Not modelled at all:

- The variant hash map with keys of variable length differs from the fixed one in copying keys and in taking the hash as an argument; it is the same class here, and freeing memory is left out.
- Hash functions (fasthash, murmur), SpookyHash's mixing and short hash: parameters.
- Server, command line, Lua bindings, sessions, configuration files: no algorithm beside plumbing.
- vec_start_write, vec_end_write, vec_set, vec_persist, vec_clone and virtual vectors; freezing and unfreezing of hash maps: file handling.
- Statistics and learning operators (KNN, LASSO, PCA, logistic regression): numerics where rounding is the point.
- Other quicksort copies, other processors' assemblers, the hash map with variable-length values: near duplicates.
- The builder's choice of split takes the largest weighted impurity, that is, the least informative candidate; the model states which one is taken, not that it is a good one.
