# methylFlow flow-graph core, modelled in Dafny

This project models the flow-graph operations in `mflib/MFGraph_solve.cpp` of
methylFlow: `add_terminals`, `calculate_median`, `normalize_coverage`,
`regularize`, the control flow of `solve`, and `decompose`. It states and
proves what each of them does to the graph.

The graph is the class `MFGraphSolve.MFGraph`. Its node maps are sequences
indexed by node id: the read, the coverage, the normalized coverage and the
`childless`, `parentless` and `fake` flags. Its arc table is a sequence
indexed by arc id. An erased arc stays in the table as `None`, so arc ids
never shift. `State()` packs the fields into the value `FlowGraph.Graph`.

Each operation is a method that updates the fields in place. Each method is
proved against a closed-form function of the old state:

| operation | closed form |
|---|---|
| `add_terminals` | `Terminals.WithTerminals` |
| `normalize_coverage` | `Normalize.Normalized` |
| `regularize` | `Regularize.Regularized` |
| one round of `decompose` | `Decompose.Decremented` and `Decompose.MergedTails` |

Lemmas about those functions state the properties the code promises.

Files:

- `flow_graph.dfy`: reads, arcs, the graph value, the degree counts (`countInArcs`/`countOutArcs`) and walks.
- `terminals.dfy`: `add_terminals` as a function, with the rightmost and leftmost starts and the source and sink arcs.
- `median.dfy`: `calculate_median` and the sort it relies on.
- `normalize.dfy`: the queue loop of `normalize_coverage` as a step function, and the final scaling.
- `normalize_groups.dfy`: what that loop computes on a queue that yields nodes group by group.
- `regularize.dfy`: `regularize` as a function, and the loop's per-arc step.
- `widest_path.dfy`: the min-max path search, specified by its postcondition.
- `decompose.dfy`: one round of `decompose`, with pattern records and thresholds.
- `mfgraph.dfy`: the class with its methods.

### Modelling choices

- **Iteration order.** Node index order stands for the order of LEMON's node iterator, and arc id order for the order of the sink's in-arc iterator. LEMON's list graph visits the newest node first, while the model appends a new node last. This does not change any result: every node added before a loop over the nodes (the source, at line 43, before the loops at lines 45 and 53; the sink, at line 51, before the loop at line 53) has no flag set when that loop reaches it. Among the results of those two loops, only the tie-breaking among equal starts depends on the order. In `regularize` the order of the sink's in-arc iterator (line 171) decides which new node replaces which arc into the sink. LEMON's list graph puts each new arc at the head of a node's in-arc list, so it visits the newest in-arc first, while `Regularize.Retargeted` gives node n + k to the k-th in-arc in id order. The resulting graph is the same up to renaming the new nodes.
- **New nodes and arcs.** A new node has no flags set and normalized coverage 0. A new arc has flow 0.
- **`normalize_coverage`.** The order in which the priority queue yields nodes is a parameter. A queue entry that is not a node of the graph stands for an erased node and is skipped, as line 99 skips it.
- **`decompose`.** The initial total flow is a parameter. `Decompose.Pattern` represents a pattern as the source's read plus the nodes whose reads were merged into it, in order.
- **Line 137.** The flag `bareIf` of `Normalize.Step` selects between the bare `if` as written (`true`) and the evidently intended `else if` (`false`). The class method uses the code as written; see "Findings".

### Behaviour of `normalize_coverage` worth knowing

- **Group order.** The code takes nodes in descending start order. It opens a new group on a smaller start (line 112) and gives up on a larger one (lines 140-143).
- **Scaling raw coverage.** Scaling every raw coverage by a constant k does not leave the final normalized coverage unchanged. The per-group shares stay the same, but the median of the group totals, and with it every final value, scales by k.
- **Line 137.** Take three nodes with starts 10, 10 and 20 and coverage 4, 6 and 5. With `else if` at line 137 they would end at `[3, 4.5, 7.5]`. As written they end at `[19/7, 57/14, 9.5]`. See "Findings".

## Model

| member | source | states |
|---|---|---|
| FlowGraph.CountZero | mflib/MFGraph_solve.cpp:19 | a node's out-count (in-count) is zero exactly when no live arc leaves (enters) it: the test the terminal loops use |
| Terminals.RightMost | mflib/MFGraph_solve.cpp:13-28 | the first loop's rightMostStart and rightMostEnd over the first k nodes: the start never drops below -1, and while it is -1 the end is -1 too |
| Terminals.LeftMost | mflib/MFGraph_solve.cpp:30-39 | the second loop's leftMostStart over the first k nodes, seeded with init: it never rises above init |
| Terminals.RightMostIsGreatest | mflib/MFGraph_solve.cpp:13-28 | rightMostStart is the greatest start among nodes that no arc leaves and that have a read, and the first such node holding it supplies rightMostEnd; both stay -1 when there is none above -1 |
| Terminals.LeftMostIsLeast | mflib/MFGraph_solve.cpp:30-39 | leftMostStart is the least of rightMostStart and the starts of parentless nodes with a read, and is one of them |
| Terminals.WithTerminals | mflib/MFGraph_solve.cpp:11-59 | the graph after add_terminals stays well formed, with exactly two more nodes |
| Terminals.SourceArcsShape | mflib/MFGraph_solve.cpp:45-49 | every source arc leaves the source, enters a flagged node, carries no flow and weighs that node's start minus the source's start |
| Terminals.SinkArcsShape | mflib/MFGraph_solve.cpp:53-58 | every sink arc enters the sink, leaves a flagged node, carries no flow and weighs the sink's start minus that node's start |
| Terminals.SourceArcsCount | mflib/MFGraph_solve.cpp:45-49 | the source loop adds exactly one arc source -> v per parentless v and no other arc |
| Terminals.SinkArcsCount | mflib/MFGraph_solve.cpp:53-58 | the sink loop adds exactly one arc v -> sink per childless v and no other arc |
| Terminals.TerminalArcCounts | mflib/MFGraph_solve.cpp:41-58 | the old arcs stay in place; each old node gets one source arc iff it is parentless and one sink arc iff it is childless, and no arc in the other direction |
| Terminals.TerminalsConnectAll | mflib/MFGraph_solve.cpp:17-58 | afterwards every old node has at least one arc in and one arc out |
| Terminals.SourceWeights | mflib/MFGraph_solve.cpp:45-49 | on an unflagged graph every source arc leaves the source and weighs at least 1, since the source starts one base before the leftmost parentless read |
| Terminals.SinkWeights | mflib/MFGraph_solve.cpp:53-58 | on an unflagged graph every sink arc enters the sink and weighs at least 0, since the sink starts at the rightmost childless read |
| Terminals.TerminalWeights | mflib/MFGraph_solve.cpp:41-58 | on an unflagged graph every source arc weighs at least 1 and every sink arc at least 0 |
| MFGraphSolve.MFGraph.AddNode | mflib/MFGraph_solve.cpp:174 | addNode appends a node with the given read and coverage, no flag set and normalized coverage 0, and returns the old node count as its id |
| MFGraphSolve.MFGraph.FlagChildless | mflib/MFGraph_solve.cpp:17-28 | the first loop sets the childless flags of ChildlessFlags and returns RightMost's start and end |
| MFGraphSolve.MFGraph.FlagParentless | mflib/MFGraph_solve.cpp:30-39 | the second loop sets the parentless flags of ParentlessFlags and returns LeftMost from rightMostStart |
| MFGraphSolve.MFGraph.AddSourceArcs | mflib/MFGraph_solve.cpp:45-49 | the loop appends exactly SourceArcs over all nodes, the source included |
| MFGraphSolve.MFGraph.AddSinkArcs | mflib/MFGraph_solve.cpp:53-58 | the loop appends exactly SinkArcs over all nodes, both terminals included |
| MFGraphSolve.MFGraph.AddSource | mflib/MFGraph_solve.cpp:41-49 | the source is a new fake node with the given read and coverage 0, followed by its arcs |
| MFGraphSolve.MFGraph.AddSink | mflib/MFGraph_solve.cpp:50-58 | the sink is a new fake node with the given read and coverage 0, followed by its arcs |
| MFGraphSolve.MFGraph.AddTerminals | mflib/MFGraph_solve.cpp:11-59 | the new state is WithTerminals of the old one, with source N and sink N + 1 |
| Median.Median | mflib/MFGraph_solve.cpp:61-73 | calculate_median: the middle of the sorted copy, or the mean of its two middle values; it lies between the least and the greatest value of the vector |
| Median.SortSorted | mflib/MFGraph_solve.cpp:65 | the sorted copy is in ascending order |
| Median.SortPermutes | mflib/MFGraph_solve.cpp:65 | the sorted copy holds exactly the caller's values, with multiplicity |
| Median.MedianOfSorted | mflib/MFGraph_solve.cpp:61-73 | on ascending input, the median is the middle value for an odd size and the mean of the two middle values for an even size |
| Normalize.Step | mflib/MFGraph_solve.cpp:97-143 | one node off the queue: the loop gives up exactly when the node starts after the open group; otherwise the node belongs to the open group, which starts where it does; at most one group total is recorded, appended to the earlier ones |
| Normalize.Normalized | mflib/MFGraph_solve.cpp:76-164 | the map and flag normalize_coverage leaves for a pop order: one entry per node, and is_normalized stays unset exactly when some node starts after the group open when it is popped |
| Normalize.InvalidSkipped | mflib/MFGraph_solve.cpp:97-99 | queue entries that are not nodes change nothing: the loop acts as on the queue without them |
| Normalize.AbortPoint | mflib/MFGraph_solve.cpp:137-143 | when the loop gives up, it does so at the first node whose start lies after the current group's; the state is the one from before that node, and later entries are never looked at |
| Normalize.DrainConcat | mflib/MFGraph_solve.cpp:93-144 | draining two queues one after the other equals draining their concatenation |
| NormalizeGroups.GroupTotal | mflib/MFGraph_solve.cpp:105-139 | every recorded group total is positive, so no division is by zero |
| NormalizeGroups.DrainGroups | mflib/MFGraph_solve.cpp:93-144 | on a queue yielding groups of strictly decreasing start, the loop never gives up; it records one total per group and leaves the last group open with its start, total and members |
| NormalizeGroups.SharesAt | mflib/MFGraph_solve.cpp:112-154 | every node of group g ends the loop with its coverage over g's total; a node in no group keeps its entry |
| NormalizeGroups.NormalizedGroups | mflib/MFGraph_solve.cpp:76-164 | normalize_coverage sets is_normalized and leaves every node's share scaled by the median of all group totals |
| NormalizeGroups.AbortedGroups | mflib/MFGraph_solve.cpp:112-143 | when a node starting after the open group's start follows the groups, normalize_coverage gives up with is_normalized unset; every closed group keeps its coverage over its total, unscaled, the open group's members keep their old entries, and the rest of the queue is never looked at |
| NormalizeGroups.GroupSharesSum | mflib/MFGraph_solve.cpp:112-139 | with `else if` at line 137, each group's shares add up to 1; as written, those of every group after the first add up to less than 1 |
| NormalizeGroups.ScenarioShares | mflib/MFGraph_solve.cpp:105-154 | on the three-node example, the shares and group totals under either reading of line 137 |
| NormalizeGroups.ScenarioAsWritten | mflib/MFGraph_solve.cpp:137-139 | as written, the three-node example ends at [19/7, 57/14, 9.5] |
| NormalizeGroups.ScenarioIntended | mflib/MFGraph_solve.cpp:137-139 | with `else if`, the same example ends at [3, 4.5, 7.5] |
| MFGraphSolve.MFGraph.DivideMembers | mflib/MFGraph_solve.cpp:121-127 | the loop over current_nodes leaves normalized equal to Divide over the group: each member's coverage over the group total, every other entry kept |
| MFGraphSolve.MFGraph.ScaleAll | mflib/MFGraph_solve.cpp:161-163 | the loop over the nodes leaves normalized equal to Scaled: every entry multiplied by the median |
| MFGraphSolve.MFGraph.TakeNode | mflib/MFGraph_solve.cpp:94-143 | the body of the queue loop for one node equals Step with the bare `if` |
| MFGraphSolve.MFGraph.NormalizeCoverage | mflib/MFGraph_solve.cpp:76-164 | normalized becomes Normalized's map; is_normalized is set on completion and left as it was when the loop gives up |
| Regularize.Regularized | mflib/MFGraph_solve.cpp:167-182 | the graph after regularize stays well formed, and its nodes and arcs each grow by the sink's in-degree |
| Regularize.RetargetedShape | mflib/MFGraph_solve.cpp:171-178 | only arcs into the sink change tail, to the k-th new node in arc id order; heads, weights and flows are kept |
| Regularize.RegularizedCounts | mflib/MFGraph_solve.cpp:167-182 | the sink keeps its in-degree, and each new node has no read, one arc in and one arc out |
| Regularize.LambdaAt | mflib/MFGraph_solve.cpp:171-176 | the k-th arc u -> sink yields the k-th new arc, u -> n + k with weight 1 and no flow |
| Regularize.ReroutedThroughLambda | mflib/MFGraph_solve.cpp:171-178 | each k-th arc u -> sink becomes u -> n + k -> sink: the old arc keeps its place and now leaves n + k, and new arc k joins u to n + k |
| Regularize.SinkFedByLambdas | mflib/MFGraph_solve.cpp:167-182 | afterwards every arc into the sink leaves a new read-less node, and every other old arc is unchanged |
| Regularize.Reroute | mflib/MFGraph_solve.cpp:174-180 | one loop turn keeps the graph well formed |
| Regularize.RegularizeStep | mflib/MFGraph_solve.cpp:171-181 | the loop turn for arc j is Reroute for an arc into the sink, and nothing otherwise |
| MFGraphSolve.MFGraph.Regularize | mflib/MFGraph_solve.cpp:167-182 | the new state is Regularized of the old one |
| MFGraphSolve.MFGraph.Solve | mflib/MFGraph_solve.cpp:184-215 | the graph is regularized, and the solver's code is returned: non-zero as it is, otherwise 0 |
| WidestPath.MaxResidualIsBottleneck | mflib/MFGraph_solve.cpp:233-258 | a walk's largest residual is total_flow minus its smallest flow, so path_flow is the path's bottleneck |
| WidestPath.BottleneckAttained | mflib/MFGraph_solve.cpp:257-258 | the bottleneck is at most every flow on the path and equals one of them |
| WidestPath.Reach | mflib/MFGraph_solve.cpp:247-252 | every node reached from the source has a simple walk whose residuals stay within the threshold, and the reached set is closed under such arcs |
| WidestPath.WidestPath | mflib/MFGraph_solve.cpp:247-258 | the search returns a simple source-to-sink walk whose largest residual is least over all walks, or an empty path and distance 0 when the sink is out of reach |
| Decompose.Decremented | mflib/MFGraph_solve.cpp:267-285 | the arc table after one round: only flows change, no erased arc comes back, and an arc that changed is on the path and is either erased or holds at least 0.001 |
| Decompose.ApplyClosedForm | mflib/MFGraph_solve.cpp:267-285 | the loop over a path without a repeated arc lowers each path arc whose tail has a read, leaves every other arc alone, and merges exactly MergedTails |
| Decompose.MergedTailsOfWalk | mflib/MFGraph_solve.cpp:266-277 | on a simple walk to the sink, the pattern never merges the source's or the sink's read, and merges only tails of path arcs that have a read |
| Decompose.DecrementedEvolves | mflib/MFGraph_solve.cpp:279-284 | with a non-negative path_flow, arcs keep their ends and weights, flows never rise, and erased arcs stay erased |
| Decompose.BottleneckErased | mflib/MFGraph_solve.cpp:257-284 | when path_flow is the bottleneck, the path's weakest arc is erased unless its tail has no read |
| Decompose.BottleneckRoundKeepsFlows | mflib/MFGraph_solve.cpp:257-284 | on a table without negative flow, the bottleneck is non-negative, and a round keeps every flow non-negative and non-rising |
| MFGraphSolve.MFGraph.LowerArc | mflib/MFGraph_solve.cpp:271-284 | one turn of the loop over the path equals StepArc: a tail without a read is skipped; otherwise the tail is merged unless it is the source, the arc loses path_flow and is erased below 0.001, and no other arc changes |
| MFGraphSolve.MFGraph.ApplyPath | mflib/MFGraph_solve.cpp:267-285 | the loop over the path leaves the arc table equal to Decremented and returns MergedTails |
| MFGraphSolve.MFGraph.Round | mflib/MFGraph_solve.cpp:233-285 | one round finds a widest source-to-sink walk whose path_flow is its bottleneck, at least every other walk's; when there is none, path_flow is the whole total; then the path is applied |
| MFGraphSolve.MFGraph.Peel | mflib/MFGraph_solve.cpp:231-285 | a round's pattern starts from the source's read and merges only reads of nodes other than the source and the sink; when no flow started negative, flows stay non-negative and arcs only lose flow or are erased |
| MFGraphSolve.MFGraph.Decompose | mflib/MFGraph_solve.cpp:218-299 | records are numbered 1, 2, ... with the source's start, the sink's end and a flow of at least 0.005; flownum counts them plus a final unreported round; the flow left is at most 0 when the loop ran out, positive when it broke; flows only fall when none started negative |

## Left out

- Output: the pattern stream, its text formatting, error messages and debug printing. `decompose` returns its lines as a sequence of `PatternRecord`s.
- The LP solver (`MFSolver::solve`, `extract_flows`): its status code is a parameter of `Solve`. The flows it would write into the arc table are not modelled, so `Solve` leaves flows as they were.
- LEMON's Dijkstra with `DijkstraMinMaxOperationTraits`: replaced by a threshold search with the same postcondition. Which of several equally wide paths is chosen is not modelled.
- LEMON's list graph: iteration order, `erase`, `changeSource`, `addNode` and `addArc` are modelled on sequences as described above.
- `MethylRead` (`merge`, `getMethString`, `end`): a read is a start and a length, and `End()` is taken as start plus length. A pattern records which nodes' reads were merged, not the merged methylation string.
- `CompareReadStarts` and the priority queue: the pop order is a parameter of `NormalizeCoverage`.
- `total_flow()`: its value is a parameter of `Decompose`.
- `methylFlow/main.cpp` (option parsing, files, `MFGraph::run`) is not part of this model.
- Floating point: coverage, flows and thresholds are exact reals. Single-precision rounding, and the cast of coverage to `float`, are not modelled.
- MFGraphSolve.MFGraph.NormalizeCoverage: requires every node's coverage to be positive. A group total of zero would make the source divide by zero, which real arithmetic has no value for.
- MFGraphSolve.MFGraph.AddTerminals: requires every node it will flag to have a read. The source dereferences the read of every flagged node when weighting its terminal arc.
- MFGraphSolve.MFGraph.Decompose: its contract states the properties of the records and of the loop. The per-round facts (the widest path, its bottleneck, the arcs lowered) are stated by `Round` and not repeated for every round. With a negative initial flow nothing is proved about flows: a negative bottleneck raises the flows of the path's arcs.
- Median.Sort: `std::sort` is modelled by an insertion sort. Only its result matters: the sorted permutation.

## Findings

| source | as written | input that shows it | evidently intended | confidence | as-written member | corrected member |
|---|---|---|---|---|---|---|
| mflib/MFGraph_solve.cpp:137 | a bare `if` follows the block that opens a new group. Its condition holds right after that block, so the first node of every group after the first is counted twice in the total and listed twice among the members | nodes 0 and 1 start at 10 with coverage 4 and 6, and node 2 starts at 20 with coverage 5; the queue yields 2, 0, 1. The totals are [5, 14], the median is 9.5 and the result is [19/7, 57/14, 9.5]. The shares of the second group add up to 5/7 | `else if`: each node counted once, so the totals are [5, 10], the median is 7.5 and the result is [3, 4.5, 7.5]. The shares of every group add up to 1 | not executed | NormalizeGroups.ScenarioAsWritten | NormalizeGroups.ScenarioIntended |

The general statement of the finding is `NormalizeGroups.GroupSharesSum`. With
`bareIf` false, the intended reading, every group's shares add up to 1. With
`bareIf` true, as written, every group after the first adds up to less than 1.
`MFGraphSolve.MFGraph.NormalizeCoverage` models the code as written.
