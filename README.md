# Buffer insertion over RC trees, in Dafny

This project models the buffer-insertion tool and the pure parts of its Python benchmark scripts. The tool reads an RC tree, runs the van Ginneken-style dynamic programme, rewrites the tree with the chosen buffers and writes it back. The scripts build synthetic two-node trees, scan the tool's standard output and average and tabulate the results.

- `wrappers.dfy` (`Wrappers`): `Option` and `Result`.
- `geometry.dfy` (`Geometry`): grid points, Manhattan distance, the node and edge records (`include/RCGraph.h`).
- `config.dfy` (`Configuration`): modules, technology and the two lookups (`include/Config.h`).
- `rcgraph.dfy` (`Graphs`): the `RCGraph` container as a class over node and edge vectors.
  - Ascending free-id lists, parent and children links, a root.
  - The invariant `Valid()` (`include/IRCGraph.h`).
- `candidates.dfy` (`Candidates`): the candidate record, `splitEdge`, and the wire and buffer `insert` overloads (`src/BufferAlgorithm.cpp`).
- `pruning.dfy` (`Pruning`): `redundancy_elimination`.
- `merging.dfy` (`Merging`): `mergeTwoSolutions` and `mergeSolutions`.
- `insertion.dfy` (`Insertion`): `bufferInsertion`.
  - The worklist loop is proved against a recursive specification `Solve` over a tree whose nodes carry a ghost rank.
- `split_points.dfy` (`SplitPieces`): `PointRecord` and `splitPoints` (`src/SolutionInsertion.cpp`).
- `solution_insertion.dfy` (`SolutionInsertion`): `insertSolution`, as a sequence of `addNode`, `removeEdge` and `addEdge` calls on the class.
- `rcgraph_io.dfy` (`RCGraphIO`): the node-kind names, `collect`, and the field rules of `readRCGraph`/`writeRCGraph` over an abstract document (`src/RCGraph.cpp`).
- `text.dfy` (`Text`): integer printing and `int()` parsing, `str.split()`, and iterating over lines.
- `driver.dfy` (`Driver`): `extractSolution`, `resultingRAT`, the argument check, the standard-output report and `getOutputFilePath` (`Algo.cpp`).
- `analysis.dfy` (`Analysis`): `prepare_data`, the output scanner, `get_result`, `get_results`, `write_results`, `read_results` and `main` without the plot (`analysis/Analysis.py`).
- `runtime.dfy` (`Runtime`): the sweep of `analysis/Runtime.py` and its `main`.

RAT, capacity, resistance and delay are `real`. When the tool runs, the scripts' inputs come from elsewhere, so here they are parameters:
- the standard output of each run;
- the order in which the thread pool completes;
- Python's float formatting and parsing;
- the current directory.

## Model

| member | source | states |
|---|---|---|
| Geometry.Abs | include/RCGraph.h:33 | the result is the value or its negation, and is never negative |
| Geometry.SamePoint | include/RCGraph.h:30 | holds exactly when both coordinates agree |
| Geometry.Distance | include/RCGraph.h:32-34 | zero exactly for the same point; at least the difference on either axis |
| Geometry.DistanceSymmetric | include/RCGraph.h:32-34 | distance is symmetric |
| Geometry.DistanceToSelf | include/RCGraph.h:32-34 | a point is at distance 0 from itself |
| Geometry.TriangleInequality | include/RCGraph.h:32-34 | distance obeys the triangle inequality |
| Configuration.GetModule | include/Config.h:44-50 | succeeds exactly when the kind is stored, with the stored module; otherwise fails with "there is no such Module" |
| Configuration.GetTechnology | include/Config.h:42 | returns the configuration's technology unchanged |
| Candidates.Adjustment | src/BufferAlgorithm.cpp:42 | the signed step has magnitude `step` |
| Candidates.StepCount | src/BufferAlgorithm.cpp:43-44 | the loop bound is the axis distance divided by the step |
| Candidates.SplitPoints | src/BufferAlgorithm.cpp:30-58 | empty exactly when the first and last polyline points coincide; otherwise the last point is the polyline's first |
| Candidates.SplitEdge | src/BufferAlgorithm.cpp:30-58 | the iterator loop over segments yields `SplitPoints` of the edge |
| Candidates.AppendSegment | src/BufferAlgorithm.cpp:41-51 | the inner loop appends exactly the interior points of one segment |
| Candidates.SegmentPointsInside | src/BufferAlgorithm.cpp:41-51 | every generated point lies strictly between the segment's ends, on its axis, at offset cnt·step from the sink-side end |
| Candidates.SplitPointsInterior | src/BufferAlgorithm.cpp:37-56 | every point but the last lies strictly inside some segment, so interior polyline vertices are never emitted |
| Candidates.SplitStraightLine | src/BufferAlgorithm.cpp:30-58 | for `[(0,0),(L,0)]` with step 1 the points are (L-1,0), …, (0,0) |
| Candidates.InsertWire | src/BufferAlgorithm.cpp:60-79 | appends one candidate and keeps the others: given position and edge, no buffer, capacity + UnitC·len, RAT − (UnitR·UnitC·len²/2 + UnitR·len·Cprev) |
| Candidates.InsertWireAsWritten | src/BufferAlgorithm.cpp:68-71 | the same appended candidate (position, edge, no buffer mark, load grown by `UnitC·len`) with `length*length` taken modulo 2^32 in the RAT |
| Candidates.WireDelayMonotone | src/BufferAlgorithm.cpp:68-70 | with non-negative unit values the intended wire delay is non-negative and grows with length |
| Candidates.InsertWireMonotone | src/BufferAlgorithm.cpp:68-72 | a wire never raises the RAT and never lowers the load |
| Candidates.WireDelayAgreesBelowWrap | src/BufferAlgorithm.cpp:68-70 | below length 65536 the code as written computes the intended delay |
| Candidates.WireDelayAsWrittenNotMonotone | src/BufferAlgorithm.cpp:68-70 | as written, length 65536 gets a smaller delay than length 65535 |
| Candidates.InsertBuffer | src/BufferAlgorithm.cpp:81-93 | changes only the last candidate: RAT − (K + R·load), capacity := C, buffer mark set |
| Candidates.InsertBufferDecouples | src/BufferAlgorithm.cpp:86-88 | after a buffer every solution presents the buffer's C, and two solutions' RATs differ by the difference of their RAT − R·load |
| Candidates.InsertBufferDelays | src/BufferAlgorithm.cpp:86-87 | with non-negative K and R a buffer never raises the RAT |
| Pruning.KeptIndices | src/BufferAlgorithm.cpp:126-133 | exactly the unmarked indices, ascending |
| Pruning.Select | src/BufferAlgorithm.cpp:135-140 | picks the solutions at the given indices, in order |
| Pruning.RowMembers | src/BufferAlgorithm.cpp:117-123 | the inner loop marks an index exactly when a pair check in that row marks it |
| Pruning.RowsMembers | src/BufferAlgorithm.cpp:115-124 | the outer loop's marks, characterised per index |
| Pruning.MarkedAreRedundant | src/BufferAlgorithm.cpp:114-124 | the double loop marks exactly the redundant indices |
| Pruning.MarkRedundant | src/BufferAlgorithm.cpp:114-124 | the double loop computes the redundant set |
| Pruning.KeepUnmarked | src/BufferAlgorithm.cpp:126-140 | the copy keeps the solutions whose index is not marked, in input order |
| Pruning.RedundancyElimination | src/BufferAlgorithm.cpp:95-142 | returns `Prune`: the unmarked solutions in input order |
| Pruning.PrunedAreDominated | src/BufferAlgorithm.cpp:97-123 | every removed solution is dominated (RAT ≥, load ≤) by another input solution |
| Pruning.KeptIffNotRedundant | src/BufferAlgorithm.cpp:114-133 | an index survives exactly when it is not redundant |
| Pruning.SurvivorsIncomparable | src/BufferAlgorithm.cpp:95-142 | no survivor dominates another |
| Pruning.BestIndex | src/BufferAlgorithm.cpp:97-103 | the first solution with the largest RAT and, among those, the smallest load |
| Pruning.PruneNonEmpty | src/BufferAlgorithm.cpp:95-142 | pruning a non-empty list keeps at least one solution |
| Merging.Min | src/BufferAlgorithm.cpp:160 | the smaller of two RATs |
| Merging.Join | src/BufferAlgorithm.cpp:153-161 | lhs, then rhs, then one candidate with summed load, minimum RAT, the node's position, the invalid edge id and no buffer |
| Merging.MergeTwoSolutions | src/BufferAlgorithm.cpp:144-166 | the nested loop computes `MergeTwo` |
| Merging.MergeTwoAt | src/BufferAlgorithm.cpp:148-163 | \|lhs\|·\|rhs\| solutions in lhs-major order: index i·\|rhs\|+j is the join of lhs[i] and rhs[j] |
| Merging.MergeTwoLength | src/BufferAlgorithm.cpp:148-164 | the product has \|lhs\|·\|rhs\| solutions |
| Merging.MergeTwoMembers | src/BufferAlgorithm.cpp:148-164 | every result is a join of one lhs and one rhs solution |
| Merging.Flatten | src/BufferAlgorithm.cpp:193-197 | concatenates the children's lists, all of whose solutions are non-empty |
| Merging.MergeMany | src/BufferAlgorithm.cpp:187-203 | the loop from the last child down, whose solutions are all non-empty |
| Merging.Merge | src/BufferAlgorithm.cpp:168-204 | the four cases of `mergeSolutions`; all solutions non-empty |
| Merging.MergeSolutions | src/BufferAlgorithm.cpp:168-204 | the method computes `Merge` |
| Merging.MergeSink | src/BufferAlgorithm.cpp:171-175 | a sink yields the single one-candidate solution built from its load, RAT and position |
| Merging.FlattenMembers | src/BufferAlgorithm.cpp:193-197 | every flattened solution comes from some child |
| Merging.FlattenHas | src/BufferAlgorithm.cpp:193-197 | every child's solution is in the flattening |
| Merging.MergeManyPairs | src/BufferAlgorithm.cpp:187-203 | every result of the many-children loop joins a solution of child c with one of an earlier child |
| Merging.MergeNonEmpty | src/BufferAlgorithm.cpp:168-204 | with non-empty children the merge is non-empty |
| Merging.MergeManyGrows | src/BufferAlgorithm.cpp:187-203 | with non-empty children the loop produces at least one solution |
| Insertion.Wired | src/BufferAlgorithm.cpp:259-260 | the wire insert on every solution keeps them non-empty |
| Insertion.Buffered | src/BufferAlgorithm.cpp:264-266 | the buffered copies are non-empty |
| Insertion.Step | src/BufferAlgorithm.cpp:256-271 | one split point (wire, prune, add buffered copies, prune) leaves a non-empty list of non-empty solutions |
| Insertion.Along | src/BufferAlgorithm.cpp:256-271 | the walk over all split points leaves a non-empty list |
| Insertion.Driven | src/BufferAlgorithm.cpp:242-243 | only the last candidate changes: its RAT drops by `K + R·load`, its load becomes the buffer's `C`, and its buffer mark is cleared |
| Insertion.Finish | src/BufferAlgorithm.cpp:240-245 | the root loop keeps the number of solutions |
| Insertion.Visit | src/BufferAlgorithm.cpp:235-273 | the solutions stored for a node from its children's are non-empty |
| Insertion.ChildNodes | src/BufferAlgorithm.cpp:216-221 | one child node per child edge |
| Insertion.Solve | src/BufferAlgorithm.cpp:213-275 | every node's stored list is non-empty, with non-empty solutions |
| Insertion.MaxRat | src/BufferAlgorithm.cpp:290-294 | `max_element` by last RAT: no solution has a larger RAT, and every one before it has a smaller RAT |
| Insertion.StepTo | src/BufferAlgorithm.cpp:257-270 | the body of the split-point loop computes `Step` |
| Insertion.WalkUp | src/BufferAlgorithm.cpp:253-271 | the split-point loop computes `Along` |
| Insertion.DriveRoot | src/BufferAlgorithm.cpp:240-245 | the root loop computes `Finish` |
| Insertion.VisitNode | src/BufferAlgorithm.cpp:235-273 | the work for a node whose children are all visited computes `Visit` |
| Insertion.Found | src/BufferAlgorithm.cpp:224-230 | at most one solution list per child |
| Insertion.Missing | src/BufferAlgorithm.cpp:224-230 | together with `Found` it accounts for every child |
| Insertion.MissingExactly | src/BufferAlgorithm.cpp:224-230 | the pushed children are exactly those not visited yet, each once when the children are distinct |
| Insertion.FoundAll | src/BufferAlgorithm.cpp:224-233 | with nothing missing, the gathered lists are the children's stored lists, in order |
| Insertion.Gather | src/BufferAlgorithm.cpp:224-230 | the children loop collects `Found` and pushes `Missing` onto the stack |
| Insertion.BufferInsertion | src/BufferAlgorithm.cpp:208-295 | fails exactly when the buffer module is missing; otherwise returns the solution `max_element` picks among the root's `Solve`; no root solution has a larger RAT |
| Insertion.SolveVisits | src/BufferAlgorithm.cpp:213-274 | a node's `Solve` is the visit of its children's `Solve` |
| Insertion.AlongPruned | src/BufferAlgorithm.cpp:256-271 | whenever there are split points, the list stored for a non-root node is a pruning |
| Insertion.SolveIncomparable | src/BufferAlgorithm.cpp:262-273 | at every non-root node no stored solution dominates another |
| Insertion.StepEnds | src/BufferAlgorithm.cpp:256-271 | after a split point every solution ends at that point, on the parent edge |
| Insertion.AlongEnds | src/BufferAlgorithm.cpp:256-271 | after the walk every solution ends at the last split point |
| Insertion.SolveAtEdgeStart | src/BufferAlgorithm.cpp:253-273 | when the parent edge has split points, every stored solution ends at the edge's first point |
| Insertion.RootDriven | src/BufferAlgorithm.cpp:240-245 | every root solution is `Driven` of a solution of the root's pruned merge, so it presents the buffer's input capacity, carries no buffer mark and has lost the driver delay |
| Insertion.RootFinish | src/BufferAlgorithm.cpp:235-245 | the root's solutions are the driven, pruned merge of its children's |
| Insertion.PruneKeepsEndAt | src/BufferAlgorithm.cpp:262 | pruning keeps "all end at p on edge e" |
| SplitPieces.MakeRecord | src/SolutionInsertion.cpp:14-25 | a record caches the distance from the start, its ordering key |
| SplitPieces.AddRecord | src/SolutionInsertion.cpp:42-46 | set insertion keeps the records ascending by distance and adds nothing else |
| SplitPieces.AddRecordMembers | src/SolutionInsertion.cpp:34-47 | a record is added exactly when no record has its distance; nothing is lost |
| SplitPieces.AddRecordKeys | src/SolutionInsertion.cpp:34-47 | the set's distances grow by the record's |
| SplitPieces.AddAll | src/SolutionInsertion.cpp:34-47 | inserting many keeps the set ascending and adds only given records |
| SplitPieces.AddAllKeeps | src/SolutionInsertion.cpp:34-47 | inserting never removes a record |
| SplitPieces.AddAllKeys | src/SolutionInsertion.cpp:34-47 | after inserting, the distances are the old ones plus the inserted ones |
| SplitPieces.BufferRecords | src/SolutionInsertion.cpp:35-41 | one buffer record per candidate |
| SplitPieces.SimpleRecords | src/SolutionInsertion.cpp:42-43 | one plain record per polyline point |
| SplitPieces.PointsOf | src/SolutionInsertion.cpp:54-56 | the records' points, in order |
| SplitPieces.Cuts | src/SolutionInsertion.cpp:51-59 | the ascending indices of buffer records |
| SplitPieces.PieceEnd | src/SolutionInsertion.cpp:54-63 | a piece ends just after its cut, or at the end of the records |
| SplitPieces.Closed | src/SolutionInsertion.cpp:51-60 | one closed piece per cut |
| SplitPieces.SplitPoints | src/SolutionInsertion.cpp:28-66 | the three loops compute `Split` of the record set |
| SplitPieces.RecordKinds | src/SolutionInsertion.cpp:34-47 | a record is a buffer record exactly when its distance is a candidate's, and then it is at a candidate |
| SplitPieces.RecordKeys | src/SolutionInsertion.cpp:34-47 | the record distances are those of the candidates and of the polyline points |
| SplitPieces.PieceAscending | src/SolutionInsertion.cpp:23-25 | within a piece the points are strictly farther and farther from the start |
| SplitPieces.ClosedStep | src/SolutionInsertion.cpp:52-58 | a buffer record closes one more piece, which ends at it |
| SplitPieces.SplitLast | src/SolutionInsertion.cpp:61-64 | the last piece runs from the last cut to the end |
| SplitPieces.SplitShape | src/SolutionInsertion.cpp:49-65 | one piece per buffer record plus one; piece j ends at the j-th buffer point and piece j+1 starts there |
| SplitPieces.SplitCount | src/SolutionInsertion.cpp:49-65 | the first piece starts at the first record and the last ends at the last record |
| SplitPieces.CutsComplete | src/SolutionInsertion.cpp:51-59 | every buffer record is a cut |
| SplitPieces.CutKeysAreDistances | src/SolutionInsertion.cpp:35-59 | the cut distances are the candidates' distances |
| SplitPieces.CutsAreCandidates | src/SolutionInsertion.cpp:35-59 | for sorted candidates at distinct distances the cuts are the candidates themselves, in order |
| SplitPieces.SplitStartsAtSource | src/SolutionInsertion.cpp:33-65 | the first piece always starts at the edge's first point |
| SplitPieces.GroupPieces | src/SolutionInsertion.cpp:28-66 | for such a group: \|Solutions\|+1 pieces, the first starting at the edge start, consecutive pieces joined at each candidate |
| SolutionInsertion.Group | src/SolutionInsertion.cpp:74-78 | the candidates on edge `eid`, in solution order |
| SolutionInsertion.Position | src/SolutionInsertion.cpp:85-87 | the insertion point after every candidate no farther from the start |
| SolutionInsertion.InsertByDistance | src/SolutionInsertion.cpp:85-87 | insertion keeps the group sorted by distance and adds exactly one element |
| SolutionInsertion.InsertSorted | src/SolutionInsertion.cpp:85-87 | inserting at `Position` keeps the order |
| SolutionInsertion.SortByDistance | src/SolutionInsertion.cpp:85-87 | `std::sort` by distance: sorted, a permutation, and distinct distances stay distinct |
| SolutionInsertion.InsertKeepsDistinct | src/SolutionInsertion.cpp:85-87 | inserting keeps distances distinct |
| SolutionInsertion.BufferNode | src/SolutionInsertion.cpp:99-103 | a buffer node named after the module, at the candidate's position, with its load and RAT |
| SolutionInsertion.Chain | src/SolutionInsertion.cpp:95-107 | first node, the buffers in order, last node |
| SolutionInsertion.AddBuffers | src/SolutionInsertion.cpp:94-106 | one new live buffer node per sorted candidate; no edge and no existing node changes |
| SolutionInsertion.AddChain | src/SolutionInsertion.cpp:110-116 | one new edge per consecutive pair of chain nodes, carrying the matching piece |
| SolutionInsertion.Rewire | src/SolutionInsertion.cpp:89-116 | the old edge is gone, the chain replaces it, and every other live node and edge is kept |
| SolutionInsertion.InsertGroup | src/SolutionInsertion.cpp:80-116 | one group: sort, split, rewire; no other live edge changes |
| SolutionInsertion.PlanOf | src/SolutionInsertion.cpp:82-92 | a group's plan: the edge, the sorted group and its pieces |
| SolutionInsertion.RewiringSurvives | src/SolutionInsertion.cpp:80-117 | a finished group's chain survives the later groups |
| SolutionInsertion.EveryCandidateBuffered | src/SolutionInsertion.cpp:70-118 | every candidate of the solution ends up as a live buffer node at its position, with its load and RAT |
| SolutionInsertion.NextGroup | src/SolutionInsertion.cpp:80-117 | one more group keeps the loop's invariants |
| SolutionInsertion.InsertSolution | src/SolutionInsertion.cpp:70-118 | an empty solution changes nothing; a missing buffer module fails with the graph unchanged; otherwise each candidate's edge is replaced by its chain and untouched edges are kept |
| Graphs.InsertAscending | include/IRCGraph.h:268-269 | push and sort: the free list stays strictly ascending and gains exactly the id |
| Graphs.Without | include/IRCGraph.h:101-103 | exactly the elements not removed; no duplicates appear |
| Graphs.RemoveChild | include/IRCGraph.h:101-103 | `erase(remove)` drops the one occurrence of the edge |
| Graphs.Link | include/IRCGraph.h:119-125 | `connect`: the first node gains the edge as a child, the last node's parent is the edge, and no other entry changes |
| Graphs.Unlink | include/IRCGraph.h:260-267 | the first node loses the child, the last node's parent is reset, and no other entry changes |
| Graphs.AllocNodeWf | include/IRCGraph.h:171-182 | filling a free slot or appending keeps the invariant |
| Graphs.LinkWf | include/IRCGraph.h:184-198 | connecting a freshly allocated edge keeps the invariant |
| Graphs.UnlinkWf | include/IRCGraph.h:260-270 | unlinking and freeing a live edge keeps the invariant |
| Graphs.FreeNodeWf | include/IRCGraph.h:256-257 | freeing an isolated node keeps the invariant |
| Graphs.RCGraph.constructor | include/IRCGraph.h:145-151 | the empty graph is valid |
| Graphs.RCGraph.GetAttrs | include/IRCGraph.h:201-203 | returns the configuration |
| Graphs.RCGraph.SetAttrs | include/IRCGraph.h:205 | replaces the configuration only |
| Graphs.RCGraph.GetNode | include/IRCGraph.h:207-209 | the node payload at the id |
| Graphs.RCGraph.GetEdge | include/IRCGraph.h:211-213 | the edge payload at the id |
| Graphs.RCGraph.GetEdgeNodeFirst | include/IRCGraph.h:226-228 | in a valid graph a live edge's first node is live and lists the edge as a child |
| Graphs.RCGraph.GetEdgeNodeLast | include/IRCGraph.h:230-232 | in a valid graph a live edge's last node exists |
| Graphs.RCGraph.GetParent | include/IRCGraph.h:234-236 | the invalid id, or a live edge entering the node |
| Graphs.RCGraph.GetChildren | include/IRCGraph.h:238-240 | distinct live edges leaving the node |
| Graphs.RCGraph.GetRoot | include/IRCGraph.h:244 | the root |
| Graphs.RCGraph.SetRoot | include/IRCGraph.h:242 | replaces the root only |
| Graphs.RCGraph.AddConstructedNode | include/IRCGraph.h:171-182 | appends at `Nodes.size()` when no id is free, else reuses the largest free id and drops it from the list |
| Graphs.RCGraph.AddNode | include/IRCGraph.h:215-218 | the new entry has the invalid parent and no children; edges unchanged |
| Graphs.RCGraph.Connect | include/IRCGraph.h:119-125 | the node vector becomes `Link` of the old one |
| Graphs.RCGraph.AddConstructedEdge | include/IRCGraph.h:184-198 | allocates an edge id like nodes do, then connects it |
| Graphs.RCGraph.AddEdge | include/IRCGraph.h:220-224 | the new live edge has the given first and last nodes and payload; only its two nodes change |
| Graphs.RCGraph.RemoveEdge | include/IRCGraph.h:260-270 | the edge is no longer live, its nodes are unlinked, and the sorted free list gains it |
| Graphs.RCGraph.RemoveNode | include/IRCGraph.h:246-258 | the parent and child edges are removed, the node is freed into the sorted list, and payloads are kept |
| Graphs.RCGraph.RemoveChildEdges | include/IRCGraph.h:252-255 | the loop over a copy of the children removes exactly those edges |
| RCGraphIO.ParseKind | src/RCGraph.cpp:21-31 | any failure is "unknown node kind" |
| RCGraphIO.KindRoundTrip | src/RCGraph.cpp:8-31 | `fromString(toString(k)) == k` for every kind |
| RCGraphIO.ParseKindNames | src/RCGraph.cpp:21-31 | succeeds exactly on "s", "t" and "b", and the kind's name is the string |
| RCGraphIO.OrZero | src/RCGraph.cpp:62-71 | an absent field reads as 0 |
| RCGraphIO.NodeOfRecord | src/RCGraph.cpp:72-82 | kind, name and position from the record; load and RAT default to 0 |
| RCGraphIO.RecordOfNode | src/RCGraph.cpp:200-212 | id, position, kind name and name; load and RAT only for sink (`Point`) nodes |
| RCGraphIO.RecordOfEdge | src/RCGraph.cpp:215-233 | edge id, both vertices and the segments |
| RCGraphIO.NodeRoundTrip | src/RCGraph.cpp:208-211 | written and read back, a sink node is unchanged and any other node has load and RAT zeroed |
| RCGraphIO.Mapping | src/RCGraph.cpp:87 | `emplace` keeps the first index for each document id |
| RCGraphIO.MappingFirst | src/RCGraph.cpp:87 | the first occurrence of a document id is the one mapped |
| RCGraphIO.Lookup | src/RCGraph.cpp:100-103 | an absent id maps to node 0 |
| RCGraphIO.RootOf | src/RCGraph.cpp:84-86 | the root is the last "b" node, or 0 when there is none |
| RCGraphIO.EntryOfRecord | src/RCGraph.cpp:98-120 | the vertices looked up through the mapping, with the segments |
| RCGraphIO.ReadNode | src/RCGraph.cpp:48-88 | one node appended, or the unknown-kind error with the graph unchanged |
| RCGraphIO.ReadNodes | src/RCGraph.cpp:48-88 | succeeds exactly when every kind parses; the nodes, root and mapping are as stated |
| RCGraphIO.ReadEdges | src/RCGraph.cpp:92-121 | one edge per record, in order, through the mapping |
| RCGraphIO.ReadRCGraph | src/RCGraph.cpp:33-123 | fails exactly on an unknown kind; otherwise a valid graph with one node per record, the last buffer as root, and one edge per record |
| RCGraphIO.PushChildren | src/RCGraph.cpp:136-142 | the inner loop appends each child edge and its last node, and pushes that node |
| RCGraphIO.Collect | src/RCGraph.cpp:125-144 | root first; the k-th edge enters the (k+1)-th node, so \|NIds\| = \|EIds\|+1; every child edge of a collected node is collected |
| RCGraphIO.NodeRecords | src/RCGraph.cpp:200-213 | one record per collected node |
| RCGraphIO.EdgeRecords | src/RCGraph.cpp:215-234 | one record per collected edge |
| RCGraphIO.WrittenKinds | src/RCGraph.cpp:206 | every written kind name reads back |
| RCGraphIO.WriteRCGraph | src/RCGraph.cpp:191-236 | root first; one edge fewer than nodes; each edge after the node it leaves and just before the node it enters; every child edge written; every kind readable |
| Text.ShowInt | Algo.cpp:62 | no whitespace; the first character is a digit exactly when the value is non-negative |
| Text.ParseShowInt | analysis/Analysis.py:82 | `int()` reads back the integer the tool prints |
| Text.Fields | analysis/Analysis.py:112 | `split()` gives non-empty fields without whitespace |
| Text.FieldsOfThree | analysis/Analysis.py:112 | a row of three words splits back into them |
| Text.Lines | analysis/Analysis.py:111 | the file's lines are non-empty |
| Text.UniversalNewlines | analysis/Analysis.py:110-111 | text mode reads `"\r\n"` and a lone `'\r'` as `'\n'`: no carriage return is left |
| Text.UniversalOfPlain | analysis/Analysis.py:110-111 | text without a carriage return reads as written |
| Text.ReturnEndsLine | analysis/Analysis.py:110-111 | a lone carriage return ends a line, as a newline does |
| Text.LinesOfConcat | analysis/Analysis.py:104-111 | text written line by line reads back as those lines |
| Driver.ExtractSolution | Algo.cpp:22-28 | exactly the candidates with a buffer mark |
| Driver.ExtractSolutionConcat | Algo.cpp:22-28 | the filter distributes over concatenation, so the relative order is kept |
| Driver.ExtractSolutionIdempotent | Algo.cpp:22-28 | filtering twice is filtering once |
| Driver.ResultingRATIsBest | Algo.cpp:30-32 | the RAT reported for the chosen solution is the largest among root solutions |
| Driver.Arguments | Algo.cpp:38-45 | succeeds exactly with three arguments, giving the two file names; otherwise the usage message |
| Driver.Exit | Algo.cpp:68-72 | status 0 on success; an exception gives its message on standard error and status 1 |
| Driver.UsageFails | Algo.cpp:38-41 | any other argument count prints usage and returns 1 |
| Driver.Report | Algo.cpp:53-62 | the method writes `Stdout` of the filtered solution, the RAT of all candidates and the elapsed time |
| Driver.StdoutEndsWithTail | Algo.cpp:61-62 | the report ends with the RAT line immediately followed by the time line |
| Driver.LastIndexOf | Algo.cpp:16-17 | the position of the last given character (`/` for the file name, `.` for the stem), and none exactly when it does not occur |
| Driver.FileName | Algo.cpp:16-17 | the final path component |
| Driver.Stem | Algo.cpp:17 | the file name without its last extension |
| Driver.JoinPath | Algo.cpp:18 | joins directory and name with one separator |
| Driver.OutputFilePath | Algo.cpp:13-20 | under the current directory and ending in "_out.json" |
| Driver.OutputInCurrentDirectory | Algo.cpp:13-20 | the output lands directly in the current directory, whatever the input's directory |
| Driver.OutputOfJsonFile | Algo.cpp:13-20 | `dir/name.json` gives `name_out.json` in the current directory |
| Analysis.ReadPrepared | analysis/Analysis.py:26-54 | the document `prepare_data` writes reads as a buffer source at (0,0), a sink at (L,0) with load 0.5 and RAT 200, and one edge from it to the sink |
| Analysis.PreparedOutput | analysis/Analysis.py:51 | the tool writes `testL_out.json` in the working directory |
| Analysis.Labelled | analysis/Analysis.py:75 | a label matches only as a prefix, and the rest follows it |
| Analysis.MatchFrom | analysis/Analysis.py:75 | the two-line pattern matches only at its first label |
| Analysis.FirstMatchSkips | analysis/Analysis.py:75 | the scan passes over positions without a match |
| Analysis.ScanReport | analysis/Analysis.py:75 | on the tool's report the first match captures the RAT text and the millisecond count |
| Analysis.NoMatchInSafe | analysis/Analysis.py:75 | no match starts inside the buffer listing |
| Analysis.TrialsOf | analysis/Analysis.py:73-82 | one trial outcome per run output |
| Analysis.Averaged | analysis/Analysis.py:69-84 | a result always carries the requested length |
| Analysis.SeriesFailure | analysis/Analysis.py:76-82 | the series fails exactly when some trial fails, with the first failure's error |
| Analysis.SeriesOfSuccesses | analysis/Analysis.py:72-82 | with every trial matched, the series gives the last RAT text and the sum of the times |
| Analysis.TrialOfReport | analysis/Analysis.py:75-82 | one trial on the tool's report gives the printed RAT and the elapsed time |
| Analysis.AveragedOfReports | analysis/Analysis.py:69-84 | on the tool's reports: time is the mean elapsed time, RAT is the last run's; a RAT text that does not parse raises |
| Analysis.GetResult | analysis/Analysis.py:69-84 | the trial loop computes `Averaged` |
| Analysis.Range | analysis/Analysis.py:91 | `range(lo, hi, step)`: lo + k·step, all below hi, ending within one step of hi |
| Analysis.LengthsAre | analysis/Analysis.py:91 | the sweep is 25, 125, …, 925 |
| Analysis.Outcomes | analysis/Analysis.py:90-92 | one `get_result` outcome per length |
| Analysis.KeptAndFailed | analysis/Analysis.py:93-98 | every length is either kept or reported |
| Analysis.KeptMembers | analysis/Analysis.py:93-98 | a result is kept exactly when some length succeeded with it |
| Analysis.KeptPermutation | analysis/Analysis.py:93-96 | the kept results do not depend on completion order, as a multiset |
| Analysis.GetResults | analysis/Analysis.py:87-99 | given `average` (10) outputs per length, the completion loop keeps the successes and reports the failures, in completion order |
| Analysis.CollectResults | analysis/Analysis.py:91-96 | for any lengths and runs, walking the futures in completion order keeps exactly the successful outcomes and reports each failure with its length index, in that order |
| Analysis.GetResultsAnyOrder | analysis/Analysis.py:87-99 | as a multiset the kept results are those of the sequential order |
| Analysis.RowsSnoc | analysis/Analysis.py:104-105 | writing one more result appends its row |
| Analysis.WriteResults | analysis/Analysis.py:102-105 | the table is one "len time rat" row per result, in list order |
| Analysis.ParseRowsPrefix | analysis/Analysis.py:111-115 | the first bad line decides the error |
| Analysis.ReadResults | analysis/Analysis.py:108-116 | the line loop computes `ParseRows` of the file's lines after newline translation |
| Analysis.ParseRowOfRow | analysis/Analysis.py:105-114 | a written row reads back as its result |
| Analysis.RowIsLine | analysis/Analysis.py:105 | a row is one line |
| Analysis.ParseRowsOf | analysis/Analysis.py:111-115 | lines that each parse give the results in order |
| Analysis.ReadWriteRoundTrip | analysis/Analysis.py:102-116 | `read_results` after `write_results` gives the results back |
| Analysis.AnalysisMain | analysis/Analysis.py:137-142 | the table holds the kept results, and reading it back returns them |
| Runtime.LengthsAre | analysis/Runtime.py:86 | the sweep visits 1, 2, …, 999 |
| Runtime.SequencedPrefix | analysis/Runtime.py:86-105 | once a length raises, later lengths do not change the outcome |
| Runtime.SequencedOutcomes | analysis/Runtime.py:86-106 | the sweep succeeds exactly when every length does, with the results in order; otherwise it raises the first failure |
| Runtime.Sweep | analysis/Runtime.py:84-106 | the nested loop computes `SweepOf` |
| Runtime.MainAsWrittenWritesNothing | analysis/Runtime.py:109-114 | as written, `main` never writes a row and never returns normally |
| Runtime.MainAsWrittenLosesResults | analysis/Runtime.py:110-113 | even a successful sweep leaves the table empty and raises |
| Runtime.RuntimeMain | analysis/Runtime.py:109-114 | corrected `main`: a failing sweep leaves the table untouched; otherwise one row per length, which reads back as the sweep |
| Runtime.RuntimeMainRows | analysis/Runtime.py:110-113 | the corrected table has 999 rows, for lengths 1 to 999 in order |

## Left out

- Floating point: RAT, capacity and delays are `real`, so `float` rounding, NaN and infinities are not modelled.
- JSON, files and streams: nlohmann parsing and printing is not modelled. Documents are abstract records (`RCGraphIO.Document`) holding the fields `readRCGraph` and `writeRCGraph` use.
- Reading the configuration: `readConfig` (src/Config.cpp) is not part of this model; a `Config` is a parameter.
- `dumpDot`/`printNode`, the `LOG` macros, `std::chrono` timing and the filesystem are not modelled. The elapsed milliseconds and the current directory are parameters.
- `main` of Algo.cpp is modelled as its parts, not as one composition: `Arguments`, `ReadRCGraph`, `BufferInsertion`, `ExtractSolution`, `Report`, `InsertSolution`, `OutputFilePath`, `WriteRCGraph` and `Exit`.
  - Composing them needs facts that cannot be derived from a document: that it describes a tree (the ghost `rank`), and that each edge's candidates lie at distinct distances.
- Insertion.BufferInsertion: requires the graph to be tree-shaped, with a ghost rank that decreases along child edges. A cyclic input makes the source loop forever, which is not modelled.
- SolutionInsertion.InsertSolution: requires each group's candidates to lie at distinct distances from the edge start. With a tie, `splitPoints` returns fewer pieces than the chain needs and `SplittedEdgesPs[Idx]` reads past its end, which is undefined behaviour.
- SolutionInsertion.SortByDistance: ties are ordered as by an insertion sort, whereas `std::sort` leaves their order unspecified. The distinctness requirement above makes the difference unobservable.
- SolutionInsertion.InsertSolution: `unordered_map` iteration order is a parameter (`order`). The buffer module is looked up once up front; the source looks it up per group, but before any change to the graph and in a configuration that never changes.
- Graphs.RCGraph.RemoveNode: requires the node to be live. A second `removeNode(N)` is accepted by the source and lists N on the free list twice, which `Valid()` cannot represent. The contract also does not state the children and parent lists of the other nodes, only the live-edge set, the payloads and the node's own cleared entry.
- Graphs.RCGraph.RemoveEdge: requires the edge to be in its first node's children, because `erase(remove(...))` on an absent element is undefined behaviour.
- Graphs.RCGraph.AddEdge: requires the first node to be live.
- Graphs.RCGraph.constructor: the source leaves `Root` uninitialised; the model starts it at 0.
- Invalid ids are `0xFFFF_FFFF`, the maximum `unsigned`. Ids are otherwise unbounded, so vectors never reach that size.
- RCGraphIO.Collect: does not prove that the collected node ids are distinct, only the structural facts listed above.
- Driver.ResultingRAT: has no contract of its own. It is the last candidate's RAT, and `ResultingRATIsBest` states what matters.
- Number formatting: the digits `operator<<` prints for a `float` and what Python's `float()` accepts are parameters (`show`, `showFloat`, `parseFloat`). The six-digit precision of the C++ stream is therefore not modelled. Round trips assume `FloatRoundTrip`.
- Geometry.Distance: coordinates are unbounded integers. The 32-bit signed overflow of `abs(X-rhs.X)+abs(Y-rhs.Y)` on coordinates far apart (undefined behaviour in the source) is not modelled, and neither is overflow in the offsets of `splitEdge` (Candidates.SplitEdge).
- Insertion.Wired: uses the intended delay `WireDelay`, with the exact square, and so do Step, Along, Solve and BufferInsertion. As written the source wraps `length*length` modulo 2^32 (Candidates.InsertWireAsWritten). The two agree for every wire shorter than 65536 (`WireDelayAgreesBelowWrap`).
- Text.Fields: splits at ASCII whitespace only. Python's `str.split()` also splits at U+0085, U+00A0 and the other Unicode spaces.
- `Text.ParseInt` accepts ASCII whitespace and an optional sign. It does not accept Unicode digits, Unicode whitespace or the underscores that Python's `int()` allows.
- The regex engine: `re.findall` is replaced by an explicit scanner for its first match; only the first match is used. The `if not match[0]` branch cannot be taken, because a match is a pair of strings, so it is not modelled.
- subprocess, the thread pool and plotting are not modelled: each run's standard output is a parameter; completion order is the `order` parameter, a permutation; `plot_results` is left out.
- Analysis.Averaged: divides by the number of outputs. Callers pass exactly `average` of them (10 in Analysis.py, 5 in Runtime.py). Python accumulates `res_time` as a float; this is exact for integer totals below 2^53.
- Runtime.Sweep: `get_results` ignores its argument, so the model takes none. Each length's inner loop is `Analysis.GetResult`, because both scripts average in the same way.
- The two scripts run the tool from different directories (`build` and the repository root). The working directory is a parameter of `PreparedOutput`, so both cases are covered.
- analysis/UpdateResults.py and include/Topology.h are not part of this model; neither has logic to model.

## Findings

| source | as written | input that shows it | evidently intended | confidence | as-written member | corrected member |
|---|---|---|---|---|---|---|
| src/BufferAlgorithm.cpp:68-70 | `length * length` is an `unsigned` product, so it wraps modulo 2^32 | length 65536: the wire delay term becomes 0, smaller than for length 65535 | the square of the length, so the delay grows with it | not executed | Candidates.WireDelayAsWrittenNotMonotone | Candidates.WireDelayMonotone |
| analysis/Runtime.py:110-113 | `main` calls `get_results` once per length, and every call runs the whole sweep, so `test_results` is a list of lists and `result.len` raises after the table has been truncated | any successful sweep, e.g. one result for length 1 | one sweep, then one row per length | not executed | Runtime.MainAsWrittenLosesResults | Runtime.RuntimeMainRows |
