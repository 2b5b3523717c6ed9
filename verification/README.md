# libbeauty: control-flow recovery and RTL lowering

A Dafny model of the middle of libbeauty, and proofs about it. Run
`dafny verify dfyconfig.toml` to check everything.

What is modelled, from the machine instruction to the syntax tree:

- **Lowering to RTL** (`Rtl`, `MemoryOperands`, `MemoryMeaning`, `LeaOperands`, `WideMultiply`,
  `StackCode`, `StackMemory`, `Rmb`, `RmbEncoding`). x86 operands and a few whole instructions become
  short RTL sequences through TMP1 and TMP2. The sequences are compared with the address, product or
  stack effect that the instruction has. An RTL instruction means "A = B op C", and the lowering
  theorems hold for every meaning of the operators in which moves, 64-bit additions, subtractions
  and products wrap around. Two modules use a meaning of their own: `Rmb` the two-operand form of
  the older decoder, and `WideMultiply` one that cuts values off at the operand widths.
- **Symbolic execution** (`Execute`, `StackRuns`). Registers and stack cells live in scanned
  stores as "init + offset". The stores refine maps, and execution refines the plain meaning.
- **Basic blocks** (`TidyLog`, `Blocks`, `BlockBuilder`, `BlockWalks`). Repeated links are taken
  out of the instruction log, which is cut into blocks; walks through blocks and through
  instructions correspond.
- **Paths and loops** (`Graph`, `PathTable`, `PathSearch`, `PathSlots`, `PathBuilder`,
  `SlotOverflow`, `LoopEdges`, `LoopTables`, `LoopNesting`). Paths form a tree of shared prefixes.
  The *full trace* of a path is its parent's trace up to the branching position followed by its own
  segment. The traces are exactly the walks
  from the entry that stop at an exit or at the first repeated node, if and only if the search
  never ran out of slots for pending branches.
- **Facts read off the paths** (`NodePaths`, `Dominators`, `IfTails`, `Depths`, `MultiRet`,
  `LinkTypes`). Dominators, if-tails, depths and return nodes, against the textbook notions.
- **Merging return blocks** (`MergeTables`, `MergeMeaning`, `MergeNodes`).
- **Reaching definitions** (`SearchBack`, `SearchMeaning`), also as what a register or slot holds when
  the program runs.
- **Syntax trees** (`CfgRuns`, `AstTables`, `AstSize`, `AstBuilder`). An interpreter for the tree and
  one for the graph visit the same nodes, whatever an oracle decides at branches.
- **All passes together** (`Pipeline`), in the order of the driver. The driver's call that makes
  the syntax tree is disabled, and worked on one node table for all functions
  (libbeauty/test/dis64.c:5182-5195); here it comes last and uses the table of its function.

Conventions: nodes and instructions are numbered from 1 and 0 means "none". Passes that change
tables in place are methods of the classes that hold the tables, each proved against a predicate
or function on the values. A function's `nodes_size` is one more than its number of nodes, as where
the driver copies a function's nodes into a table of its own (libbeauty/test/dis64.c:4058-4072).

Where code and expectation differ, the code is modelled and the difference is a theorem:

- An address used as a value reuses the sign of the displacement when the base is added
  (`LeaOperands.LeaExact`).
- The wide multiplications overwrite the lower half when AX is the source
  (`WideMultiply.AxLosesHalf`).
- PUSH and POP of the stack pointer itself differ from the processor (`StackCode.PushExact`,
  `StackCode.PopExact`).
- ADD and SUB drop the offset of a second operand that is not an immediate (`Execute.SumExact`).
- The subset test is wrong on arbitrary lists (`NodePaths.UnsortedSubsetMissed`). It is right on
  the increasing lists of paths (`NodePaths.IncreasingSubset`) and on the lists of loop heads, which
  are not sorted but all in the order of one table (`LinkTypes.OrderedSubset`).
- The path search drops branches when its 1000 slots are in use and still reports success
  (`PathBuilder.BuildControlFlowPaths`, `SlotOverflow.EnumerateLadder`).
- Taking repeated links out of a list can leave a 0 in it (`TidyLog.TidyExact`).
- Backward search stops at a predecessor list that begins with such a 0 and misses definitions
  (`SearchBack.PlaceholderHides`, `SearchBack.DefinitionMissed`).
- Nesting of loops is read off the parent of one path. Loops that share no node can count as nested,
  and a loop can count as nested in itself (`LoopTables.NestExact`, `LoopNesting.NeighbourNested`,
  `LoopNesting.ForkedNested`).
- Links of an inner loop head into its own loop count as exits (`LinkTypes.InnerHeadLeaves`).
- A NOP counts as a definition, and a slot is missed whose address is split otherwise
  (`SearchMeaning.NopDefines`, `SearchMeaning.SplitMissed`).
- Instructions that differ in the second source only count as equal, so merging return blocks can
  change what a function returns (`MergeNodes.SecondSourceLost`, `MergeNodes.AdditionsDiffer`).
- Merging two equal return blocks can leave a node with two links to the same block
  (`MergeNodes.UnifiedDistinct`).
- Splitting a common end off two return blocks leaves the links of the new block as realloc gives
  them (`MergeNodes.SplitPreserves`).

## Model

| member | source | states |
|---|---|---|
| TidyLog.TidyList | libbeauty/src/analyse/analyse.c:49-66 | The two loops over one list: all but the last of equal elements become 0, and a gap is closed unless it follows right on another |
| TidyLog.TidyKeeps | libbeauty/src/analyse/analyse.c:44-92 | Every real element of a list stays, exactly once |
| TidyLog.TidyExact | libbeauty/src/analyse/analyse.c:44-92 | A list of real instructions ends without duplicates and without 0 if and only if no two neighbours in it both come again later; otherwise a 0 is left |
| TidyLog.ThreeEqual | libbeauty/src/analyse/analyse.c:44-92 | Three equal targets end as 0 and the target |
| TidyLog.TidyConsistent | libbeauty/src/analyse/analyse.c:34-101 | The tidied log is one that the block builder can work on if and only if no instruction has two neighbouring successors that both come again later; predecessors always agree with the links |
| TidyLog.LogLists.TidyInstLog | libbeauty/src/analyse/analyse.c:34-101 | Every list of the log becomes its tidied form, and a prev list that says just 0 is emptied |
| Blocks.CutBothSides | libbeauty/src/analyse/analyse.c:1111-1155 | An instruction ends a block exactly if what follows it starts one: marking starts from branches and joins cuts every edge on both sides or on neither, and an uncut edge is the only one at both of its ends |
| Blocks.ChainsMeet | libbeauty/src/analyse/analyse.c:1164-1187 | Two chains followed from block starts that share any instruction began at the same start and meet at the same distance: no instruction can be claimed by two blocks |
| Blocks.ChainSimple | libbeauty/src/analyse/analyse.c:1170-1179 | Following a block from its start never comes back to an instruction already in it, so the do-while loop ends, even if the log has cycles |
| Blocks.InOneBlock | libbeauty/src/analyse/analyse.c:1164-1187 | The numbered blocks partition the instructions they cover: no instruction is in two blocks or twice in one |
| Blocks.ReachedIsCovered | libbeauty/src/analyse/analyse.c:1164-1187 | Every instruction that control reaches from a block start is in a block |
| Blocks.EndIsCovered | libbeauty/src/analyse/analyse.c:102-121 | The predecessors of a block start always lie in a block, even when nothing is known to reach them: the walk back in find_node_from_inst ends |
| BlockBuilder.MarksExact | libbeauty/src/analyse/analyse.c:1111-1155 | When every instruction has been visited exactly the real starts and ends are marked |
| BlockBuilder.InstLog.MarkBoundaries | libbeauty/src/analyse/analyse.c:1110-1155 | After the scan node_start and node_end hold exactly for the starts and the ends |
| BlockBuilder.InstLog.FollowBlock | libbeauty/src/analyse/analyse.c:1166-1180 | Gives the number to exactly the instructions of the block that begins at the start, and stops at its end |
| BlockBuilder.NextBody | libbeauty/src/analyse/analyse.c:1163-1188 | Numbering one more block takes no instruction from an earlier one |
| BlockBuilder.InstLog.NumberBlocks | libbeauty/src/analyse/analyse.c:1163-1189 | Blocks are numbered from 1 in the order of their starts, and node_member is the number of the block an instruction lies in, 0 outside all blocks |
| BlockBuilder.InstLog.FindNodeFromInst | libbeauty/src/analyse/analyse.c:102-121 | Walking back over the first predecessor to a start returns the number of the block of the instruction, 0 for instruction 0; it terminates |
| BlockBuilder.SetLinkIndexes | libbeauty/src/analyse/analyse.c:1223-1235 | Every prev_link_index names a link of its predecessor that leads here |
| BlockBuilder.TablesAgree | libbeauty/src/analyse/analyse.c:1197-1235 | Links lead to blocks, no block links twice to the same block, and the predecessor entries are exactly the links |
| BlockBuilder.InstLog.BuildControlFlowNodes | libbeauty/src/analyse/analyse.c:1096-1241 | From any consistent log: blocks that partition the covered instructions, links that are those of the last instructions, and successor and predecessor tables that agree |
| BlockWalks.BlockWalkExpands | libbeauty/src/analyse/analyse.c:1193-1221 | Every walk through blocks along links expands to a walk through instructions that begins at a start and stops at an end |
| BlockWalks.InstWalkIsBlockWalk | libbeauty/src/analyse/analyse.c:1193-1221 | Every walk through instructions from a start to an end is the expansion of a walk through blocks: nothing is lost by looking at blocks only |
| Graph.SimpleWalkBound | libbeauty/src/analyse/analyse.c:154-191 | A walk without repetition visits fewer nodes than the table has rows: the bound that makes the limit of the loop check unreachable |
| PathTable.StepBackIn | libbeauty/src/analyse/analyse.c:160-188 | Stepping back over path_prev and path_prev_index reads the full trace from its end, and stops exactly at its beginning |
| PathTable.TraceStable | libbeauty/src/analyse/analyse.c:961-1036 | Paths added or lengthened later change no trace read before, although paths share prefixes |
| PathTable.SplitFrontier | libbeauty/src/analyse/analyse.c:1018-1030 | Replacing an open walk by its extensions over all links keeps the open walks incomparable and every stopped walk covered |
| PathTable.FrontierComplete | libbeauty/src/analyse/analyse.c:935-1043 | When every open walk has stopped the open walks are all stopped walks |
| PathTable.LoopCloses | libbeauty/src/analyse/analyse.c:978-1017 | The last link of a loop path is a back edge, and so is a link of its last node to itself |
| PathBuilder.PathLoopCheck | libbeauty/src/analyse/analyse.c:154-191 | Answers 1 exactly if the node lies on the trace before the given position and sets only the loop flag then; the limit answer means a trace of at least that length |
| PathBuilder.NodeMidStartAdd | libbeauty/src/analyse/analyse.c:123-152 | Parks the branches of a node one by one in unused slots and never frees one; a branch is dropped exactly if fewer slots are unused before the call than there are branches to park |
| PathBuilder.RecordLoop | libbeauty/src/analyse/analyse.c:978-1017 | Closing a loop records its head, types it as a loop and marks links so that every mark is a back edge and the cycle just closed contains one; the nodes typed as loops are the marked heads |
| PathBuilder.FollowPath | libbeauty/src/analyse/analyse.c:967-1032 | Follows a path until it repeats a node or reaches an exit, keeping the search invariant; every finished path has its loop flag and head right; it terminates although it only looks at the path table |
| PathBuilder.SearchComplete | libbeauty/src/analyse/analyse.c:935-1043 | When no slot is in use and no branch was dropped, the table is exact, however many paths there are |
| PathBuilder.LostIsMissing | libbeauty/src/analyse/analyse.c:935-1043 | A dropped branch is the beginning of a stopped walk that never becomes a path, so the table is not exact, also while the search is still running |
| PathSlots.LostNeedsMany | libbeauty/src/analyse/analyse.c:123-152 | A branch is dropped only if there are more stopped walks than slots |
| PathSlots.CrowdedLost | libbeauty/src/analyse/analyse.c:935-1043 | If a stopped walk takes first links past more branches than there are slots and has become a path, a branch has been dropped: the branches along a segment all wait at the same time |
| PathSlots.WideCrowds | libbeauty/src/analyse/analyse.c:935-1043 | A reachable node with too many links lies on such a walk |
| PathBuilder.BackEdgeMarked | libbeauty/src/analyse/analyse.c:978-1017 | In an exact table every back edge has been marked, also one that no single loop path ends with |
| PathBuilder.BuildControlFlowPaths | libbeauty/src/analyse/analyse.c:935-1043 | Fails exactly when the paths reach the capacity; no two paths have the same trace; on success the full traces are exactly the walks from the entry stopped at an exit or the first repeated node if and only if no branch was dropped for want of a slot, and then exactly the back edges and loop heads are marked. Nothing is dropped if there are at most 1000 such walks; something is if one of them takes first links past more than 1000 branches, or the entry reaches a node with more than 1001 links |
| SlotOverflow.EnumerateLadder | libbeauty/src/analyse/analyse.c:123-152 | An acyclic, fully reachable function of two-way branches with one exit, a ladder of more than 1001 nodes: the search reports success, far from the capacity, and a walk to the exit is missing from the table |
| LoopEdges.BackEdgeOnCycle | libbeauty/src/analyse/analyse.c:994-1013 | A marked link lies on a cycle of the graph |
| LoopEdges.CycleHasBackEdge | libbeauty/src/analyse/analyse.c:994-1013 | Every cycle that the entry reaches contains a marked link |
| LoopEdges.UnmarkedIsAcyclic | libbeauty/src/analyse/analyse.c:994-1013 | Dropping the marked links of a fully reachable graph leaves no cycle |
| LoopEdges.AcyclicStopped | libbeauty/src/analyse/analyse.c:935-1043 | In an acyclic graph the stopped walks are the walks from the entry to the exits, and none is a loop |
| NodePaths.PathsThroughExact | libbeauty/src/analyse/analyse.c:900-933 | The list of a node is strictly increasing and holds exactly the paths of that kind whose full trace visits it |
| NodePaths.BuildNodePaths | libbeauty/src/analyse/analyse.c:900-933 | path and looped_path of every node are those lists |
| NodePaths.IsSubset | libbeauty/src/analyse/analyse.c:445-481 | 1 exactly for equal lists, 2 and 0 by the scan that looks for the n-th element from position n on |
| NodePaths.IncreasingSubset | libbeauty/src/analyse/analyse.c:445-481 | On increasing lists that scan decides set inclusion although it starts late |
| NodePaths.UnsortedSubsetMissed | libbeauty/src/analyse/analyse.c:445-481 | On unsorted lists it misses a subset |
| NodePaths.FindNodeInPath | libbeauty/src/analyse/analyse.c:578-618 | Finds the last visit to a node on the full trace; the index counts from the path's own segment and is negative in parent paths |
| NodePaths.FindNodeAtIndexInPath | libbeauty/src/analyse/analyse.c:620-661 | Returns the node at such an index of the full trace, across parent prefixes, and fails exactly outside the trace: the inverse of the search |
| Dominators.CoverMeaning | libbeauty/src/analyse/analyse.c:504-512 | The subset test on path lists holds exactly if every exit trace through the one node visits the other |
| Dominators.PrevWalkBound | libbeauty/src/analyse/analyse.c:489-518 | The predecessor walk that skips loop edges repeats no node, on any fully reachable graph, so it ends |
| Dominators.BuildNodeDominance | libbeauty/src/analyse/analyse.c:483-523 | For every node the recorded dominator is where the predecessor walk first meets a node that lies on all its exit traces, 0 if it runs out; on any graph a recorded dominator lies on every exit trace through the node |
| Dominators.CoverIsDominance | libbeauty/src/analyse/analyse.c:483-523 | On an acyclic graph, for a node that reaches n, being on all exit traces through n is dominating n |
| Dominators.FoundIsImmediate | libbeauty/src/analyse/analyse.c:483-523 | On an acyclic graph with all nodes reachable the recorded dominator of every node but the entry is its immediate dominator |
| IfTails.FindIfTail | libbeauty/src/analyse/analyse.c:764-891 | The forward scan along the first path of a branch finds the first later node that lies on all its exit traces, 0 at the end of the path; it gives up exactly when the step counter passes 1000, after at most one step per node |
| IfTails.BuildNodeIfTail | libbeauty/src/analyse/analyse.c:663-898 | Every branch gets that node; giving up needs more nodes than the root of the limit |
| IfTails.CoverIsPostDominance | libbeauty/src/analyse/analyse.c:875-891 | On an acyclic graph, for a node reached from n, being on all exit traces through n is post-dominating n |
| IfTails.FoundIsIfTail | libbeauty/src/analyse/analyse.c:663-898 | On an acyclic graph the recorded if-tail is the immediate post-dominator, or 0 exactly if there is none |
| IfTails.BranchHasTwoPaths | libbeauty/src/analyse/analyse.c:770 | In an acyclic graph two different paths touch every reachable branch, so the scan follows a path and not the single-path case |
| Depths.RelaxStep | libbeauty/src/analyse/analyse.c:1055-1072 | Deepening one node keeps every depth the length of some walk and every finished prefix deep enough |
| Depths.LocateInTrace | libbeauty/src/analyse/analyse.c:1045-1075 | Every node of a trace lies in the segment of some path at the same distance from the entry, so shared prefixes need no second visit |
| Depths.BuildControlFlowDepth | libbeauty/src/analyse/analyse.c:1045-1075 | One pass in index order relaxes along every path, although depths rise during the pass |
| Depths.DepthIsLongest | libbeauty/src/analyse/analyse.c:1045-1075 | On an acyclic graph every reachable node ends with the node count of the longest walk to it |
| Depths.LongestDepths | libbeauty/src/analyse/analyse.c:1045-1075 | The pass on the exact table of an acyclic function: every reachable node gets the node count of the longest walk to it |
| LoopTables.MergePathIntoLoop | libbeauty/src/analyse/analyse.c:194-244 | The list becomes, without duplicates, its union with the cycle the path closes |
| LoopTables.BuildControlFlowLoops | libbeauty/src/analyse/analyse.c:252-322 | Heads are distinct, every list is duplicate-free and the union of the cycles of all loop paths with that head, and nest is the head that the parent of the last such path with a loop path for parent closes at; it fails exactly when there are more loop heads than rows |
| LoopTables.RowIsCycles | libbeauty/src/analyse/analyse.c:194-291 | In an exact table the row of a head lists exactly the nodes on the cycles that can be closed there behind a walk from the entry, no node twice on the way |
| LoopTables.NestMeaning | libbeauty/src/analyse/analyse.c:292-313 | A loop counts as nested exactly if one of its paths branches off a loop path |
| LoopTables.NestExact | libbeauty/src/analyse/analyse.c:292-313 | What a loop counts as nested in is the head that the parent of the last such path closes at, whichever loop that is; this is the loop itself exactly if that parent closes at the same head |
| LoopNesting.NeighbourNested | libbeauty/src/analyse/analyse.c:292-313 | On the exact table of a graph with two loops that share no node the second counts as nested in the first, and the first in itself |
| LoopNesting.ForkedNested | libbeauty/src/analyse/analyse.c:292-313 | On the exact table of a graph with one loop whose body forks that loop counts as nested in itself, although the first path closes none |
| LoopTables.LoopStronglyConnected | libbeauty/src/analyse/analyse.c:194-291 | Every list contains its head, and any of its nodes reaches any other without leaving the list |
| LinkTypes.MembersExact | libbeauty/src/analyse/analyse.c:352-375 | A node is a member of exactly the loops whose row lists it |
| LinkTypes.PureMember | libbeauty/src/analyse/analyse.c:1343-1349 | A membership list holds just one head exactly if that loop is the only one of the node |
| LinkTypes.BuildLoopMembers | libbeauty/src/analyse/analyse.c:352-375 | Records for every node the heads of its loops in row order |
| LinkTypes.MembersOrdered | libbeauty/src/analyse/analyse.c:352-375 | All membership lists are in the order of the rows of the loop table |
| LinkTypes.OrderedSubset | libbeauty/src/analyse/analyse.c:445-481 | On lists in a common order the scan decides set inclusion, although they need not be increasing |
| LinkTypes.AnalyseControlFlowNodeLinks | libbeauty/src/analyse/analyse.c:1311-1395 | After three scans a loop edge keeps no flag and every other link is an exit or normal, not both, and an entry exactly if it leads to a loop head; outside heads an exit leads to a node that is in some but not all loops of the source, by set inclusion, and in no other |
| LinkTypes.LeavesSomeLoop | libbeauty/src/analyse/analyse.c:1311-1395 | A link of a node that is no head leaves a loop if and only if every row that lists its target lists the node and some row lists only the node |
| LinkTypes.LeavesByRows | libbeauty/src/analyse/analyse.c:1311-1395 | Over the rows: a link out of a head leaves a loop unless the loop of the head is the only one of the target; a link of another node if the loops of the target are a proper part of its own |
| LinkTypes.InnerHeadLeaves | libbeauty/src/analyse/analyse.c:1343-1349 | Every link of an inner head into its own loop counts as an exit, because the outer loop lists the target too |
| LinkTypes.TypeLinks | libbeauty/src/analyse/analyse.c:1311-1395 | From the exact path table of any function, with cycles or without, the loop, membership and link passes give these types, unless there are more loop heads than rows; with exact marks each flag is given by the loop table alone: exit, normal or entry, head or not |
| LinkTypes.HeadsHaveRows | libbeauty/src/analyse/analyse.c:252-291 | With exact marks the loop heads are the heads of the rows |
| LinkTypes.BuildNodeType | libbeauty/src/analyse/analyse.c:525-576 | Every branch gets the type that its link flags and loop head ask for; other nodes keep theirs, LOOP for heads |
| LinkTypes.BranchMeaning | libbeauty/src/analyse/analyse.c:525-576 | The type of a two-way node says exactly whether a link leaves a loop, and if none does whether one is a loop edge |
| LinkTypes.JumpTableType | libbeauty/src/analyse/analyse.c:525-576 | A node is a jump table exactly if it has three links or more; with fewer than two it keeps its type |
| Pipeline.ClassifyNodes | libbeauty/src/analyse/analyse.c:525-576 | Paths, loops, links and types of any function from its node table: every node type is given by back edges of the graph and the loop table, loop heads included; each way to give up names its cause |
| LinkTypes.PlainBranchType | libbeauty/src/analyse/analyse.c:525-576 | A two-way node outside of loops becomes an if-then-else |
| MultiRet.AnalyseMultiRet | libbeauty/src/analyse/analyse.c:1397-1448 | The list is duplicate-free, empty exactly if fewer than two nodes end paths, else exactly those nodes with the first found one last |
| MultiRet.EndsAreExits | libbeauty/src/analyse/analyse.c:1397-1448 | On an exact path table the nodes that end paths are exactly the exits the entry reaches |
| MultiRet.ReachedExits | libbeauty/src/analyse/analyse.c:1397-1448 | On an exact path table the pass returns nothing if the entry reaches at most one exit, and otherwise exactly the exits it reaches, each once |
| MergeNodes.NodeTable.CommonEnd | libbeauty/src/analyse/analyse.c:1512-1518 | Comparing backwards stays inside both blocks and finds the longest common end, up to compare_inst |
| MergeMeaning.SameInstExact | libbeauty/src/analyse/analyse.c:1450-1485 | The comparison holds exactly for instructions that differ at most in their second source |
| MergeMeaning.SimilarExec | libbeauty/src/analyse/analyse.c:1450-1485 | Code that is alike and has the same second sources does the same on every machine, for every meaning of the operators |
| MergeMeaning.PreservedBehaves | libbeauty/src/analyse/analyse.c:1487-1606 | Runs kept up to the comparison leave the same machine if their second sources agree |
| MergeNodes.NodeTable.TakeOver | libbeauty/src/analyse/analyse.c:1525-1552 | Moving the predecessors of one block to an equal one redirects exactly the links that led to it |
| MergeNodes.UnifiedRewires | libbeauty/src/analyse/analyse.c:1525-1552 | Two equal blocks made one: the tables agree, and the remaining block does what both did |
| MergeNodes.UnifiedDistinct | libbeauty/src/analyse/analyse.c:1525-1552 | Afterwards some node links twice to the same block exactly if a node linked to both blocks before |
| MergeNodes.UnifiedEmpties | libbeauty/src/analyse/analyse.c:1545-1552 | The block that is given up has no instruction and no predecessor left and starts no run |
| MergeNodes.ForkLinksTwice | libbeauty/src/analyse/analyse.c:1525-1552 | A fork into two equal return blocks ends up with two links to the one that is left |
| MergeNodes.SecondSourceLost | libbeauty/src/analyse/analyse.c:1450-1485 | Two return blocks that differ in a second source only are made one, and a run that went through the second leaves another machine than before |
| MergeNodes.AdditionsDiffer | libbeauty/src/analyse/analyse.c:1450-1485 | An addition of 1 and one of 2 are alike |
| MergeNodes.AppendedRewires | libbeauty/src/analyse/analyse.c:1553-1568 | A block that is the end of the other: the longer one is cut and goes on into the shorter one, doing what it did |
| MergeNodes.SplitRewires | libbeauty/src/analyse/analyse.c:1569-1601 | A common end split off into a new row that comes without links: both blocks go on into the new one, doing what they did |
| MergeNodes.SplitAgrees | libbeauty/src/analyse/analyse.c:1569-1601 | The links of the new row are never assigned: the link tables agree if and only if realloc left none there |
| MergeNodes.SplitPreserves | libbeauty/src/analyse/analyse.c:1569-1601 | With blocks as the block builder leaves them the runs to returns are kept if and only if realloc left no links in the new row |
| MergeNodes.LeftoverLosesRun | libbeauty/src/analyse/analyse.c:1569-1601 | A fork into two return blocks that share their last instruction is split, and loses a run if the new row has links |
| MergeNodes.NodeTable.ShareEnd | libbeauty/src/analyse/analyse.c:1525-1601 | The whole of both blocks, the whole of the shorter one, or a new block, whatever links its row comes with, becomes the shared end, each with the tables that belong to it |
| MergeTables.RunKept | libbeauty/src/analyse/analyse.c:1487-1606 | Every run from a valid node to a return is still there, on the same way up to its last block, one of the two merged blocks or the same, and with the same instructions up to compare_inst |
| MergeTables.RunCame | libbeauty/src/analyse/analyse.c:1487-1606 | Every run to a return in the new tables from an old node was there before in the same sense |
| MergeNodes.NodeTable.AnalyseMergeNodes | libbeauty/src/analyse/analyse.c:1487-1606 | Returns 0 and changes nothing exactly if the last instructions differ; else the longest common end is shared. Unless a new row came with links, the link tables agree and the runs to returns are the same up to compare_inst, none lost and none new, and leave the same machine where second sources agree; if it did, the tables disagree and, with blocks as the block builder leaves them, the runs are not kept |
| SearchBack.AddStarts | libbeauty/src/analyse/analyse.c:2140-2178 | Predecessors go to unused slots first and to new slots then: the waiting instructions are the old ones and exactly the predecessors |
| SearchBack.SearchExact | libbeauty/src/analyse/analyse.c:2061-2187 | When nothing waits the list is duplicate-free and exactly the reaching definitions |
| SearchBack.SearchBackLocalRegStack | libbeauty/src/analyse/analyse.c:2061-2187 | Fails exactly without starts; else it terminates and returns, each once, exactly the matching definitions that reach a start over the followed predecessors with no matching definition in between |
| SearchMeaning.RegisterDefinition | libbeauty/src/analyse/analyse.c:2128-2131 | An instruction other than NOP is a definition of a register if and only if it can change it on some machine, a copy of the register to itself aside; on every machine any other leaves it alone |
| SearchMeaning.NopDefines | libbeauty/src/analyse/analyse.c:2128-2131 | A NOP with a register destination, as RET is lowered to, counts as a definition |
| SearchMeaning.SlotChanged | libbeauty/src/analyse/analyse.c:2111-2116 | A definition of a slot can change its cell on some machine that holds the recorded address |
| SearchMeaning.SlotDefinition | libbeauty/src/analyse/analyse.c:2111-2116 | Among local entries recorded from the same start value, those are the definitions of a slot that can change its cell |
| SearchMeaning.CallerSlotMissed | libbeauty/src/analyse/analyse.c:2111-2116 | Slots of the caller are never definitions |
| SearchMeaning.SplitMissed | libbeauty/src/analyse/analyse.c:2111-2116 | Another split of the same address into start value and offset is missed |
| SearchMeaning.HeldComesFrom | libbeauty/src/analyse/analyse.c:2061-2187 | Whatever way the program came to a start, the register or slot holds what one of the reaching definitions left there, or was not written on the way |
| SearchMeaning.ReachingIsHeld | libbeauty/src/analyse/analyse.c:2061-2187 | For each reaching definition there is a way to a start on which the register keeps what it wrote |
| SearchBack.PlaceholderAlone | libbeauty/src/analyse/analyse.c:2061-2187 | If 0 stands in a predecessor list only alone, the search finds exactly the definitions that really reach a start |
| SearchBack.PlaceholderHides | libbeauty/src/analyse/analyse.c:2134-2140 | Whatever the starts, the search reaches exactly what is really reached over all real predecessors, if and only if no instruction that it would pass has a list that begins with the placeholder 0 and goes on with another instruction |
| SearchBack.DefinitionMissed | libbeauty/src/analyse/analyse.c:2134-2140 | In a log of three entries, one with the list 0, 1, a definition that really reaches the start is missed |
| CfgRuns.RunThrough | libbeauty/src/analyse/ast.c:200-281 | Running to an end is running to the tail of a branch first and on from there, when every run passes the tail before the end |
| CfgRuns.BranchRegions | libbeauty/src/analyse/ast.c:217-281 | The branches of a region lead to regions that end at the if-tail, and a region goes on behind it |
| AstTables.ExecIsPlanned | libbeauty/src/analyse/ast.c:99-160 | When every container does what its span asks for, if its branches do, executing a container visits the nodes of the graph's run |
| AstBuilder.NodeStep | libbeauty/src/analyse/ast.c:369-395 | Appending a plain node and going on at its successor keeps a container on track |
| AstBuilder.IfStep | libbeauty/src/analyse/ast.c:200-281 | Appending an if row with its two branches, empty where a link leads to the tail, and going on at the tail keeps a container on track |
| AstBuilder.StepEntry | libbeauty/src/analyse/ast.c:162-281 | A sound step of one entry keeps the invariant of the whole worklist |
| AstBuilder.StepIsProgress | libbeauty/src/analyse/ast.c:162-281 | A step lowers the work that is left, measured by heights of pending nodes: the worklist ends |
| AstBuilder.NoFreeEntry | libbeauty/src/analyse/ast.c:40-54 | If the scan finds no free entry, a hundred containers have been created |
| AstBuilder.OverwriteAbandons | libbeauty/src/analyse/ast.c:40-54 | Overwriting an entry in use, as the source does after a failed scan, leaves its container without entry: it stops where the run it stands for goes on, whatever the branches decide |
| AstBuilder.AbandonedStays | libbeauty/src/analyse/ast.c:162-281 | Later steps never add to such a container |
| AstBuilder.AbandonedUnfulfilled | libbeauty/src/analyse/ast.c:162-281 | In the end it does not do what its span asks for, even if its branches do |
| AstBuilder.IfDebt | libbeauty/src/analyse/ast.c:200-281 | A branch asks for the containers of its links and of what follows its tail: containers made and still owed always add up to the same number |
| AstBuilder.CfgToAst | libbeauty/src/analyse/ast.c:99-395 | Unless a table overflows, executing the first new container visits exactly the nodes that the graph visits, in order, for every branch oracle, and there are exactly as many containers as the graph and its if-tails ask for; each overflow names the table that is full, and none happens if that number, known before the call, is small enough for the tables and below 100 |
| Pipeline.RecoverFunction | libbeauty/test/dis64.c:5027-5195 | The passes in the order of the driver, and the conversion to a syntax tree that it has disabled: for every acyclic, fully reachable function with at most two-way branches the path table is exact, dominators and if-tails are the immediate ones, and the syntax tree visits the same nodes as the graph; each way to give up names its cause, a dropped branch by a table that is not exact, a full table by the number of containers the graph asks for |
| MemoryOperands.ScaleIndex | libbeauty/src/input/convert_ll_inst_to_rtl/dis.c:390-414 | Leaves index times scale, in the index register itself for scale 1; fails exactly for an index with scale 0 |
| MemoryOperands.AddBase | libbeauty/src/input/convert_ll_inst_to_rtl/dis.c:416-433 | Adds the base, or starts with it |
| MemoryOperands.AddDisplacement | libbeauty/src/input/convert_ll_inst_to_rtl/dis.c:435-487 | Leaves base + index * scale + displacement in TMP1, modulo 2^64, for either sign of the displacement and with base or index missing |
| MemoryOperands.DisplacementStep | libbeauty/src/input/convert_ll_inst_to_rtl/dis.c:435-487 | Subtracting the magnitude of a negative displacement is adding the displacement, also for the least one whose magnitude is itself |
| MemoryOperands.TailEffect | libbeauty/src/input/convert_ll_inst_to_rtl/dis.c:489-541 | LOAD, operation on TMP2 and STORE after the address computation have the effect of the memory instruction in one go |
| MemoryOperands.ConvertMemoryInst | libbeauty/src/input/convert_ll_inst_to_rtl/dis.c:373-541 | Whatever the operator means, the lowered code changes registers and memory as the instruction does, except TMP1 and TMP2, and leaves the effective address in TMP1; it stops only for an index with scale 0 |
| MemoryMeaning.MemoryResult | libbeauty/src/input/convert_ll_inst_to_rtl/dis.c:489-541 | A memory destination gets the operator applied to both sources, at its own width |
| MemoryMeaning.RegisterResult | libbeauty/src/input/convert_ll_inst_to_rtl/dis.c:489-541 | A register destination gets it at the width of the register, and memory is as before |
| MemoryMeaning.AddToMemory | libbeauty/src/input/convert_ll_inst_to_rtl/dis.c:489-541 | Adding a register to 64 bits of memory leaves the wrapped sum in the cell |
| StackMemory.PushThenLoad | libbeauty/src/input/convert_ll_inst_to_rtl/dis.c:385-388 | A PUSH and a MOV from [SP] to a register leave what was pushed there, on every machine |
| StackMemory.StoreThenPop | libbeauty/src/input/convert_ll_inst_to_rtl/dis.c:534-538 | A MOV to [SP] and a POP leave what was stored in the popped register |
| StackMemory.SavedBpRead | libbeauty/src/input/convert_ll_inst_to_rtl/dis.c:385-388 | Behind the prologue [BP] is the caller's BP |
| StackMemory.StoreStays | libbeauty/src/input/convert_ll_inst_to_rtl/dis.c:385-388 | A store over another base than SP or BP changes no stack cell, and one over these two no other cell |
| LeaOperands.LeaExec | libbeauty/src/input/convert_ll_inst_to_rtl/dis.c:278-350 | What the sequence for an address used as a value leaves in TMP1, the sign used twice included |
| LeaOperands.ConvertLea | libbeauty/src/input/convert_ll_inst_to_rtl/dis.c:259-371 | The destination gets that value and nothing else but TMP1 changes |
| LeaOperands.NegativeIndexDiffers | libbeauty/src/input/convert_ll_inst_to_rtl/dis.c:298-349 | With an index and a negative displacement there is a machine on which the value is not the address, unless scale and displacement are both 2^63 |
| LeaOperands.NoBaseDiffers | libbeauty/src/input/convert_ll_inst_to_rtl/dis.c:326-349 | Without a base register 0 is read, and there is a machine on which the value is not the address |
| LeaOperands.LeaExact | libbeauty/src/input/convert_ll_inst_to_rtl/dis.c:278-350 | The sequence computes base + index * scale + displacement on every machine exactly if there is a base and no index meets a negative displacement, or both scale and displacement are 2^63 |
| WideMultiply.HalvesOfProduct | libbeauty/src/input/convert_ll_inst_to_rtl/dis.c:1390-1574 | The truncated halves make up the full product, signed or unsigned; the sign that SAR shifts into an unsigned product is truncated away |
| WideMultiply.SignedExact | libbeauty/src/input/convert_ll_inst_to_rtl/dis.c:1390-1574 | Words read as signed numbers give back every number in range |
| WideMultiply.ExpansionMultiplies | libbeauty/src/input/convert_ll_inst_to_rtl/dis.c:1390-1574 | For a source other than AX the expansion leaves the upper half in the source, the lower half in AX, and changes nothing else |
| WideMultiply.AxLosesHalf | libbeauty/src/input/convert_ll_inst_to_rtl/dis.c:1390-1574 | With AX as the source it does not: 1 times 1 leaves 0 |
| WideMultiply.ConvertWideMultiply | libbeauty/src/input/convert_ll_inst_to_rtl/dis.c:1390-1574 | The six instructions multiply correctly on every machine exactly if the source is not AX |
| StackCode.PushExact | libbeauty/src/input/convert_ll_inst_to_rtl/dis.c:1159-1202 | SUB and STORE are a PUSH on every machine exactly if the stack pointer is not what is pushed |
| StackCode.PopExact | libbeauty/src/input/convert_ll_inst_to_rtl/dis.c:1203-1247 | LOAD and ADD are a POP on every machine exactly if the stack pointer is not what is popped |
| StackCode.ConvertPush | libbeauty/src/input/convert_ll_inst_to_rtl/dis.c:1159-1202 | Emits a sequence that is a PUSH under the same condition |
| StackCode.ConvertPop | libbeauty/src/input/convert_ll_inst_to_rtl/dis.c:1203-1247 | Emits a sequence that is a POP under the same condition |
| StackCode.ConvertLeave | libbeauty/src/input/convert_ll_inst_to_rtl/dis.c:1092-1158 | Emits code that takes the frame down: SP becomes BP + 8, BP the value at the old BP |
| StackCode.ConvertRet | libbeauty/src/input/convert_ll_inst_to_rtl/dis.c:895-991 | Emits code that jumps to the address at SP, which moves up by 8 |
| StackCode.PushAllEffect | libbeauty/src/input/convert_ll_inst_to_rtl/dis.c:1159-1202 | After fewer than 2^61 pushes the k-th slot below the old stack pointer holds the k-th register |
| StackCode.PushPopRestores | libbeauty/src/input/convert_ll_inst_to_rtl/dis.c:1159-1247 | Pushes, any code that keeps the stack pointer and the slots, and the pops in reverse restore every pushed register and the stack pointer and change no other register |
| StackCode.LeaveEffect | libbeauty/src/input/convert_ll_inst_to_rtl/dis.c:1092-1158 | SP becomes BP + 8, BP the value at the old BP, nothing else changes |
| StackCode.RetEffect | libbeauty/src/input/convert_ll_inst_to_rtl/dis.c:895-991 | IP becomes the value at SP, which moves up by 8; only TMP1 changes besides |
| StackCode.FrameReturns | libbeauty/src/input/convert_ll_inst_to_rtl/dis.c:895-1202 | A body that keeps BP, the saved BP and the return address is left by LEAVE and RET as the caller expects, whatever it does to the stack pointer |
| Execute.ViewUpdate | libbeauty/src/execute/exe.c:75-156 | Overwriting an entry in place is a map update: a store with unique start addresses is a map |
| Execute.SearchStore | libbeauty/src/execute/exe.c:75-106 | The scan finds exactly the entry of the map |
| Execute.AddNewStore | libbeauty/src/execute/exe.c:108-156 | Adds an unknown entry unless there is one, and keeps start addresses unique |
| Execute.ProcessState.GetValue | libbeauty/src/execute/exe.c:186-492 | Reads an operand, entering unknown registers and slots with value 0 and the scope of the place |
| Execute.ProcessState.PutValue | libbeauty/src/execute/exe.c:494-803 | Writes exactly the entry that the destination names, or ends the program where the source does |
| Execute.ProcessState.ExecuteInstruction | libbeauty/src/execute/exe.c:806-1310 | NOP, MOV, LOAD, STORE, ADD and SUB change the stores as specified and end the program exactly where specified |
| Execute.ExecutedExactly | libbeauty/src/execute/exe.c:815-865 | An instruction is executed, and does not end the program, exactly if the widths that its opcode needs are not 0, moves and additions read a known scope, moves and loads do not write to memory, and a stack destination has a register |
| Execute.ResultEntry | libbeauty/src/execute/exe.c:899-1310 | The result keeps the start value of the first source; its scope is that of the source, local for loads, stores and moved parameters |
| Execute.RegisterMet | libbeauty/src/execute/exe.c:186-492 | A register met first is a parameter as first source, a local as second, and unknown if it only addresses the stack |
| Execute.SumExact | libbeauty/src/execute/exe.c:1157-1310 | The entry made for a sum or difference has its value exactly if the second operand has no offset |
| Execute.StepRefines | libbeauty/src/execute/exe.c:899-1310 | An executed instruction changes init + offset of registers and stack cells as its plain meaning says |
| StackRuns.RunRefines | libbeauty/src/execute/exe.c:806-1310 | So does every run that is not ended early, whatever its length |
| StackRuns.PopEnds | libbeauty/src/execute/exe.c:1157-1200 | A POP ends the program exactly when the stack pointer is not known |
| StackRuns.SavedRegistersReturn | libbeauty/src/input/convert_ll_inst_to_rtl/dis.c:1159-1247 | Executing all pushes, then anything that keeps the stack pointer and the slots, then the pops in reverse never ends the program and gives init + offset of every pushed register and of SP back, also when SP is first met by a push |
| StackRuns.FrameRuns | libbeauty/src/input/convert_ll_inst_to_rtl/dis.c:895-1202 | Executing the prologue, any body that keeps BP known, its saved value and the return address, then LEAVE and RET never ends the program and gives BP, SP and the return address as the caller expects |
| Rmb.Decoder.Rmb | libbeauty/src/input/instruction_decoder/ia32/dis.c:76-312 | For every byte stream: with Mod 3 only the operands are prepared; else the code added leaves the effective address of Tables 2-2 and 2-3 in TMP1 on every machine, changes nothing else, and bytes_used grows by the length of ModR/M, SIB and displacement |
| RmbEncoding.RegistersInOrder | libbeauty/src/input/instruction_decoder/ia32/opcodes.c:46-56 | The eight registers are AX and those that follow it in steps of eight, SP fifth and BP sixth |
| RmbEncoding.DecodesBack | libbeauty/src/input/instruction_decoder/ia32/dis.c:76-312 | Every address with base, index, scale and displacement, encoded into ModR/M, SIB and displacement bytes, is decoded to itself, with its register field and its length |
| RmbEncoding.DecodeEncoded | libbeauty/src/input/instruction_decoder/ia32/dis.c:76-312 | On the bytes of an encoded address the decoder's code leaves that address in TMP1 and exactly these bytes are used up |
| RmbEncoding.DecodeRegister | libbeauty/src/input/instruction_decoder/ia32/dis.c:92-109 | A byte with Mod 3 names one of the eight registers for both operands, and no code is added |
| Rmb.IndexScaled | libbeauty/src/input/instruction_decoder/ia32/dis.c:107-145 | The scaled index modulo 2^32, although the product is taken after the move wrapped around |
| Rmb.BaseAdvances | libbeauty/src/input/instruction_decoder/ia32/dis.c:146-256 | The base, or the 32-bit displacement that stands in for it, is the first summand or added to the index |
| Rmb.DisplacementAdvances | libbeauty/src/input/instruction_decoder/ia32/dis.c:257-311 | An eight-bit displacement above 0x7f is subtracted as its complement, which is adding its sign extension |

## Left out

- Pipeline.RecoverFunction: stops when a branch was dropped or the worklist scan found no entry; the source goes on in both cases. Functions with cycles, the merge of two return blocks between the passes with the second path search after it, the driver's exit on more than two return blocks (libbeauty/test/dis64.c:5051-5053), and the choice of the entry node are not part of it.
- AstBuilder.CfgToAst: the node and if-then-else cases. It stops when the scan finds no free entry; the source goes on with the entry that an earlier scan found last, entry 0 if there was none, and overwrites it. AstBuilder.OverwriteAbandons says what that costs; what else the rest of such a conversion does is not modelled. Branches are created before the if row is appended; the tables at the end are the same. The loop and goto forms are not modelled: LOOP_THEN_ELSE links one container and fills the next (libbeauty/src/analyse/ast.c:492-508), so no meaning can be stated.
- IfTails.BuildNodeIfTail: the mode that follows a path. The modes that follow normal links or use the looped paths concern nodes in loops.
- MergeNodes.NodeTable.AnalyseMergeNodes: of the fields that the source does not assign in the new row only the links are followed. The relocation field of operands is not compared. node_end marks in the log are not part of the tables.
- MemoryOperands.ConvertMemoryInst: one memory operand, and the operand widths the lowering passes on do not cut off values. Sub-register widths, flags and relocation are left out.
- Execute.ProcessState.GetValue: immediates, registers and stack slots. Data memory, whose first access reads the program image, value types, lengths, identifiers and log references are not tracked.
- Execute.ProcessState.ExecuteInstruction: NOP, MOV, LOAD, STORE to the stack, ADD and SUB. The other opcodes either do nothing to the stores or do not keep init + offset exact (multiplication with an immediate first operand).
- Execute.SearchStore: stores grow without bound; the source scans arrays of fixed size for the first entry that is not valid. As in the source, an entry is known by its start address and its size is ignored.
- Rtl.Exec: memory cells are keyed by start address as in the stores, so overlapping accesses of different sizes are separate cells.
- Rmb.Decoder.Rmb: relocation of displacements only sets a field that no meaning depends on.
- SearchBack.SearchBackLocalRegStack: the log is a value and the returned list a sequence; entries that are freed and resized in the source have no counterpart.
- WideMultiply.ConvertWideMultiply: register sources only.
- StackCode.ConvertPush: registers and immediates.
- build_control_flow_loops_multi_exit and its flag: read by printers only.
- BlockBuilder.InstLog.BuildControlFlowNodes: a log whose next lists hold no 0 and no duplicates; TidyLog.TidyConsistent says for which logs tidy_inst_log gets there. What becomes of a 0 among the successors is not followed further.
- process_block, the disassembler callback and libbfd: instruction lengths come from outside.
- REP MOVS, SETCC and CMOV lowering: unfinished in the source.
- Labels, types, parameters, the dot, C and text printers and the LLVM output.
