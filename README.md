# pm4py core algorithms, modelled and proved in Dafny

This project models seven pieces of pm4py, the process-mining library.

**Tree-based alignments** (`search_graph_pt.py`). These align each trace of an
event log against a process tree by a Dijkstra-style search over search
states. A search state is made of:

- a position in the trace;
- a snapshot of the tree's replay state;
- its cost;
- the leaves its transition opened;
- a parent link and a set of children.

Successors are one synchronous move per candidate leaf, and a log move when
none fits or some candidate forces one. A cheaper path to a known state lowers
its cost and its subtree's costs. The goal state is turned into an alignment
by walking the parent links back. The log-level driver caches alignments per
trace variant and reduced trees per activity set, and scores each alignment's
fitness.

**The trie of a log's variants** (`log_to_trie`). Each variant is inserted from
the root. A child with the activity's label is reused; otherwise a new child is
appended one level deeper, and it is final when created for the last activity.

**The sequence cut of the inductive miner** (`im_clean`). It starts with one
group per activity, merges mutually reachable and mutually unreachable pairs,
and sorts the groups by reachability rank. The projection of a log onto the
groups and the strict subset/superset tests are modelled too.

**The three simplicity metrics of the evolutionary tree miner:**

- the size ratio;
- duplicate and missing activities;
- "useless" nodes, judged by the rules of `is_useless`.

**The initial population of the evolutionary tree miner.** This covers random
trees, trace trees with their loop for repeated activities, the single-trace
strategy, and the builder that keeps trees distinct.

**Candidate selection.** The elite is made of deep copies of the members with
the best quality. The rest is drawn without replacement.

**Evaluation.** Metric results are stored floored at zero, and the quality is
the weighted mean of the stored metrics.

**How the model is built:**

- Process trees are values (`ProcessTrees.PTree`). A node is identified by its
  path of child indices.
- The tree-replay semantics (`pt_sem`) is an `Oracle` value supplied by the
  caller.
- Objects the source updates in place are classes:
  - `AlignmentSearch`, whose arena of search states lives in a sequence;
  - `Trie`;
  - the counters of the simplicity metrics;
  - `TraceCache`;
  - `PopulationList`;
  - `Individual`.
- Every random draw of the source is an explicit natural-number parameter.

## Model

Source paths are relative to the repository root.

| member | source | states |
|---|---|---|
| SearchStates.LessIsStrictWeakOrder | pm4py/algo/conformance/tree_alignments/variants/search_graph_pt.py:55-61 | `__lt__` is "cheaper, or equally cheap and further along the trace"; it is irreflexive, asymmetric and transitive, and two states are unordered exactly when cost and index agree |
| SearchStates.LeavesOfPathMembers | pm4py/algo/conformance/tree_alignments/variants/search_graph_pt.py:137-142 | every leaf recorded from a path is a leaf node the path moves to OPEN (a labelled one unless silent leaves are included) |
| SearchStates.LeavesOfPathContains | pm4py/algo/conformance/tree_alignments/variants/search_graph_pt.py:137-142 | conversely, every leaf the path opens is recorded |
| SearchStates.LeavesOfPathAppend | pm4py/algo/conformance/tree_alignments/variants/search_graph_pt.py:137-142 | recording leaves commutes with concatenating paths (the path is extended by the closing path before the leaves are read) |
| SearchStates.LabelledLeavesAreSubsequence | pm4py/algo/conformance/tree_alignments/variants/search_graph_pt.py:137-142 | the labelled leaves of a path form a subsequence of all its leaves, silent ones included |
| SearchStates.MinimumExists | pm4py/algo/conformance/tree_alignments/variants/search_graph_pt.py:175-177 | a non-empty frontier has a minimum under `__lt__`, so a pop always succeeds |
| SearchStates.MinimumOfAdded | pm4py/algo/conformance/tree_alignments/variants/search_graph_pt.py:127-134 | after a push, the minimum is the earlier of the old minimum and the pushed state |
| SearchStates.NeedLogMove | pm4py/algo/conformance/tree_alignments/variants/search_graph_pt.py:145-165 | the result is true exactly when the enabling path opens a leaf, or an XOR node (or a LOOP child) that was FUTURE or CLOSED in the old snapshot has a different state in the new one |
| SearchStates.Candidates | pm4py/algo/conformance/tree_alignments/variants/search_graph_pt.py:183-184 | the candidates are exactly the leaf-set leaves labelled with the current event, kept in leaf-set order; there are none exactly when no such leaf exists |
| SearchStates.SyncSuccessors | pm4py/algo/conformance/tree_alignments/variants/search_graph_pt.py:186-201 | each synchronous successor is one event further, has the expanded state as parent and no children, and costs no less |
| SearchStates.SyncSuccessorsSnoc | pm4py/algo/conformance/tree_alignments/variants/search_graph_pt.py:186-201 | one more candidate appends its synchronous successor at the end, when it has one |
| SearchStates.SyncSuccessorsSkip | pm4py/algo/conformance/tree_alignments/variants/search_graph_pt.py:187-189 | a candidate whose leaf cannot be enabled adds no synchronous successor |
| SearchStates.SyncSuccessorsFrom | pm4py/algo/conformance/tree_alignments/variants/search_graph_pt.py:186-201 | every synchronous successor comes from some candidate |
| SearchStates.LogMoveNeededSnoc | pm4py/algo/conformance/tree_alignments/variants/search_graph_pt.py:185-192 | after each candidate, `need_log_move` holds exactly when there were no candidates, or some candidate seen so far could not be enabled or forced a log move |
| SearchStates.SuccessorsCollected | pm4py/algo/conformance/tree_alignments/variants/search_graph_pt.py:182-206 | once all candidates are seen, the successors are the synchronous ones followed by the log move if one is needed |
| SearchStates.SuccessorsAdvanceOneEvent | pm4py/algo/conformance/tree_alignments/variants/search_graph_pt.py:196-206 | every successor explains exactly one more event, is a new child of the expanded state, and costs no less |
| SearchStates.SyncSuccessorCost | pm4py/algo/conformance/tree_alignments/variants/search_graph_pt.py:187-199 | a synchronous successor is charged for the labelled leaves of the enabling path only; it records the leaves of the enabling path and then those of the closing path, and takes the state after closing |
| SearchStates.NoCandidateOnlyLogMove | pm4py/algo/conformance/tree_alignments/variants/search_graph_pt.py:183-206 | without a candidate leaf, the log move is the only successor |
| SearchStates.BlockedCandidateOffersLogMove | pm4py/algo/conformance/tree_alignments/variants/search_graph_pt.py:186-206 | a candidate that cannot be enabled puts the log move among the successors |
| SearchStates.AllEnabledSyncCount | pm4py/algo/conformance/tree_alignments/variants/search_graph_pt.py:186-201 | when every candidate can be enabled, there is one synchronous successor per candidate |
| SearchStates.SuccessorsNonEmpty | pm4py/algo/conformance/tree_alignments/variants/search_graph_pt.py:182-206 | expanding a state before the end of the trace always offers some successor |
| Reconstruction.CountLabelledOfPath | pm4py/algo/conformance/tree_alignments/variants/search_graph_pt.py:190-197 | among all the leaves a path opens, the labelled ones are exactly those recorded without silent leaves, i.e. those that were charged |
| Reconstruction.LastLabelled | pm4py/algo/conformance/tree_alignments/variants/search_graph_pt.py:76-78 | finds the last recorded leaf labelled with the final event (the first one in the reversed list), or reports that there is none |
| Reconstruction.MarkedMovesSides | pm4py/algo/conformance/tree_alignments/variants/search_graph_pt.py:76-84 | a final step with a matching leaf executes every recorded leaf once, in order, and explains exactly the final event |
| Reconstruction.LastMarkedSides | pm4py/algo/conformance/tree_alignments/variants/search_graph_pt.py:90-94 | a step before the end of the trace executes its leaves in order, and its last leaf is synchronous with the parent's event |
| Reconstruction.UnmarkedFinalSides | pm4py/algo/conformance/tree_alignments/variants/search_graph_pt.py:85-89 | a final step without a matching leaf gives model moves for its leaves, plus the log move when one was charged |
| Reconstruction.StepMovesSides | pm4py/algo/conformance/tree_alignments/variants/search_graph_pt.py:74-96 | every step executes exactly the leaves its transition recorded, in order, and explains the parent's event unless the final step leaves out the log move |
| Reconstruction.ReconstructAtStart | pm4py/algo/conformance/tree_alignments/variants/search_graph_pt.py:73 | a state without a parent has the empty alignment |
| Reconstruction.ReconstructModelSide | pm4py/algo/conformance/tree_alignments/variants/search_graph_pt.py:67-101 | the model side of the alignment is every leaf recorded along the parent chain, oldest first |
| Reconstruction.ReconstructLogSide | pm4py/algo/conformance/tree_alignments/variants/search_graph_pt.py:67-101 | before the end of the trace, the log side of the alignment is the explained prefix of the trace |
| Reconstruction.ReconstructLogSideFinal | pm4py/algo/conformance/tree_alignments/variants/search_graph_pt.py:67-101 | with only the labelled leaves deducted at the final step (the correction of Findings row 1), the log side at the end of the trace is the whole trace, except that the last event is missing exactly when the final step leaves out its log move |
| Reconstruction.FinalStepKeepsEvent | pm4py/algo/conformance/tree_alignments/variants/search_graph_pt.py:75-89 | with only the labelled leaves deducted, a final step keeps the last event when it charged a log move or recorded a leaf labelled with that event |
| Reconstruction.SilentLeafDropsLogMove | pm4py/algo/conformance/tree_alignments/variants/search_graph_pt.py:86 | as written, for SEQUENCE(B, tau) and the trace [A], the goal state reached by a log move on A explains no event (see Findings) |
| Reconstruction.AsWrittenDropsLogMove | pm4py/algo/conformance/tree_alignments/variants/search_graph_pt.py:75-89 | as written, with every recorded leaf deducted: a final step reached by a log move and closing the tree, with no leaf labelled with the last event, explains no event exactly when it recorded a silent leaf (see Findings) |
| Reconstruction.AsWrittenAgreesBeforeEnd | pm4py/algo/conformance/tree_alignments/variants/search_graph_pt.py:67-101 | before the end of the trace, the reconstruction as written and the corrected one are the same, since only the final step deducts |
| Reconstruction.ReconstructAsWrittenLogSideFinal | pm4py/algo/conformance/tree_alignments/variants/search_graph_pt.py:67-101 | as written, the log side at the end of the trace is the whole trace, except that the last event is missing exactly when the final step, deducting all its recorded leaves, leaves out its log move |
| Reconstruction.FinishAfterLogMoveKeepsEvent | pm4py/algo/conformance/tree_alignments/variants/search_graph_pt.py:86-87 | when only the labelled leaves are deducted, a log move followed by closing the tree is never dropped |
| Reconstruction.ConstructResult | pm4py/algo/conformance/tree_alignments/variants/search_graph_pt.py:67-101 | walking the parent links and reversing yields the corrected reconstruction of the goal state, with the goal's cost and `optimal` true |
| SearchGraph.ReachLevels | pm4py/algo/conformance/tree_alignments/variants/search_graph_pt.py:108-111 | the recursion over children visits only arena entries at or below the starting level, and at that level only the starting states |
| SearchGraph.ReachDisjoint | pm4py/algo/conformance/tree_alignments/variants/search_graph_pt.py:108-111 | in the children forest, disjoint starting sets reach disjoint sets, so no state is lowered twice |
| SearchGraph.RelaxedIsShaped | pm4py/algo/conformance/tree_alignments/variants/search_graph_pt.py:114-124 | the relaxed arena is the only one the check-and-update relation admits, and it keeps the forest shape |
| SearchGraph.NoEquivalentNoChange | pm4py/algo/conformance/tree_alignments/variants/search_graph_pt.py:114-124 | when no state in the collection has the same index and snapshot, nothing changes |
| SearchGraph.AddedKeepsInv | pm4py/algo/conformance/tree_alignments/variants/search_graph_pt.py:127-134 | adding a successor keeps the search invariant and covers the successor; costs only fall, the frontier only grows, and the expanded entry is untouched |
| SearchGraph.AddedAllKeepsInv | pm4py/algo/conformance/tree_alignments/variants/search_graph_pt.py:186-206 | adding all successors one after another keeps the invariant and covers every one of them |
| SearchGraph.Finished | pm4py/algo/conformance/tree_alignments/variants/search_graph_pt.py:209-213 | FINISH keeps the index, parent and children; appends the closing path's leaves after those already recorded; charges its labelled leaves; and takes the closed snapshot |
| SearchGraph.FinishKeepsInv | pm4py/algo/conformance/tree_alignments/variants/search_graph_pt.py:207-214 | closing the tree at the end of the trace and pushing the state back keeps the invariant |
| SearchGraph.PopKeepsInv | pm4py/algo/conformance/tree_alignments/variants/search_graph_pt.py:175-177 | popping a minimum keeps the invariant, with the last popped cost never falling (Dijkstra monotonicity); the popped cost is at most every cost left on the frontier |
| SearchGraph.GoalExplainsTrace | pm4py/algo/conformance/tree_alignments/variants/search_graph_pt.py:178-179 | the corrected alignment of a state at the end of the trace has the whole trace as its log side |
| SearchGraph.AlignmentSearch.constructor | pm4py/algo/conformance/tree_alignments/variants/search_graph_pt.py:169-173 | the search starts with the initial snapshot at index 0 and cost 0 as the only open state, and nothing closed |
| SearchGraph.AlignmentSearch.UpdateCostsRecursive | pm4py/algo/conformance/tree_alignments/variants/search_graph_pt.py:108-111 | every state reachable through children from `states` loses exactly `delta`, and nothing else changes |
| SearchGraph.AlignmentSearch.LowerSubtree | pm4py/algo/conformance/tree_alignments/variants/search_graph_pt.py:109-111 | one state and everything below it lose `delta` |
| SearchGraph.AlignmentSearch.CheckIfStateExistsAndUpdate | pm4py/algo/conformance/tree_alignments/variants/search_graph_pt.py:114-124 | answers whether an equivalent state (same index, same snapshot) is in the collection, and relaxes each more expensive one: new cost, parent and leaves, with its subtree lowered by the difference |
| SearchGraph.AlignmentSearch.AddNewState | pm4py/algo/conformance/tree_alignments/variants/search_graph_pt.py:127-134 | closed is checked first, then open; only a state found in neither becomes a child of the expanded state and is pushed |
| SearchGraph.AlignmentSearch.Expand | pm4py/algo/conformance/tree_alignments/variants/search_graph_pt.py:182-206 | adds exactly the successors of the popped state, in order, each of them proper |
| SearchGraph.AlignmentSearch.Finish | pm4py/algo/conformance/tree_alignments/variants/search_graph_pt.py:207-214 | the popped state is replaced by its finished form and pushed back, keeping the invariant |
| SearchGraph.AlignmentSearch.PopCheapest | pm4py/algo/conformance/tree_alignments/variants/search_graph_pt.py:177 | pops a minimum of the frontier under `__lt__`; its cost is at least the previous pop's and at most every remaining one |
| SearchGraph.AlignmentSearch.Advance | pm4py/algo/conformance/tree_alignments/variants/search_graph_pt.py:180-214 | adds the popped state to the closed set; before the end of the trace, the arena and the open heap become those after pushing all its successors; at the end, the state is replaced by its FINISH form and pushed back; the invariant is kept |
| SearchGraph.AlignmentSearch.Search | pm4py/algo/conformance/tree_alignments/variants/search_graph_pt.py:175-214 | an answer is a closed tree at the end of the trace; its record is the corrected reconstruction, with cost no greater than anything left open; its log side is the trace and its model side the recorded leaves; an exhausted search has an empty frontier |
| SearchGraph.ApplyVariant | pm4py/algo/conformance/tree_alignments/variants/search_graph_pt.py:168-214 | a found alignment is marked optimal, has a non-negative cost, and, reconstructed with the correction, explains the variant |
| AlignmentDriver.Activities | pm4py/algo/conformance/tree_alignments/variants/search_graph_pt.py:417 | the cache key holds exactly the activities of the trace |
| AlignmentDriver.Fitness | pm4py/algo/conformance/tree_alignments/variants/search_graph_pt.py:424-429 | 0 when the trace length plus the best worst cost is not positive; otherwise 1 exactly for cost 0, and in [0, 1] for a cost between 0 and that sum |
| AlignmentDriver.ListedShared | pm4py/algo/conformance/tree_alignments/variants/search_graph_pt.py:414-435 | traces with the same variant get the same reported alignment |
| AlignmentDriver.ApplyToTrace | pm4py/algo/conformance/tree_alignments/variants/search_graph_pt.py:399-402 | a single trace aligned on its reduced tree yields an optimal, non-negative alignment that, reconstructed with the correction, explains it |
| AlignmentDriver.ReducedTree | pm4py/algo/conformance/tree_alignments/variants/search_graph_pt.py:417-422 | the reduced tree of an activity set is computed and cached at the first trace with that set, and looked up afterwards |
| AlignmentDriver.AlignVariant | pm4py/algo/conformance/tree_alignments/variants/search_graph_pt.py:423-431 | a found alignment is reported with its fitness, and its cost is multiplied by 10000; its log side is the variant, as reconstructed with the correction |
| AlignmentDriver.AlignTrace | pm4py/algo/conformance/tree_alignments/variants/search_graph_pt.py:415-435 | one round of the log loop appends the variant's cached alignment to the results; a variant already cached never fails and leaves both caches as they were, and every round keeps the caches and results consistent, each cached alignment explaining its variant as reconstructed with the correction |
| AlignmentDriver.ApplyToLog | pm4py/algo/conformance/tree_alignments/variants/search_graph_pt.py:410-440 | one reported alignment per trace, each explaining its trace (reconstructed with the correction) with the fitness against the best worst cost, which is the cost of an optimal alignment of the empty trace (returned as a ghost result); equal variants get equal results; every activity set is reduced once, at its first trace |
| LogToTrie.ExtendShape | pm4py/algo/transformation/log_to_trie/algorithm.py:46-48 | a new node is appended with the activity's label, the cursor as parent and depth one more; it is added as the parent's last child, and nothing else changes |
| LogToTrie.InsertOk | pm4py/algo/transformation/log_to_trie/algorithm.py:35-50 | insertion keeps the trie shape: parents and children agree, depths grow by one, and siblings have distinct labels |
| LogToTrie.InsertSpells | pm4py/algo/transformation/log_to_trie/algorithm.py:36-50 | after insertion, the variant can be followed from the cursor, ending on a node labelled with its last activity |
| LogToTrie.InsertCount | pm4py/algo/transformation/log_to_trie/algorithm.py:37-48 | insertion creates exactly one node per activity after the longest prefix already present |
| LogToTrie.InsertFromLeafCount | pm4py/algo/transformation/log_to_trie/algorithm.py:46-48 | below a node without children, every activity creates a node |
| LogToTrie.InsertFinal | pm4py/algo/transformation/log_to_trie/algorithm.py:46-50 | of the nodes created, only the last one is final |
| LogToTrie.InsertPresent | pm4py/algo/transformation/log_to_trie/algorithm.py:38-45 | a variant whose path already exists leaves the trie unchanged: its end node is not marked final |
| LogToTrie.WalkKept | pm4py/algo/transformation/log_to_trie/algorithm.py:38-48 | paths that existed before an insertion still lead to the same nodes |
| LogToTrie.BuildSpells | pm4py/algo/transformation/log_to_trie/algorithm.py:29-51 | the built trie has the trie shape and spells every variant from the root |
| LogToTrie.Trie.constructor | pm4py/algo/transformation/log_to_trie/algorithm.py:33 | the trie starts as a lone root: no label, no parent, not final, depth 0 |
| LogToTrie.Trie.FindChild | pm4py/algo/transformation/log_to_trie/algorithm.py:39-43 | returns the first child of the cursor that carries the activity's label |
| LogToTrie.Trie.Insert | pm4py/algo/transformation/log_to_trie/algorithm.py:36-50 | the node list afterwards is the reference insertion of the variant from the root |
| LogToTrie.Apply | pm4py/algo/transformation/log_to_trie/algorithm.py:29-51 | the returned trie is the reference build of all variants, in order |
| SequenceCut.Singletons | pm4py/algo/discovery/inductive/variants/im_clean/cuts/sequence.py:51 | one singleton group per activity, in alphabet order |
| SequenceCut.SingletonsPartition | pm4py/algo/discovery/inductive/variants/im_clean/cuts/sequence.py:51 | the singleton groups partition the alphabet |
| SequenceCut.MergeOk | pm4py/algo/discovery/inductive/variants/im_clean/cuts/sequence.py:57 | merging keeps a partition of the same alphabet, puts the two activities together, and separates nothing that was together; conversely, activities it puts together were together before, or each sat with one of the two activities |
| SequenceCut.MergeGroups | pm4py/algo/discovery/inductive/variants/im_clean/cuts/sequence.py:51-57 | the groups partition the alphabet; every pair that is mutually reachable or mutually unreachable ends up in one group; conversely, no group can be split in two without separating such a pair, so the groups are the connected components of the relation |
| SequenceCut.SingletonsConnected | pm4py/algo/discovery/inductive/variants/im_clean/cuts/sequence.py:51 | the singleton groups are connected |
| SequenceCut.MergeConnected | pm4py/algo/discovery/inductive/variants/im_clean/cuts/sequence.py:54-57 | merging the groups of a related pair keeps every group connected |
| SequenceCut.MergedSplit | pm4py/algo/discovery/inductive/variants/im_clean/cuts/sequence.py:54-57 | any split of the merged group separates the related pair or splits one of the two old groups |
| SequenceCut.InsertByKey | pm4py/algo/discovery/inductive/variants/im_clean/cuts/sequence.py:59-60 | inserting into a list sorted by key keeps it sorted and adds exactly that group |
| SequenceCut.SortByKey | pm4py/algo/discovery/inductive/variants/im_clean/cuts/sequence.py:59-60 | the result is sorted by key and is a permutation of the groups |
| SequenceCut.RankGroups | pm4py/algo/discovery/inductive/variants/im_clean/cuts/sequence.py:59-60 | every group's key is the rank (transitive predecessors plus activities not succeeding it) of one of its members |
| SequenceCut.SortedRanked | pm4py/algo/discovery/inductive/variants/im_clean/cuts/sequence.py:59-60 | sorting by those keys orders the groups by the rank of their representatives |
| SequenceCut.Detect | pm4py/algo/discovery/inductive/variants/im_clean/cuts/sequence.py:24-61 | no cut for an empty alphabet; otherwise the merged partition into the connected components of the relation, sorted by rank, and a cut exactly when at least two groups remain |
| SequenceCut.Restrict | pm4py/algo/discovery/inductive/variants/im_clean/cuts/sequence.py:88 | the filtered trace holds exactly the trace's events whose activity is in the group |
| SequenceCut.RestrictCounts | pm4py/algo/discovery/inductive/variants/im_clean/cuts/sequence.py:88 | each activity keeps all its occurrences when it is in the group, and none otherwise |
| SequenceCut.RestrictSplit | pm4py/algo/discovery/inductive/variants/im_clean/cuts/sequence.py:88 | filtering on two disjoint groups splits the events between them |
| SequenceCut.RestrictNothing | pm4py/algo/discovery/inductive/variants/im_clean/cuts/sequence.py:88 | filtering on no activity leaves no event |
| SequenceCut.RestrictAll | pm4py/algo/discovery/inductive/variants/im_clean/cuts/sequence.py:88 | filtering on a set holding every event keeps the trace |
| SequenceCut.Project | pm4py/algo/discovery/inductive/variants/im_clean/cuts/sequence.py:67-90 | one log per group, each trace filtered to the group's activities, in order |
| SequenceCut.ProjectionKeepsEvents | pm4py/algo/discovery/inductive/variants/im_clean/cuts/sequence.py:83-90 | over a partition of the trace's activities, the projected traces together hold each event exactly once |
| SequenceCut.StrictDual | pm4py/algo/discovery/inductive/variants/im_clean/cuts/sequence.py:93-98 | the strict superset test mirrors the strict subset test, which is proper inclusion |
| SequenceCut.StrictSubsetSmaller | pm4py/algo/discovery/inductive/variants/im_clean/cuts/sequence.py:93-94 | a strict subset is strictly smaller and misses an element of the larger set |
| SequenceCut.StrictSubsetOrder | pm4py/algo/discovery/inductive/variants/im_clean/cuts/sequence.py:93-94 | strict inclusion is irreflexive and transitive |
| ProcessTrees.Size | pm4py/algo/discovery/evolutionary_tree/metrics/simplicity.py:14-18 | a tree counts at least one node, its root |
| Simplicity.SimplicitySize | pm4py/algo/discovery/evolutionary_tree/metrics/simplicity.py:8-11 | the score lies in (0, 1] and is 1 exactly for a single-node tree |
| Simplicity.SumValues | pm4py/algo/discovery/evolutionary_tree/metrics/simplicity.py:38 | the loop's result is the total of the map's values |
| Simplicity.OccurrenceCounter.constructor | pm4py/algo/discovery/evolutionary_tree/metrics/simplicity.py:31-34 | every log activity is counted 0, no activity has been seen yet, and the node count is 1 |
| Simplicity.OccurrenceCounter.VisitLabel | pm4py/algo/discovery/evolutionary_tree/metrics/simplicity.py:47-51 | a labelled node counts as a duplicate exactly when its label was seen before, and is marked seen; every node adds one |
| Simplicity.OccurrenceCounter.VisitSubtree | pm4py/algo/discovery/evolutionary_tree/metrics/simplicity.py:46-53 | visiting a child and its subtree adds its size to the node count and tallies its labels |
| Simplicity.OccurrenceCounter.CountOccurrences | pm4py/algo/discovery/evolutionary_tree/metrics/simplicity.py:45-53 | all nodes below the root are counted and all their labels tallied |
| Simplicity.OccurrenceCounts | pm4py/algo/discovery/evolutionary_tree/metrics/simplicity.py:31-40 | duplicates are the non-root labels beyond the first of each; missing are the activities with no such label; nodes is the tree size |
| Simplicity.OccurrenceBounds | pm4py/algo/discovery/evolutionary_tree/metrics/simplicity.py:38-42 | duplicates plus missing activities stay below nodes plus event classes |
| Simplicity.SimplicityOccurrence | pm4py/algo/discovery/evolutionary_tree/metrics/simplicity.py:21-42 | the labelled-root case and the general formula, both exactly; the score is in (0, 1] whenever the formula's denominator counts a node or an activity |
| Simplicity.OpCountsSum | pm4py/algo/discovery/evolutionary_tree/metrics/simplicity.py:81-87 | the per-operator tallies add up to the number of operator children |
| Simplicity.IsUseless | pm4py/algo/discovery/evolutionary_tree/metrics/simplicity.py:102-137 | the verdict of rules 1 to 7 for each kind of node and parent operator, including the tally that rule 4 uses up and the mark that rule 6 sets |
| Simplicity.UselessCounter.constructor | pm4py/algo/discovery/evolutionary_tree/metrics/simplicity.py:63-66 | the activity keys (log activities plus the silent key), no useless node, and a node count of 1 |
| Simplicity.UselessCounter.Tally | pm4py/algo/discovery/evolutionary_tree/metrics/simplicity.py:85-91 | tallies the children's operators and leaf labels; each child adds one node |
| Simplicity.UselessCounter.JudgeChild | pm4py/algo/discovery/evolutionary_tree/metrics/simplicity.py:95-99 | the verdict on one child is counted when useless, and leaves the tallies that rule 4 has not used up |
| Simplicity.UselessCounter.JudgeChildren | pm4py/algo/discovery/evolutionary_tree/metrics/simplicity.py:94-99 | every child gets its verdict and each useless one is counted |
| Simplicity.UselessCounter.CountBelow | pm4py/algo/discovery/evolutionary_tree/metrics/simplicity.py:77-79 | an operator child is judged all the way down; a leaf has nothing below it |
| Simplicity.UselessCounter.CountUseless | pm4py/algo/discovery/evolutionary_tree/metrics/simplicity.py:74-99 | the whole subtree is judged bottom up; its nodes are counted and its useless nodes added |
| Simplicity.UselessBounded | pm4py/algo/discovery/evolutionary_tree/metrics/simplicity.py:74-99 | at most every node below the root is useless |
| Simplicity.UselessCounts | pm4py/algo/discovery/evolutionary_tree/metrics/simplicity.py:62-68 | the counts are the useless marks of a complete judgement and the tree size |
| Simplicity.SimplicityUselessNodes | pm4py/algo/discovery/evolutionary_tree/metrics/simplicity.py:56-71 | 1 for a labelled root, otherwise 1 - useless / nodes over a complete judgement; always in (0, 1] |
| InitialGeneration.Randint | pm4py/algo/discovery/evolutionary_tree/evolutions/initial_generation.py:147 | `randint(lo, hi)` lands in the inclusive range |
| InitialGeneration.Enumerate | pm4py/algo/discovery/evolutionary_tree/evolutions/initial_generation.py:183 | listing a set gives every element exactly once |
| InitialGeneration.RepeatedActivitiesSpec | pm4py/algo/discovery/evolutionary_tree/evolutions/initial_generation.py:61-67 | the duplicates are exactly the activities occurring at least twice, each listed once, in order of their second occurrence |
| InitialGeneration.Duplicates | pm4py/algo/discovery/evolutionary_tree/evolutions/initial_generation.py:61-67 | the loop computes that list |
| InitialGeneration.GenerateLoop | pm4py/algo/discovery/evolutionary_tree/evolutions/initial_generation.py:142-169 | the loop holds: the single child (a drawn duplicate, or tau when the draw is past the end) and a SEQUENCE of the other duplicates, in an arbitrary order (the iteration order of a set), then a closing tau |
| InitialGeneration.LoopCoversDuplicates | pm4py/algo/discovery/evolutionary_tree/evolutions/initial_generation.py:147-164 | an activity is in the loop, as the single leaf or under the SEQUENCE, exactly when it is a duplicate |
| InitialGeneration.Unrepeated | pm4py/algo/discovery/evolutionary_tree/evolutions/initial_generation.py:77-79 | the events kept as leaves are exactly the trace's non-duplicate events |
| InitialGeneration.TraceTree | pm4py/algo/discovery/evolutionary_tree/evolutions/initial_generation.py:58-84 | the tree built for one trace is its trace tree |
| InitialGeneration.CreateTraceTrees | pm4py/algo/discovery/evolutionary_tree/evolutions/initial_generation.py:55-85 | one trace tree per trace, in log order |
| InitialGeneration.TraceTreeOneLoop | pm4py/algo/discovery/evolutionary_tree/evolutions/initial_generation.py:76-82 | with repeated activities, the trace tree has exactly one operator child, the LOOP; every other child is a leaf of an activity that does not repeat |
| InitialGeneration.RandomSelection | pm4py/algo/discovery/evolutionary_tree/evolutions/initial_generation.py:34-43 | the draw gives an operator from the four, or a log activity; drawing an activity from no labels is the error case |
| InitialGeneration.GenerateTree | pm4py/algo/discovery/evolutionary_tree/evolutions/initial_generation.py:23-31 | a labelled node is left as it is; an operator node keeps its children and gets drawn ones until it has two, each grown in turn |
| InitialGeneration.RandomGeneration | pm4py/algo/discovery/evolutionary_tree/evolutions/initial_generation.py:13-20 | a generated tree is grown: a log activity, or a drawn operator with two grown children |
| InitialGeneration.GrownWellFormed | pm4py/algo/discovery/evolutionary_tree/evolutions/initial_generation.py:23-31 | a grown tree is well formed, has at most two children per node, and only log activities label it |
| InitialGeneration.GrownSizeOdd | pm4py/algo/discovery/evolutionary_tree/evolutions/initial_generation.py:28-31 | a grown tree is a full binary tree, so its size is odd |
| InitialGeneration.Ids | pm4py/algo/discovery/evolutionary_tree/evolutions/initial_generation.py:183 | `range(len(log))` as a set: exactly the ids below n |
| InitialGeneration.PickUnused | pm4py/algo/discovery/evolutionary_tree/evolutions/initial_generation.py:183-186 | the selected id is a trace id not used before |
| InitialGeneration.TraceCache.constructor | pm4py/algo/discovery/evolutionary_tree/evolutions/initial_generation.py:174-177 | neither cache entry exists yet |
| InitialGeneration.TraceCache.SingleTraceModel | pm4py/algo/discovery/evolutionary_tree/evolutions/initial_generation.py:172-189 | the trace trees are created once and kept; once every id is used, a grown random tree; otherwise a fresh id is marked used and its trace tree returned |
| InitialGeneration.DedupSpec | pm4py/algo/discovery/evolutionary_tree/evolutions/initial_generation.py:211-216 | the deduplicated list holds each tree of the input once and nothing else |
| InitialGeneration.NextNew | pm4py/algo/discovery/evolutionary_tree/evolutions/initial_generation.py:210-213 | finds the next candidate not already in the population, or reports that the candidates ran out |
| InitialGeneration.GenerateInitialPopulation | pm4py/algo/discovery/evolutionary_tree/evolutions/initial_generation.py:201-218 | new individuals with ids 0, 1, ..., the log's activities, and pairwise distinct trees, taken in order of first appearance among the candidates; the population is full unless the candidates ran out |
| Population.Individual.constructor | pm4py/algo/discovery/evolutionary_tree/evolutions/initial_generation.py:207-215 | a member holds its id, the log's activities and its tree, and nothing evaluated |
| Population.Individual.Copy | pm4py/algo/discovery/evolutionary_tree/evolutions/candidate_selection.py:29 | `deepcopy` yields a new member with the same contents |
| CandidateSelection.Ranking | pm4py/algo/discovery/evolutionary_tree/evolutions/candidate_selection.py:29 | the sort lists every member index exactly once |
| CandidateSelection.RankingRanked | pm4py/algo/discovery/evolutionary_tree/evolutions/candidate_selection.py:29 | the ranking is by descending quality, with ties in list order (a stable sort with `reverse=True`) |
| CandidateSelection.SliceEnd | pm4py/algo/discovery/evolutionary_tree/evolutions/candidate_selection.py:29 | the slice `[:e]` keeps at most the whole list, and a negative `e` counts from the end |
| CandidateSelection.EliteIsTop | pm4py/algo/discovery/evolutionary_tree/evolutions/candidate_selection.py:29 | no member left out of the elite has a higher quality than any member in it |
| CandidateSelection.CollectQualities | pm4py/algo/discovery/evolutionary_tree/evolutions/candidate_selection.py:29 | reads every member's quality, in list order |
| CandidateSelection.DeepCopies | pm4py/algo/discovery/evolutionary_tree/evolutions/candidate_selection.py:29 | a fresh copy of each member at the given indices, in order |
| CandidateSelection.Elite | pm4py/algo/discovery/evolutionary_tree/evolutions/candidate_selection.py:29 | as many fresh copies as the slice keeps, of the members the ranking puts first, in ranking order |
| CandidateSelection.Draw | pm4py/algo/discovery/evolutionary_tree/evolutions/candidate_selection.py:11-15 | one pick per draw until the list runs empty; picks and remaining members together are as many as the population |
| CandidateSelection.DrawPermutes | pm4py/algo/discovery/evolutionary_tree/evolutions/candidate_selection.py:13-15 | the picks and the remaining members together are the population, rearranged |
| CandidateSelection.DrawWithin | pm4py/algo/discovery/evolutionary_tree/evolutions/candidate_selection.py:13-15 | picks and remaining members are all members of the population |
| CandidateSelection.DrawDistinct | pm4py/algo/discovery/evolutionary_tree/evolutions/candidate_selection.py:13-15 | from a population of distinct members, the picks are distinct and none of them remains (drawing without replacement) |
| CandidateSelection.PopulationList.PickOne | pm4py/algo/discovery/evolutionary_tree/evolutions/candidate_selection.py:13-15 | the drawn member is returned and removed from the list |
| CandidateSelection.PopulationList.QualityProportional | pm4py/algo/discovery/evolutionary_tree/evolutions/candidate_selection.py:7-17 | succeeds exactly when the list holds enough members for POPULATION_SIZE - ELITE_SIZE draws; the selection is the picks in order and the list keeps the rest |
| CandidateSelection.SelectCandidates | pm4py/algo/discovery/evolutionary_tree/evolutions/candidate_selection.py:27-33 | the elite is taken from the population before the selection removes anything, and the selection as above |
| Evaluation.WeightsOf | pm4py/algo/discovery/evolutionary_tree/metrics/evaluation.py:25-29 | the weights can be read exactly when every configured metric carries one, and are then those weights |
| Evaluation.Normalise | pm4py/algo/discovery/evolutionary_tree/metrics/evaluation.py:5-9 | each metric keeps its name and its weight, and weighs 1 when it has none |
| Evaluation.NormaliseAgrees | pm4py/algo/discovery/evolutionary_tree/metrics/evaluation.py:6-9 | where the configured list can be read as written, normalising changes nothing |
| Evaluation.UnweightedEntryFails | pm4py/algo/discovery/evolutionary_tree/metrics/evaluation.py:6-9 | as written, a one-element metric tuple is left without a weight, so its weight cannot be read; normalised, it weighs 1 (see Findings) |
| Evaluation.Stored | pm4py/algo/discovery/evolutionary_tree/metrics/evaluation.py:18-20 | every configured metric's name is written, and every written value is non-negative |
| Evaluation.StoredOnlyNames | pm4py/algo/discovery/evolutionary_tree/metrics/evaluation.py:18-20 | only the configured metrics' names are written |
| Evaluation.StoredLastWins | pm4py/algo/discovery/evolutionary_tree/metrics/evaluation.py:18-20 | a metric that no later metric shares its name with keeps its own result floored at zero |
| Evaluation.EvaluateTree | pm4py/algo/discovery/evolutionary_tree/metrics/evaluation.py:16-20 | the member's scores are the old ones overwritten by the stored results, and the other fields do not change |
| Evaluation.WeightedMean | pm4py/algo/discovery/evolutionary_tree/metrics/evaluation.py:27-29 | the accumulation loop yields the weighted mean of the stored values |
| Evaluation.CalculateQuality | pm4py/algo/discovery/evolutionary_tree/metrics/evaluation.py:23-31 | fails exactly when the weights sum to zero over a non-empty list; otherwise stores the weighted mean (0 for no metrics) as the quality and changes nothing else |
| Evaluation.QualityWithinValues | pm4py/algo/discovery/evolutionary_tree/metrics/evaluation.py:23-31 | with positive weights, the quality lies between the smallest and the largest stored value |
| Evaluation.QualityNonNegative | pm4py/algo/discovery/evolutionary_tree/metrics/evaluation.py:16-31 | values written by evaluation are non-negative, so with positive weights the quality is too |
| Evaluation.EvaluateTreeList | pm4py/algo/discovery/evolutionary_tree/metrics/evaluation.py:4-13 | every member is evaluated and gets its quality under the normalised weights; a member's scores are its old scores with the results of its last position in the list stored over them; ids, log activities and trees stay as they were; this fails exactly when the members and metrics are non-empty and the weights sum to zero |

## Left out

- The replay semantics of process trees (`pt_sem`) is not part of this model. It is an `Oracle` parameter, and the model assumes three things of it:
  - its initial snapshot holds the root;
  - enabling and closing keep the key set of a snapshot;
  - closing a leaf that was just enabled passes through opening it (`CloseOpensLeaf`).
- The tree reduction `get_reduced_tree` is not part of this model. It is a `Reducer` parameter assumed to return leaves of the reduced tree.
- `pt_util` is not part of this model either: leaf sets are given as positions.
- Reconstruction.ReconstructLogSideFinal states the log side of the corrected reconstruction of Findings row 1. As written, line 86 deducts every recorded leaf; Reconstruction.ReconstructAsWrittenLogSideFinal states that case.
- Reconstruction.FinalStepKeepsEvent holds for the corrected step only. As written, a charged log move is dropped when the closing recorded a silent leaf (Reconstruction.AsWrittenDropsLogMove).
- Reconstruction.ConstructResult walks the links with the corrected deduction. As written, the source drops the log move as in Findings row 1.
- SearchGraph.GoalExplainsTrace holds for the corrected reconstruction only. As written, the source drops the log move on SEQUENCE(B, tau) and the trace [A].
- SearchGraph.AlignmentSearch.Search returns the corrected reconstruction, so its log side is the whole trace. As written, the source drops the log move as in Findings row 1.
- SearchGraph.ApplyVariant explains the variant only because the reconstruction is corrected. As written, the source drops the log move as in Findings row 1.
- AlignmentDriver.ApplyToTrace: `LogSide == trace` holds for the corrected reconstruction only. As written, the source drops the log move as in Findings row 1.
- AlignmentDriver.AlignVariant reports `LogSide == variant`, which holds for the corrected reconstruction only. As written, the source drops the log move as in Findings row 1.
- AlignmentDriver.AlignTrace keeps cached alignments that explain their variants, which holds for the corrected reconstruction only. As written, the source drops the log move as in Findings row 1.
- AlignmentDriver.ApplyToLog: each alignment explains its trace only because the reconstruction is corrected. As written, the source drops the log move as in Findings row 1.
- SearchGraph.AlignmentSearch.Search: a `fuel` bound on the number of pops stands in for the unbounded loop. When the fuel runs out, the outcome is `OutOfFuel`, which the source has no counterpart for.
- The open heap is a multiset, and a pop takes any minimum under `__lt__`. The order among equal states, and the heap-shape effects of relaxing a state without re-heapifying, are not modelled.
- The following are left out as I/O or presentation:
  - the tqdm progress bar;
  - parameter lookup and activity keys, with traces given as label sequences;
  - the `print` in the useless-nodes metric.
- AlignmentDriver.ApplyToLog: a search without an answer, where the source would fail on a missing result, is the error `NoAlignment`.
- AlignmentDriver.ApplyToLog: variants are keyed by their label sequence. `pm4py.get_variants` is not part of this model.
- LogToTrie.Apply takes each variant as a label sequence. The source splits the variant strings on ',': a label containing ',' becomes several labels, and the empty variant becomes a single final child labelled with the empty string, where the model inserts nothing.
- The `utils` module of `im_clean` is not part of this model. Its group merge is modelled as dropping both groups and putting their union in front.
- SequenceCut.Detect: the alphabet is a list without repetitions, in the order `product` visits it.
- SequenceCut.Detect: the group member that `next(iter(g))` picks is arbitrary.
- SequenceCut.SortByKey: the result is proved sorted and a permutation, but not stable.
- Simplicity.SimplicityOccurrence: the log activities are required to cover every label below the root. The source raises `KeyError` only for a label that is both missing from them and seen twice.
- Simplicity.SimplicityUselessNodes:
  - the tree is required to be well formed and its leaves to be labelled with log activities (or silent);
  - the `useless`/`rule6` attributes are assumed absent on the fresh copy;
  - parent pointers are assumed to agree with the tree.
- Simplicity: the marks that `count_useless` leaves on the copied tree are a ghost result, not fields of nodes.
- InitialGeneration.CreateTraceTrees: each trace takes one pair of draws for its loop.
- Draws are natural numbers reduced into the range `randint` would use.
- `trace_model` and `merge_trace_trees` (and the helpers they use) are not part of this model.
- `get_event_labels` is not part of this model: the activity labels are a parameter.
- InitialGeneration.GenerateInitialPopulation: the variant's successive results are a finite list. When it runs out before the population is full, `ok` is false, where the source would keep calling the variant.
- Trees are compared as values. The `ProcessTree` class and its equality are not part of this model, and parent pointers are not modelled.
- InitialGeneration.GenerateTree: the supply of draws is finite. When it runs out, `ok` is false.
- CandidateSelection.PopulationList.QualityProportional does not model the quality weighting of `choices`. Each draw is an arbitrary index, and the zero-total `ValueError` is not modelled.
- CandidateSelection.PopulationList.PickOne removes the drawn entry. `population.remove` removes the first entry equal to it, which is the same entry when members are pairwise distinct.
- Evaluation.EvaluateTree: the metric functions are not part of this model. Their results are inputs.
- Evaluation: the quality is a field of its own. In the source it shares the dictionary with the metric names, so a metric named like the quality key would collide.
- Evaluation.EvaluateTreeList: on failure, the state left by the partial writes to the first member is not specified.
- Evaluation.EvaluateTreeList computes with the normalised weights of Findings row 2. As written, the source fails on the first member whenever an entry has no weight: `metric[0]` fails for a bare metric, and `metric[1]` for a one-element tuple.
- Parallelism, floating-point rounding and fixed-width integers are not modelled: reals and integers are exact.

## Findings

| source | as written | input that shows it | evidently intended | confidence | as-written member | corrected member |
|---|---|---|---|---|---|---|
| pm4py/algo/conformance/tree_alignments/variants/search_graph_pt.py:86 | the final step's log move is detected by deducting every recorded leaf, silent ones included, from the cost increase; but FINISH charged only the labelled leaves | tree SEQUENCE(B, tau), trace [A]: a log move on A, then FINISH opens B and tau at cost 2; 2 - 2 is not above the parent's cost 0, so the alignment has no move for A | deduct only the labelled leaves, so the log move is kept and the alignment explains the whole trace | high (not executed) | Reconstruction.AsWrittenDropsLogMove | Reconstruction.FinishAfterLogMoveKeepsEvent |
| pm4py/algo/discovery/evolutionary_tree/metrics/evaluation.py:6-9 | the default weight is assigned to the loop variable only, so the configured list is never changed | metrics configured as `[(fitness,)]`: `calculate_quality` reads `metric[1]` of a one-element tuple and fails | every metric without a weight weighs 1 | high (not executed) | Evaluation.UnweightedEntryFails | Evaluation.Normalise |
