# ProAlign core in Dafny

ProAlign aligns two protein-protein interaction networks. It pairs the proteins of one organism with those of another so that sequence-similar proteins are matched and conserved interactions are kept. This project models the native seed-and-extend aligner of `align.py` and its helpers:

- **Aligner and evaluation.**
  - The one-to-one repair `verify_alignment`.
  - The conserved-edge finder `find_paired_edges`.
  - The pair filter `select_pairs`.
  - The CE/NBS/EC/ICS/S3 formulas.
- **Greedy aligners.** `greedy_align`, and `semi_greedy_align` with its 2-swap phase.
- **Seeding and extension.**
  - The seed selection, the seed commit and the keep-ratio cut of `seed_extend_align`.
  - Its two extension strategies: the `multiple+cut` rounds and the best-first `single_extend` loop.
- **Assignment helpers** (`utils.py`). The greedy matcher, the pair-matrix conversion and `normalize`.
- **Network and cluster bookkeeping** (`organism.py`). The network index structures, the `OrgCluster` tables and the integer bookkeeping of the clustering loops.
- **Readers and writers.**
  - The STRING line readers of `string_db.py`.
  - The BLAST-report readers and writers, the per-line best-pair choice of the external-aligner readers, the Reactome pathway reader and the LEDA `.gw` writer of `interface.py`.

The modules follow the source:

- `Common` (common.dfy): pairs, `Option`/`Result`, one-to-one lists, subsequences.
- `Text` (text.dfy): Python's `strip`, `split`, `split(sep)`, `int` and `str` on strings.
- `Sorting` (sorting.dfy): Python's stable `sort` by score, ascending or descending.
- `Organism` (organism.py): edges, adjacency, degree, neighbours, `v_ind`.
- `Clusters` (organism.py): `OrgCluster` (a class with the tables as fields), the clustering bookkeeping.
- `Matching` (utils.py): `greedy_assignment`, the pair-matrix loop, `normalize`.
- `Evaluate` (align.py): `verify_alignment`, `find_paired_edges`, `select_pairs`, the measures.
- `Greedy` (align.py): `greedy_align`, `semi_greedy_align`.
- `Seeds` (align.py): base seed, degree seed, seed commit, keep cut.
- `Rounds` (align.py): the `multiple+cut` rounds.
- `SingleExtend` (align.py): the `single_extend` loop with `common_neighbor` scores.
- `StringDb` (string_db.py): the five line readers.
- `Blast`, `BlastVal` (interface.py): the BLAST readers and score writers.
- `BestPairs` (interface.py): the per-line best pair of `isorankN_align`. The same loop reads the output of NETAL, pinalog, C-GRAAL, GRAAL, MI-GRAAL, HubAlign, MAGNA, PROPER, OptNet and ModuleAlign (interface.py:346-374, 452-477, 582-610, 657-682, 726-751, 804-832, 927-952, 1007-1035, 1287-1314, 1369-1397).
- `Pathways` (interface.py): `get_pathways`.
- `Gw` (interface.py): `generate_gw_file_raw`.

The source's loops are methods with loop invariants. Each is proved against a specification function, and the properties the source promises are lemmas about those functions.

Every reader takes a file as the sequence of its lines. An exception the source would raise becomes an `Err`.

The source's configuration constants are parameters:
- `MAX_SEED_SIZE` and `MAX_EXTEND_SIZE` are the `cap` parameters.
- `KEEP_RATIO` is `ratio`.
- `INTERACTION_THR` is `thr`.

Python floats are modelled as exact `real`s.

## Model

| member | source | states |
|---|---|---|
| Organism.NodeIdsLastIndex | organism.py:61 | `node_to_id` has exactly the listed names as keys; each id is a position holding its name, and it is the last such position |
| Organism.AdjAddEdge | organism.py:80-82 | writing a 1 at (n1, n2) and at (n2, n1) gives the adjacency matrix of the edge set with (min, max) added |
| Organism.BuildNetwork | organism.py:61-82 | construction succeeds exactly when every edge name resolves; the network is then the (min, max) edge set of the resolved pairs with its induced adjacency; otherwise the error names the first missing name of the first unresolvable edge (the KeyError) |
| Organism.EdgeSetCanonical | organism.py:74-80 | every stored edge is (min, max) inside the node range and the adjacency is the one the edge set induces |
| Organism.EdgeSetCollapses | organism.py:79 | adding a reversed or repeated edge leaves the edge set unchanged |
| Organism.AdjacencySymmetric | organism.py:76-82 | the adjacency of a built network is symmetric, 0/1, and holds a 1 at (i, j) exactly when (i, j) or (j, i) is a stored edge |
| Organism.Neighbors | organism.py:100-101 | the neighbours of a node are exactly the nodes it shares an edge with, in strictly ascending order |
| Organism.DegreeIsNeighborCount | organism.py:84 | `degree[j]`, the column sum, equals the number of neighbours of j |
| Organism.VIndBelow | organism.py:680-681 | a cell of the n1 x n2 grid has an index below n1 · n2 |
| Organism.VIndBijection | organism.py:680-681 | `v_ind(i, j) = i·n2 + j` maps [0, n1) x [0, n2) onto [0, n1·n2), with division and remainder by n2 as its inverse |
| Organism.VIndInjective | organism.py:680-681 | distinct cells have distinct indices |
| Clusters.IndexClusters | organism.py:29-37 | after the loop `cl_size[l]` counts the nodes labelled l, `node_dic[i]` is (label of i, number of earlier nodes with that label), the keys of `cl_dic` are exactly the positions 0..cl_size[l]-1 of every cluster, and `cl_dic` and `node_dic` invert each other |
| Clusters.TablesStep | organism.py:31-37 | indexing one more node (position = current size of its cluster, then the size grows) keeps all three tables exact |
| Clusters.OrgCluster.constructor | organism.py:22-48 | both sides' tables are built and exact for the given labels |
| Clusters.ClusterSizesTotal | organism.py:28-37 | the cluster sizes of a side add up to its node count and every position (l, k) with k < cl_size[l] names a node labelled l |
| Clusters.LabelSizes | organism.py:161-163 | the size dictionary has exactly the labels in use as keys and counts, for every label, the nodes carrying it |
| Clusters.SizesTotal | organism.py:161-163 | a size dictionary that agrees with the labels totals the node count |
| Clusters.Selector | organism.py:177-178 | `selector` lists exactly the nodes labelled with the split label, ascending |
| Clusters.Changes | organism.py:181-182 | `changes` holds exactly the (selected node, new cluster index) couples whose index is not 0, ordered by node |
| Clusters.ChangesReady | organism.py:172-182 | the changes computed from the selector move distinct members of the split cluster, so the split pass's conditions hold |
| Clusters.SplitPass | organism.py:183-188 | the labels become the original ones with every changed node relabelled `newlabel + x`, the size dictionary still counts every label exactly, and every label is at most the advanced `newlabel` |
| Clusters.SplitKeepsTotal | organism.py:183-187 | a split pass moves nodes between labels without changing the total of the sizes |
| Clusters.GapLabels | organism.py:243-248 | position i receives the number of bounds below i, and the final counter is the number of bounds below the length |
| Clusters.GapLabelsShape | organism.py:243-248 | labels start at 0 and step up by one exactly after each bound position; with every bound among the gaps the last label is the number of bounds |
| Clusters.RepL2LabelCount | organism.py:222-248 | for a cluster above the size limit, the `size // MAX_CLUSTER_SIZE` largest gaps give exactly `nccluster - 1` bounds, hence labels 0..nccluster-1 |
| Clusters.CoupleBounds | organism.py:320-336 | after the coupling loop every run of dropped gaps joins fewer than MAX_CLUSTER_SIZE positions, and the coupling is maximal: dropping any gap it keeps would join a run of MAX_CLUSTER_SIZE or more positions |
| Clusters.LongRunKept | organism.py:324-336 | a gap whose grown run reaches MAX_CLUSTER_SIZE positions cannot be dropped without a run reaching the cap, which is why the loop keeps it |
| Clusters.MustKeepStays | organism.py:320-336 | gaps dropped later only lengthen runs, so a gap that had to be kept when it was visited still has to be kept at the end |
| Clusters.DropKeepsRunsShort | organism.py:324-336 | dropping a gap whose grown run is still short keeps every run short |
| Clusters.SelectedBoundsMembers | organism.py:338-339 | the bounds are exactly the gaps still selected |
| Clusters.CoupledClustersSmall | organism.py:320-346 | two positions that receive the same label in `min_couple_l2` lie in a cluster of fewer than MAX_CLUSTER_SIZE positions |
| Matching.CellsMembers | utils.py:216-219 | the cell list has l1·l2 entries and holds each in-range (i1, i2, scores[i1, i2]) and nothing else |
| Matching.BuildCells | utils.py:216-219 | the nested loop builds the row-major cell list |
| Matching.GreedyOneToOne | utils.py:225-232 | the greedy scan never takes a node twice |
| Matching.GreedySubsequence | utils.py:225-232 | the greedy pairs appear in the order the scan met them |
| Matching.GreedyGrows | utils.py:225-232 | a longer scan keeps every node taken by a shorter one |
| Matching.GreedyMaximal | utils.py:225-232 | every scanned cell shares a node with a taken pair |
| Matching.GreedyHead | utils.py:225-232 | the first cell scanned is always taken |
| Matching.GreedyExhausted | utils.py:233-234 | once one side is used up, the early `break` returns what the full scan would |
| Matching.GreedyScan | utils.py:225-235 | the loop with its early `break` returns exactly the greedy pairs of the full scan |
| Matching.GreedyFullSize | utils.py:214-235 | over every cell of an l1 x l2 matrix the greedy scan takes min(l1, l2) pairs |
| Matching.GreedyAscending | utils.py:220-232 | over cells sorted by ascending score the pairs are taken in ascending score order |
| Matching.SortedCells | utils.py:216-220 | sorting keeps exactly the cells of the matrix |
| Matching.AssignmentProperties | utils.py:214-235 | the greedy pairs are one-to-one, min(l1, l2) many, matrix cells with their scores, in ascending score order, and block every other cell |
| Matching.AssignmentIndices | utils.py:214-235 | `p1` and `p2` have equal length min(l1, l2), repeat no index, are in range, take non-decreasing scores, and every cell shares a row or column with a taken cell |
| Matching.AssignmentHead | utils.py:216-231 | the first pair taken is a minimal cell, and among equal minima the first in row-major order |
| Matching.GreedyAssignment | utils.py:214-235 | `greedy_assignment` returns the two index lists of the greedy pairs, with all the properties above; an empty matrix gives two empty lists |
| Matching.FirstTrue | utils.py:201 | `list(x).index(True)` is the first True column, and absent (the ValueError) exactly when the row has no True |
| Matching.PairMatrixToIndices | utils.py:199-206 | a row enters `p1` exactly when it holds a True, paired with its first True column; `p1` is strictly increasing and as long as `p2` |
| Matching.PairMatrixColumnsDistinct | utils.py:199-206 | when the solver pairs one-to-one, no column index repeats in `p2` |
| Matching.NormalizeSumsToOne | utils.py:104-107 | a non-negative vector with positive sum normalises to values in [0, 1] summing to 1 |
| Matching.NormalizeZeroColumn | utils.py:104-107 | an all-zero column stays zero (0/0 is replaced by 0) |
| Matching.NormalizeInfinite | utils.py:104-107 | a non-zero entry over a zero column sum becomes an infinity of its sign; only 0/0 is replaced |
| Matching.NormalizeColumnSumsToOne | utils.py:104-107 | on a 2-D array each column is divided by its own sum, so a non-negative column with positive sum sums to 1 |
| Sorting.InsertPermutes | utils.py:220 | inserting adds exactly one entry |
| Sorting.InsertSorted | utils.py:220 | inserting into a sorted list keeps it sorted |
| Sorting.SortByScore | utils.py:220 | the sort is a permutation of its input, ordered by score |
| Sorting.SortStable | utils.py:220 | the sort is stable: entries with one score keep their input order |
| Sorting.WithScoreMembers | utils.py:220 | the entries with a given score are exactly the input's entries with it |
| Evaluate.VerifyAlignment | align.py:1923-1934 | the kept pairs are exactly the greedy scan of the pair list (a pair stays when neither node was kept before); they are one-to-one and a subsequence of the input in its order |
| Evaluate.GreedyKeepsOneToOne | align.py:1923-1934 | a list that is already one-to-one passes the check unchanged |
| Evaluate.VerifyIdempotent | align.py:1923-1934 | checking the checked list again returns it unchanged |
| Evaluate.ToSecLastWins | align.py:212-214 | `to_sec` has exactly the first-network nodes of the pairs as keys and maps each to the partner in its last pair |
| Evaluate.ToSecOneToOne | align.py:212-214 | for a one-to-one alignment `to_sec` maps every pair's first node to its second |
| Evaluate.PairedEdgesMeaning | align.py:216-227 | an entry is reported exactly for each edge whose two ends are aligned to nodes joined in the second network, as ((x1, x2), (y1, y2)); there are no more entries than edges |
| Evaluate.FindPairedEdges | align.py:208-229 | the loop returns the conserved-edge list: each entry's (x1, y1) is a first-network edge, `to_sec` sends x1 to x2 and y1 to y2, (min(x2, y2), max(x2, y2)) is a second-network edge, every conserved edge is reported, and there are at most |edges1| entries |
| Evaluate.PositiveMeaning | align.py:341 | the comprehension keeps exactly the pairs with positive score, in their order |
| Evaluate.SelectPairs | align.py:335-342 | pairs are returned unchanged for a method outside the four selective extensions; for those, exactly the positively scored pairs remain, as a subsequence |
| Evaluate.SelectPairsStable | align.py:335-342 | selecting twice equals selecting once, and selection keeps a one-to-one alignment one-to-one |
| Evaluate.PositiveTwice | align.py:341 | filtering on a positive score is idempotent |
| Evaluate.EcDefined | align.py:88-93 | EC = 2·CE / min(Σdeg1, Σdeg2) is undefined exactly when one network's degree total is zero |
| Evaluate.CalculateMeasures | align.py:52-110 | CE is the count of conserved edges given; EC, ICS and S3 share the numerator 2·CE, and S3's denominator is the union of EC's (min(Σdeg1, Σdeg2)) and ICS's (the induced total of the pairs' nodes, in org2 when Σdeg1 < Σdeg2 and in org1 otherwise), so whenever all three are defined and nonzero, 1/S3 = 1/EC + 1/ICS - 1 |
| Evaluate.ConservedCount | align.py:216-227 | over the distinct edges of the first network and a one-to-one `to_sec`, the reported list, the set of conserved edges and the set of their images in the second network all have the same size: no image is counted twice |
| Evaluate.DegreeAtLeastTwice | align.py:88-89 | in a network without self-interactions, any set of edges is at most half the degree total |
| Evaluate.InducedAtLeastTwice | align.py:99-106 | in a network without self-interactions, a set of edges with both ends among the selected nodes is at most half the induced adjacency total of the selection |
| Evaluate.ConservedFits | align.py:88-106 | for networks without self-interactions, a one-to-one alignment and the first network's edges listed once each, 2·CE is at most min(Σdeg1, Σdeg2) and at most the induced total, whichever network the induced total is taken on |
| Evaluate.S3Bounded | align.py:88-110 | under the same conditions and with at least one conserved edge, EC, ICS and S3 are all defined with 0 < S3 ≤ EC ≤ 1 and S3 ≤ ICS ≤ 1 |
| Evaluate.SelfInteractionEc | align.py:88-110 | with a self-interaction `A A` aligned to itself, CE = 1 but the degree total is 1, so EC = 2 and S3's denominator is zero: the bounds need networks without self-interactions |
| Greedy.SimMatrix | align.py:258-261 | the similarity vector read as the n1 x n2 matrix whose entry (i, j) is `similarity[v_ind(i, j)]` |
| Greedy.GreedyAlign | align.py:255-276 | the result is the greedy scan of all n1·n2 cells sorted by ascending similarity: one-to-one, min(n1, n2) pairs, each a cell with its similarity, in ascending order, and no cell left with both nodes unaligned |
| Greedy.SkippedPartition | align.py:295-306 | every scanned cell is either taken or left over, and each left-over cell shares a node with a taken pair |
| Greedy.SeedOfScan | align.py:295-306 | the first phase takes exactly the greedy pairs and leaves over exactly the skipped cells; `nodes1`/`nodes2` are the nodes of the pairs |
| Greedy.SeedMirrors | align.py:295-302 | `pair_dic1` and `pair_dic2` describe the pairs exactly (each node maps to its partner and the score, nothing else has an entry) and the pairs are one-to-one |
| Greedy.SeedScores | align.py:303-305 | `remain_dic` lists every left-over cell with its score and every pair and entry carries its matrix score |
| Greedy.SeedPhase | align.py:287-309 | the first loop, with its early stop, ends in the state of the cells up to the stop, whose pairs are the whole greedy scan |
| Greedy.SeedAdvance | align.py:295-309 | one cell advances the state to the next prefix; when it uses up a side the loop stops there with the full greedy result |
| Greedy.SwapPartners | align.py:313-319 | for a left-over cell the two partner pairs are distinct exactly when the nodes differ, and on a single pair the swap cannot fire |
| Greedy.TrySwap | align.py:313-331 | the swap fires exactly when s_r1 + s_r2 > s_t1 + s_t2 (a missing partner skips it); it keeps both dictionaries in step, the pairs one-to-one, their number and node sets, and strictly raises the sum of the scores |
| Greedy.SwapMirrors | align.py:320-331 | a swap keeps the dictionaries describing the pairs, one-to-one, with the same number of pairs and the same nodes |
| Greedy.SwapGains | align.py:318-331 | a swap keeps stored scores equal to their `remain_dic` entries and strictly raises the score sum |
| Greedy.RemoveTwo | align.py:321-324 | `list.remove` of the two partner pairs leaves a one-to-one list without their nodes whose score sum drops by their two scores |
| Greedy.SwapNextKeeps | align.py:313-331 | one attempt of the second loop keeps the dictionaries describing a one-to-one list with the same size and nodes, and strictly raises the score sum when the swap fires |
| Greedy.SwapsKeep | align.py:313-331 | any run of swap attempts over left-over cells keeps the dictionaries exact, the list one-to-one on the same nodes, and either leaves the list unchanged or strictly raises its score sum |
| Greedy.SwapExample | align.py:313-331 | with (0, 0) and (1, 1) aligned at 1.0 and the left-over cell (0, 1) at 5.0, the loop swaps to (0, 1) at 5.0 and (1, 0) at the `get` default 0 |
| Greedy.SwapPhase | align.py:313-331 | the second loop returns exactly the fold of one swap attempt per left-over cell, in `remains` order; hence one-to-one on the same nodes, and either the seed itself or a strictly higher score sum |
| Greedy.SemiGreedyAlign | align.py:279-333 | the result is the swap fold applied to the first phase's state (its pairs, dictionaries, `remains` and `remain_dic` after the early stop); it aligns the same nodes as the greedy scan (min(n1, n2) pairs, one-to-one, in range) and is either the greedy list or scores strictly more |
| Seeds.FirstPerLabelCovers | align.py:1021-1030 | the base seed holds one node per component: no two share a label and every component of the walk is represented |
| Seeds.FirstPerLabelFirsts | align.py:1021-1030 | every node that is the first of its component in `reversed(node_idx)` is in the base seed |
| Seeds.FirstPerLabelSaturated | align.py:1029-1030 | once every component is covered, the rest of the walk adds nothing, so the early `break` changes nothing |
| Seeds.AllComponentsIn | align.py:1029-1030 | with every `comp_in_seed` flag set the walk can stop: the seed is complete |
| Seeds.BaseSelect | align.py:1020-1041 | the loop returns the first node of each component in `reversed(node_idx)`, in that order |
| Seeds.BaseNext | align.py:1024-1028 | one step keeps a node exactly when its component flag is unset, then sets that flag |
| Seeds.SeedCount | align.py:1101-1106 | the degree seed takes at most the node count, and at least one node when there is one (the append comes before the cap check) |
| Seeds.DegreeSeed | align.py:1101-1129 | `round_select` is the first `SeedCount` nodes of `reversed(node_idx)`, without duplicates; the `base_select` top-up never adds a node |
| Seeds.DegreeSeedMissesComponent | align.py:1101-1113 | with two isolated nodes and a cap of one, a component is missing from the seed: coverage is not guaranteed |
| Seeds.CommittedOneToOne | align.py:1452-1459 | a one-to-one assignment over duplicate-free selections commits one-to-one pairs |
| Seeds.CommittedDuplicateNode | align.py:1452-1459 | a node selected twice can be committed twice even under a one-to-one assignment |
| Seeds.CommitPairs | align.py:1451-1459 | `new_pairs` is entry-by-entry (round_select1[pl1[i]], round_select2[pl2[i]], similarity), and the flags of exactly those nodes are set |
| Seeds.CommittedNext | align.py:1453-1457 | entry i of the committed pairs is appended after the first i, with its similarity, in range |
| Seeds.Trunc | align.py:1465 | `int()` truncates toward zero |
| Seeds.CutPointBound | align.py:1465 | for a ratio in [0, 1] `cut_point` is below the number of pairs, and 0 for none |
| Seeds.CutPointExample | align.py:1465 | with the configured ratio 0.3 (constants.py:54) ten pairs lose six and a single pair loses none |
| Seeds.LowestMembers | align.py:1462-1464 | the dropped pairs are a sub-multiset of the new pairs |
| Seeds.KeepCutCount | align.py:1462-1469 | exactly the dropped pairs are removed, so k - cut_point stay, in their original order |
| Seeds.KeptIsRest | align.py:1462-1469 | the kept pairs are, as a multiset, the sorted list after the cut point |
| Seeds.KeepCutScores | align.py:1462-1469 | no kept pair scores below a dropped one |
| Seeds.KeptNodesNotReset | align.py:1464-1468 | in a one-to-one list no dropped pair shares a node with a kept pair, so kept pairs stay flagged |
| Seeds.KeepCut | align.py:1462-1469 | the loop removes the first `cut_point` pairs of the ascending stable sort and clears both flags of each |
| Rounds.WalkTakesReached | align.py:1497-1503 | with a positive cap the walk over `reversed(remains)` takes the reached nodes in order up to the cap, and stops exactly when there are at least that many |
| Rounds.WalkStopped | align.py:1502-1503 | after the `break` the rest of the list changes nothing |
| Rounds.FillAdds | align.py:1504-1510 | the top-up keeps the walk's selection in front, adds only unpaired base nodes and never overshoots a cap not yet reached |
| Rounds.SelectionUnpaired | align.py:1497-1510 | every selected node is unpaired, is a reached remaining node or a base node, and a positive cap bounds the selection |
| Rounds.WalkDistinct | align.py:1497-1503 | the walk alone never repeats a node of a duplicate-free list |
| Rounds.SelectionRepeatsNode | align.py:1504-1508 | the top-up tests `node_paired`, not `node_selected`, so a reached unpaired base node is selected twice |
| Rounds.SelectRound | align.py:1495-1510 | the two loops build the walk followed, below the cap, by the top-up |
| Rounds.WalkRemains | align.py:1497-1503 | the first loop returns the walk over `reversed(remains)` |
| Rounds.TopUp | align.py:1504-1510 | the second loop returns the top-up from `base_select` |
| Rounds.ReachIsAdjacency | align.py:1477-1478 | a node is reached exactly when it shares an edge with one of the paired nodes |
| Rounds.CommitRound | align.py:1587-1597 | the commit builds the pairs the assignment denotes, flags exactly their nodes, and adds exactly their neighbours to the reached sets |
| Rounds.CommittedNodes | align.py:1589-1595 | committed pairs join selected nodes and carry their similarity |
| Rounds.Unpaired | align.py:1613-1614 | the filtered remaining list holds exactly the remaining nodes whose flag is unset |
| Rounds.SideRound | align.py:1587-1614 | on one side a round only raises flags, and the remaining list still holds exactly the unflagged nodes, each flagged node in some pair |
| Rounds.SplitPairs | align.py:1600-1606 | every committed pair is either kept or cut, and only committed pairs are kept |
| Rounds.Start | align.py:1476-1483 | the set-up fails (`set.union()` of no sets) exactly when there are no pairs |
| Rounds.StartConsistent | align.py:1476-1483 | the set-up state is consistent: each remaining list holds exactly the unflagged nodes, once, and every pair carries its similarity |
| Rounds.FinishedTests | align.py:1610-1614 | under consistent bookkeeping `len(remains) == 0` and "no False flag" agree |
| Rounds.RoundBookkeeping | align.py:1587-1619 | one round's flags, remaining lists and pairs are consistent again and flags only rise |
| Rounds.RoundProgress | align.py:1587-1606 | with non-empty duplicate-free selections of unpaired nodes and a ratio in [0, 1], a round flags at least one more node on each side |
| Rounds.KeptPair | align.py:1599-1606 | a non-empty one-to-one list keeps a pair through the cut, and neither of its nodes is cleared |
| Rounds.RoundOfKeeps | align.py:1495-1619 | the state after one round (`RoundOf`: the committed pairs minus the lowest cut appended, their nodes flagged then the cut ones cleared, the remaining lists filtered to the unflagged nodes, the committed nodes' neighbours added to the reached sets) is consistent, only raises flags, extends the pair list and the reached sets, and flags at least one more node on each side when the selections are duplicate-free and non-empty |
| Rounds.Round | align.py:1495-1619 | the new state is exactly `RoundOf` of the old one, with the committed pairs those of the matcher's assignment for the two selections given the old state and the pairs one round back, so `pairs` gains the committed pairs minus the cut, `node_paired` is set for the committed nodes and cleared for the cut ones, `remains` keeps the unflagged nodes and `reached` gains the committed nodes' neighbours; `finished` is set exactly when one side is fully flagged, and the facts of `RoundOfKeeps` hold |
| Rounds.MultipleCut | align.py:1491-1619 | the result is the last state of a trace that starts at the given state and steps by `RoundOf` from each unfinished state, the matcher of each round given that state and the pairs one round back (the set-up's pairs in the first round), ending when one side is fully paired or the rounds run out; along it the bookkeeping stays consistent, flags only rise and the pairs only grow |
| Rounds.TraceSnoc | align.py:1491-1619 | appending the next round's state to a trace whose last state is unfinished keeps it a trace of rounds |
| Rounds.TraceKeeps | align.py:1491-1619 | from the first state of a trace to its last, flags only rise and the pair list only grows at its end |
| Rounds.TraceUnique | align.py:1491-1619 | two traces of rounds with the same matcher, first state and length are equal, so the loop's result is determined by its start and the matcher |
| Rounds.TraceAgree | align.py:1491-1619 | two such traces agree at every position, together with the pairs one round back that each round's matcher is given |
| SingleExtend.Drop | align.py:1724-1729 | deleting a cell keeps the three score structures consistent (dictionary, records and heap agree) and removes exactly that cell from the dictionary; an emptied record disappears with its heap entry |
| SingleExtend.Put | align.py:1829-1839 | storing a score for a cell keeps the three structures consistent and sets exactly that cell's score |
| SingleExtend.Touch | align.py:1759-1839 | the update of one neighbouring cell keeps the structures consistent; a free cell's score goes up by one (from 0 when it had none) and a cell with an aligned node is removed |
| SingleExtend.IndexedUnique | align.py:1679-1686 | the score dictionary alone determines the records and the heap when all three agree |
| SingleExtend.HeapTop | align.py:1710 | a consistent heap has a largest entry, which is what the pop yields |
| SingleExtend.AddAround | align.py:1629-1636 | one seed pair's contribution: every free cell of the two neighbourhoods gains exactly one, every other cell keeps its score, and only free cells carry scores |
| SingleExtend.SeedScores | align.py:1628-1636 | after all seed pairs, a cell is stored exactly when it is free with a positive common-neighbour count, and its score is that count |
| SingleExtend.BuildRecords | align.py:1679-1682 | each scored cell sits in the record of its score and each record lists only cells with that score; no record is empty |
| SingleExtend.BuildHeap | align.py:1683-1686 | the heap holds each recorded score once plus the 0 sentinel |
| SingleExtend.SimOrderCells | align.py:1689-1694 | the similarity order is sorted by descending similarity and lists exactly the cells of the grid, each with its similarity |
| SingleExtend.SimScores | align.py:1689-1695 | building the similarity list yields the similarity order |
| SingleExtend.UpdateAround | align.py:1756-1839 | after aligning a cell, each cell of the two neighbour lists is bumped by one when free and removed when not; all other cells keep their scores, and the structures stay consistent |
| SingleExtend.Choose | align.py:1711-1720 | the cell taken for a popped score is recorded with that score and has the least degree key (abs(d1 - d2), d1 + d2) among the cells of that record |
| SingleExtend.Advance | align.py:1736-1742 | `sim_pointer` only passes cells with an aligned node and stops at a free cell |
| SingleExtend.FreeCellAhead | align.py:1730-1742 | while both networks have a free node, a free cell lies at or after `sim_pointer`, so the fallback never runs off the end |
| SingleExtend.ScoredBest | align.py:1710-1729 | a popped positive score whose chosen cell is still free names a best cell: no free cell has a larger common-neighbour count, and ties go to the least degree key |
| SingleExtend.UnscoredBest | align.py:1730-1742 | when only the 0 sentinel is left, no free cell has a positive count, and the first free cell of the similarity order is the most similar free cell |
| SingleExtend.CommitCounts | align.py:1744-1839 | after aligning a free cell and updating its neighbourhood, every free cell's score is still its common-neighbour count with the new pair list |
| SingleExtend.Step | align.py:1702-1839 | one iteration keeps the loop invariant; an aligning iteration appends a best free cell with its similarity and flags both its nodes, and any other iteration only deletes the popped cell's score |
| SingleExtend.Commit | align.py:1744-1839 | aligning a free cell appends the pair with its similarity, flags both nodes and keeps the invariant |
| SingleExtend.Prepare | align.py:1622-1695 | the set-up before the loop leaves the given pairs and flags in place with `sim_pointer` at 0, and establishes the loop invariant |
| SingleExtend.GrowStep | align.py:1702-1839 | each iteration makes progress: an aligning one sets a flag of the first network, any other one deletes a score, so the loop ends |
| SingleExtend.Extend | align.py:1621-1842 | the loop ends with one network fully aligned; the given pairs stay in front, every added pair is a grid cell with its similarity, flags only grow, every pair is flagged, and the result is one-to-one whenever the given pairs are |
| StringDb.UntilEof | string_db.py:20-23 | the lines a `readline` loop sees before the empty string: a prefix of the file with no empty line, stopped at the first empty one |
| StringDb.UntilBlank | string_db.py:58-63 | the lines a strip-and-stop loop sees: a prefix of the file with no blank line, stopped at the first line that strips to nothing |
| StringDb.EntriesFailure | string_db.py:20-34 | a reader fails with a given exception exactly when some line raises it and no earlier line raises another |
| StringDb.EntriesMembers | string_db.py:20-34 | an entry is collected exactly when some line yields it |
| StringDb.EntriesAppend | string_db.py:20-34 | reading two pieces of a file one after the other: the first piece's failure wins, then the second's; otherwise the first piece's entries come before the second's |
| StringDb.GroupAppend | string_db.py:161 | grouping two runs of entries by key concatenates each key's list in file order |
| StringDb.LastWinsValues | string_db.py:245 | in a dictionary filled by plain assignment, a key is mapped exactly when some entry has it, and to the value of its last entry |
| StringDb.ParseOrganismPpi | string_db.py:13-38 | the reading loop returns the node set and edge list of the lines up to the end of file, or the exception of the first malformed line |
| StringDb.PpiLineMeaning | string_db.py:24-34 | one line is kept exactly when it starts with the organism id, has three fields and its score exceeds the threshold; it raises exactly when it starts with the id and lacks a field or has a non-integer score |
| StringDb.PpiEdges | string_db.py:24-34 | the edge list holds exactly the kept lines' words, each with at least three fields |
| StringDb.PpiNodes | string_db.py:32-33 | the node set holds exactly the first two fields of the kept lines |
| StringDb.PpiFails | string_db.py:24-31 | the file is rejected exactly when some line of the organism is malformed |
| StringDb.ParseOrganismSeq | string_db.py:43-71 | the reading loop returns the records of the lines up to the first blank one |
| StringDb.SequencesShape | string_db.py:54-69 | one record per header line plus the empty record opened at the start, which always comes first |
| StringDb.SequencesStop | string_db.py:61-63 | nothing after the first blank line affects the result |
| StringDb.FastaRoundTrip | string_db.py:53-69 | reading back a file laid out as header lines followed by sequence chunks gives the empty record and then every record, with its chunks joined |
| StringDb.ExtractOrganismGo | string_db.py:123-168 | the reading loop returns the GO dictionary of the lines up to the end of file, or the exception of the first malformed line |
| StringDb.GoFails | string_db.py:152-159 | the file is rejected exactly when a line of the organism has fewer than seven tab fields |
| StringDb.GoKeys | string_db.py:152-161 | the dictionary's keys are exactly the first fields of the organism's lines |
| StringDb.GoSnoc | string_db.py:154-161 | one more line of the organism appends its (term, evidence, score) to its protein's list and changes no other key |
| StringDb.GoAppend | string_db.py:143-161 | the annotations of two pieces of a file come out in file order |
| StringDb.ExtractAllOrganismGo | string_db.py:172-219 | the reading loop returns the all-organisms GO dictionary of the lines up to the end of file, or the first line's exception |
| StringDb.AllGoFails | string_db.py:202-207 | the file is rejected exactly when some line has fewer than seven tab fields |
| StringDb.AllGoKeys | string_db.py:204-212 | the keys are exactly the `org.prot` ids of the lines with experimental evidence |
| StringDb.AllGoSnoc | string_db.py:202-212 | one more line appends its term to its protein's list exactly when the evidence is experimental |
| StringDb.AllGoAppend | string_db.py:192-212 | the terms of two pieces of a file come out in file order |
| StringDb.GetUniprotMap | string_db.py:222-247 | the reading loop returns the mapping of the lines up to the first blank one, or the exception of the first malformed line |
| StringDb.UniprotFails | string_db.py:238-244 | the file is rejected exactly when some non-comment line has fewer than three fields, has a second field that does not split at the bar into exactly two parts, or names another organism |
| StringDb.UniprotSnoc | string_db.py:235-245 | a comment line changes nothing; a mapping line sets its accession, later lines overwriting earlier ones |
| StringDb.UniprotKeys | string_db.py:238-245 | the accessions mapped are exactly those of the mapping lines |
| StringDb.UniprotValues | string_db.py:245 | every accession maps to an id of the form `org.str_id` |
| Text.StripIdempotent | string_db.py:26 | stripping a stripped string changes nothing |
| Text.SplitJoinSpace | string_db.py:27 | splitting on whitespace words joined by single spaces gives the words back |
| Text.JoinSplitOn | string_db.py:155 | joining the pieces of a split on a separator gives the string back |
| Text.SplitOnJoin | string_db.py:155 | splitting separator-joined pieces that do not contain the separator gives the pieces back |
| Text.ParseIntToString | string_db.py:31 | `int` of the decimal form of any integer is that integer |
| StringDb.GoEntry | string_db.py:152-161 | the loop body computes what one line adds: nothing for another organism, IndexError for a short line, else the protein and its annotation |
| StringDb.AllGoEntry | string_db.py:202-212 | the loop body computes what one line adds: IndexError for a short line, nothing without experimental evidence, else the `org.prot` id and its term |
| StringDb.UniprotEntry | string_db.py:231-245 | the loop body computes what one non-blank line adds: nothing for a comment, an exception for a malformed line, else the accession and its STRING id |
| StringDb.FastaRunShape | string_db.py:54-69 | while reading, one record is closed per header line and the first closed record is the empty one |
| Blast.Pairs | interface.py:89-91 | the alignments of one record are its hits in order, each paired with the record's query |
| Blast.AlignmentsPrefix | interface.py:89-91 | the alignments of the first records are a prefix of the report's alignments, so the nested loops read them in order |
| Blast.CursorFails | interface.py:89-97 | a hit that raises among those read so far decides the whole report's failure |
| Blast.Subject | interface.py:92 | the first word of a hit's title, failing with IndexError exactly when the title has no word |
| Blast.LastValueUnwritten | interface.py:82 | a cell no hit wrote keeps the 0 of `np.zeros` |
| Blast.LastValueLastWrite | interface.py:97 | a written cell holds the score of its last write |
| Blast.MatrixCellOff | interface.py:94-97 | a written cell lies inside the matrix, off row 0 and column 0 |
| Blast.BlastXmlToMatrix | interface.py:80-99 | the nested loops fill the similarity vector as the report dictates, or fail with the first raising hit's exception |
| Blast.MatrixHits | interface.py:91-97 | the hit loop over one record keeps the array equal to the last value written to each cell, and stops with the report's failure |
| Blast.MatrixHit | interface.py:92-97 | the body of the hit loop computes what the hit writes; its only exception is IndexError and its cell lies in the matrix |
| Blast.SetCell | interface.py:97 | writing one cell: the array holds the last value written to each cell |
| Blast.MatrixZeroRowColumn | interface.py:94-97 | node 0 of either network has id 0 and is never written, so row 0 and column 0 of the similarity matrix stay zero |
| Blast.MatrixEntrySource | interface.py:89-97 | every nonzero entry was written by some hit whose query and subject resolve to that cell, with that score |
| Blast.MatrixEntryHit | interface.py:89-97 | a nonzero entry (i, j) is the first HSP score of a hit of protein `nodes2[j]` in the record of `nodes1[i]`, and neither index is 0 |
| Blast.SelfBlastXmlToVec | interface.py:103-121 | the nested loops fill the self-score vector as the report dictates, or fail with the first raising hit's exception |
| Blast.SelfHits | interface.py:114-119 | the hit loop over one record keeps the array equal to the last value written to each entry, and stops with the report's failure |
| Blast.SelfHit | interface.py:115-119 | the body of the hit loop computes what the hit writes; its only exception is IndexError and its entry lies in the vector |
| Blast.SelfEntrySource | interface.py:112-119 | every nonzero entry k is the first HSP score of a hit of `nodes[k]` on itself, and entry 0 stays zero |
| BlastVal.LexTrichotomy | interface.py:254-255 | Python's string `<` is a strict total order |
| BlastVal.ReversedIff | interface.py:254-262 | `reverse` holds exactly when org2's id sorts before org1's; the report read is always the one named (min, max) |
| BlastVal.TabLineSplit | interface.py:282-286 | a line of three tab-free fields splits back into them |
| BlastVal.ValCellQueryFirst | interface.py:266-287 | either way round, a line as written starts with the query protein and goes on with the hit's, the role proteins resolving in their networks |
| BlastVal.BlastXmlToVal | interface.py:252-287 | the writer produces the lines of the min-max report with `reverse` set exactly when org2's id sorts first |
| BlastVal.BlastXmlToEval | interface.py:125-147 | the isorankN writer, and its pinalog (interface.py:378-402) and C-GRAAL (interface.py:481-504) copies, produce the forward lines of the report |
| BlastVal.HitLines | interface.py:266-287 | the record loop produces the lines of the report, or its failure |
| BlastVal.RecordLines | interface.py:271-287 | the hit loop over one record extends the lines read so far, or stops with the report's failure |
| BlastVal.HitLine | interface.py:272-287 | the body of the hit loop computes the line one hit writes, if any |
| BlastVal.ValLineFields | interface.py:266-287 | every line as written has three fields; forward an org1 node then an org2 node, reversed an org2 node then an org1 node, all with nonzero ids |
| BlastVal.ValFails | interface.py:271-287 | the writer fails exactly when some hit is bad (no title word, or resolving proteins with no HSP), and always with IndexError |
| BlastVal.ValCellErr | interface.py:273-280 | one hit fails exactly when it is bad, and then with IndexError |
| BlastVal.ValReversedNotOrg1First | interface.py:266-287 | when the two networks share no protein name, every line of a reversed `.val` file starts with a protein that is not an org1 node |
| BlastVal.ValIntendedFields | interface.py:258-287 | with the roles kept, every line is an org1 node, an org2 node and the score, whichever way the report was read |
| BlastVal.ValForwardAgrees | interface.py:266-287 | read forward, the code as written and the corrected writer produce the same lines |
| BestPairs.PrefixedIds | interface.py:231-234 | the ids of the line's tokens that carry the organism id, each a node index; the only failure is KeyError |
| BestPairs.PrefixedIdsMeaning | interface.py:231-234 | the comprehension fails exactly when a token carrying the organism id is not a node; otherwise it holds the id of every such token and nothing else |
| BestPairs.Row | interface.py:237-242 | the inner loop visits `(a, id2)` for each org2 id in order |
| BestPairs.GridMembers | interface.py:236-242 | the nested loops visit exactly the pairings of an org1 id with an org2 id |
| BestPairs.PickBest | interface.py:235-242 | the pair kept is the first most similar pairing: no pairing is more similar and every earlier one is strictly less; no pair exactly when there is no pairing |
| BestPairs.BestPair | interface.py:235-243 | the nested loops end with the pick over all pairings, all inside the similarity matrix |
| BestPairs.BestInRow | interface.py:237-242 | the inner loop continues the pick over one more row |
| BestPairs.ReadAlignerPairs | interface.py:226-248 | the line loop returns one pair per line that has one, or the KeyError of the first line naming an unknown protein |
| BestPairs.AlignerPairsBest | interface.py:226-248 | every pair read is the most similar pairing of an org1 and an org2 protein named on one line |
| BestPairs.LinePairSome | interface.py:245-246 | a well-formed line gives a pair exactly when it names a protein of each organism |
| Pathways.GetPathways | interface.py:1147-1198 | the uncached path reads the UniProt mapping, looks up the organism's Reactome code (KeyError when there is none) and groups the index |
| Pathways.ReadIndex | interface.py:1170-1194 | the reading loop groups the lines up to the first blank one, or fails with the first line's IndexError |
| Pathways.PathwayEntry | interface.py:1178-1194 | the loop body computes what one line adds: nothing for an unknown accession or another organism, IndexError for a malformed line |
| Pathways.PathwaysFails | interface.py:1178-1194 | the index is rejected exactly when some line lacks a field or a three-part pathway id, always with IndexError; unknown accessions never fail |
| Pathways.PathwaysKeys | interface.py:1184-1192 | the pathways listed are exactly the numbers of the well-formed lines of the organism's code with a mapped accession |
| Pathways.PathwaysSnoc | interface.py:1189-1192 | one more kept line appends its protein to its pathway's list and leaves every other list unchanged |
| Pathways.PathwaysValues | interface.py:1189-1192 | every protein listed is a STRING id the mapping gives |
| Pathways.PathwayDictProteins | interface.py:1165-1192 | read for an organism, every protein of every pathway is an `org.<id>` STRING id of that organism |
| Gw.NodeLines | interface.py:843-844 | one `\|{name}\|` line per node, in index order |
| Gw.EdgeLines | interface.py:846-847 | one `a b 0 \|{}\|` line per edge, in iteration order |
| Gw.GenerateGwFile | interface.py:836-847 | nothing is written when the file exists; otherwise the header, the node count, the node lines, the edge count and the edge lines |
| Gw.ParseNatToString | interface.py:842 | the decimal count reads back as the number written |
| Gw.UnNodeLineOf | interface.py:844 | a node line reads back as its name, whatever the name |
| Gw.UnEdgeLineOf | interface.py:847 | an edge line reads back as its edge |
| Gw.ReadGwLines | interface.py:836-847 | reading the written file as GW gives back the node names in index order and the edges in the order written |
| Gw.GwEdgesInRange | interface.py:843-847 | read back, every edge of a network whose edges join its nodes names node lines of the file |
| BestPairs.LinePairBest | interface.py:229-246 | the pair one line gives is the best pairing of its org1 and org2 proteins |

## Left out

- **Files, JSON caches and logging.** Each reader returns what it would write, and the cache checks are left out. `Gw.GenerateGwFile` takes whether the file exists as the parameter `fileExists`. The `os.path.exists` guards of `blast_xml_to_eval` and `blast_xml_to_score` are left out. A file left half-written by an exception is not modelled.
- **Foreign libraries are inputs or parameters.**
  - XML parsing (`NCBIXML`): a report is given as its records.
  - The assignment solvers (`munkres`, `linear_sum_assignment`): `matcher` stands for them and is required to return a one-to-one index assignment.
  - `SpectralClustering`, `eigs` and `connected_components`: the eigenvector order, the gap order and the component labels are inputs.
  - The centralities behind `node_idx`: `node_idx` is an input.
- **Python's `str` of a float** is the parameter `fmt`; float formatting and float rounding are not modelled.
- **`Seeds.CutPoint` computes `(1 - ratio) * k` in exact reals**, while Python uses binary floats before `int()`. The two can differ where the product is a whole number in exact arithmetic: at ratio 0.8 and ten pairs the model gives `int(2.0) - 1 = 1`, but Python's `(1 - 0.8) * 10` is `1.9999999999999996`, so `cut_point` is 0. At the configured ratio 0.3 both give 6 for ten pairs (`Seeds.CutPointExample`).
- **`Text.ParseInt` accepts an optional sign and ASCII digits only.** Python's `int()` also accepts `_` between digits (`"1_000"`) and decimal digits of other scripts. A PPI score written that way (string_db.py:31) is an error here where the source reads a number.
- **`SingleExtend`: the other score functions.** The `jaccard`, `jaccard-neg`, `jaccard-nmul`, `adamic`, `adamic-neg` and `adamic-nmul` variants of `single_extend` are not modelled; only `common_neighbor` is.
- **`SingleExtend`: heap and tie-break.**
  - The heap's array layout and the O(log n) deletion are a multiset of scores.
  - The order of a record list is a set, because that order only feeds the random tie-break.
  - The random tie-break is a choice among the cells with the least key (`SingleExtend.Choose`), so nothing is claimed about which of them is taken.
- **`Rounds.Round`: the similarity the matcher is given.** This is the `TOPO_STRENGTH` blend of normalised topological and base similarity, with the `seedexcost` penalty (align.py:1532-1576). It is not modelled. The matcher (`Rounds.Matcher`) is an abstract function of what that blend reads: the two selections, the current state (whose `pairs` feed `topo_sim`), and the pairs as they stood when the previous round began, whose nodes are the `paired1`/`paired2` sets of the `seedexcost` cost vectors (align.py:1488-1489, 1616-1617). The rounds are proved for every such matcher that returns a one-to-one assignment. So a round that repeats the previous round's selections may still choose a different assignment, because the pair list has changed.
- **`Rounds.MultipleCut` takes a `fuel` bound on the number of rounds.** The source loop has no bound, and termination cannot be proved. The top-up can select the same node twice (`Rounds.SelectionRepeatsNode`), so a round may flag nothing new. The contract holds for however many rounds run.
- **`Greedy.SemiGreedyAlign` takes the node counts and the similarity vector as parameters.** As written, `semi_greedy_align` reads a name `bio_net` that is not defined in its scope (align.py:282) and would raise `NameError`.
- **`Evaluate.CalculateMeasures`: division by zero is `None`.** Where the source divides by zero (EC, ICS or S3 with a zero denominator), numpy yields `inf` or `nan`; here the value is `None`.
- **`Evaluate.CalculateMeasures` on an empty alignment.** With no pairs the source raises `ValueError`: `max(sizes.values())` at align.py:83 runs over no components, and the `selection[:, None]` indexing at align.py:99-104 fails on an empty array. Empty aligner output can reach it (align.py:2373-2405). The model returns a record instead: CE as given, NBS = 0, EC = 0 when Σdeg is positive, and ICS and S3 `None` because the induced total is 0. LCCS is not computed here (see below), so the failure has no counterpart in the model.
- **`Evaluate.S3Bounded` requires networks without self-interactions.** Neither the STRING reader (string_db.py:24-34) nor the network builder (organism.py:76-82) drops a line `A A`. With one, EC can exceed 1 and S3 can be undefined (`Evaluate.SelfInteractionEc`), so the bounds are stated only for networks without them.
- **`BestPairs.ReadAlignerPairs` does not skip comment lines.** `SPINAL_align` runs the same loop but also skips every line that starts with `!` (interface.py:1116). That filter is not modelled.
- **The other measures.** GOC, PWS and LCCS are not modelled: they need annotation files or scipy's connected components.
- **Sets handed on as lists.** The edge set is handed to `Gw` and `find_paired_edges` as a sequence: Python's set iteration order is unspecified, so every order is covered.
- **`StringDb.ExtractOrganismGo` keys the dictionary by the first field** (string_db.py:156). On every line kept, that field is the organism id itself. The model keeps this behaviour (`StringDb.GoKeys`).
- **`BlastVal.BlastXmlToVal` follows the code as written.** The source's own evidence is that every line of the file should start with the org1 protein: the file is named `org1-org2.val` (interface.py:257), NETAL is run as `org1.tab org2.tab` (interface.py:310-312), and the forward branch writes org1's protein first (interface.py:281-283). The code writes the query protein first in both branches, and in the reversed case the query is org2's (see Findings).
- **Not part of this model:**
  - the subprocess wrappers, `seed_extend_SA_align` and `neighbor`;
  - the float numerics of `organism.py` (power method, relative BLAST matrix);
  - `seed_extend_align_manager`, `cluster_align`, `extend_pairs`;
  - visualize.py, proalign.py and constants.py.

## Findings

| source | as written | input that shows it | evidently intended | confidence | as-written member | corrected member |
|---|---|---|---|---|---|---|
| interface.py:266-287 | reversed case: `s2` is the query (org2's protein) and `s1` the hit, and the line is written `s2, s1`, so the query comes first as in the forward case | org1 id `9606`, org2 id `4932`, so `reverse` holds; a hit of `9606.A` in the record of `4932.B` writes `4932.B\t9606.A\t…` into `9606-4932.val` | every line of the `org1-org2` file starts with the org1 protein: the line should be `s1, s2` in both cases | not executed | BlastVal.ValReversedNotOrg1First | BlastVal.ValIntendedFields |
