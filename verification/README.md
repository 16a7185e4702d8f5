# CSTBL branch-length core in Dafny

CSTBL assigns branch lengths to a fixed supertree topology. It takes every
couplet (pair of taxa) that occurs together in some source tree. For each
one it averages the couplet's source-tree distances, weighting each source
tree. It then asks a least-squares solver for supertree edge lengths whose
path sums match those averages.

This project models the core of that computation and proves its
properties:

- the couplet record (`Couplet`);
- the per-tree extraction of couplet distances (`Extraction`, built on the
  node-by-node three-way enumeration in `Pairs`);
- the postorder edge dictionary (`EdgeIndex`);
- the walk from a leaf up to the couplet's most recent common ancestor
  (`Climbing`);
- the collection of each couplet's supertree edges (`Branches`);
- the source-tree weights (`Weights`);
- the rows of the least-squares program (`Objective`);
- the write-back of solver values onto the supertree (`WriteBack`);
- one whole run with a run-scoped context (`Run`).

Trees are `Trees.Tree` values. Each node carries a preorder id (`Numbered`)
that stands for node identity. An edge is the pair (parent id, child id).
The root's edge has no parent. The postorder edge walk the program uses
(`Edge_Len_Adjust.py:22-29`) yields it too, so it is indexed and written
back like any other edge. It lies on no couplet's path, though: each climb
stops at the couplet's most recent common ancestor
(`Edge_Len_Adjust.py:226-251`, `Climbing.Climb`), so no couplet collects it
as a branch.

Failures the program raises become `Wrappers.Result` errors:

- `DivisionByZero`: a tree weight whose count is zero, or a mean over no
  supporting tree;
- `MissingKey`: an edge missing from the edge dictionary;
- `IndexOutOfRange`: a weight or solver value that is not there.

The program keeps its stores in module-level globals and clears them after
each run (`CSTBL.py:231-238`). Here they are a `Run.RunContext` that each
run builds from scratch.

Two facts that follow from the code are proved here:

- `Run.SingleTreeStops`: a run over one source tree whose taxa are unique
  always stops with a division by zero. Every couplet then has one supporting tree, so no taxon
  counts towards the tree's weight.
- `Weights.CountPositive`: a source tree stops the run in the same way
  whenever none of its couplets is shared with another tree.

`Edge_Len_Adjust.py` holds two definitions of `Initialize_TaxaPairBranches`.
The first (line 156) sits inside a string literal that opens at line 155
and closes at line 201, so it is commented out. The second (lines 263-295)
is the live one, and it is the one modelled.

## Model

| member | source | states |
|---|---|---|
| Couplet.Fresh | Header.py:57-75 | A new couplet record has no branches, no supporting trees and no distances, and its parallel lists agree in length. |
| Couplet.AddDistMatValue | Header.py:81-82 | Appends one distance and leaves the other two lists alone. |
| Couplet.NoSupportTrees | Header.py:99-100 | The number of supporting trees of a couplet; specified by `Couplet.AddSupportTreeIndex`. |
| Couplet.AddSupportTreeIndex | Header.py:87-100 | Appends one supporting tree index and leaves the other two lists alone, so the support count rises by exactly one. |
| Couplet.AddBranchArrayIdx | Header.py:111-113 | Adding a branch index leaves the record unchanged if the index is already present. Otherwise it appends the index. The result contains the index, keeps the old list as a prefix, grows the branch set by exactly that index, and keeps the list duplicate-free. |
| Couplet.AddEdgeDistance | Header.py:133-134 | Records the sum of the two distances from the common ancestor as one new distance. |
| Couplet.AvgDistMatVal | Header.py:121-127 | The weighted mean fails with an index error when a supporting tree has no weight. Otherwise it succeeds exactly when the weight sum is non-zero, and fails with a division by zero when it is zero (as it is with no supporting tree). It succeeds when there is support and every weight is positive. A successful mean times the weight sum equals the weighted distance sum. |
| Couplet.PositiveDen | Header.py:121-127 | With positive tree weights, the weight sum over one or more supporting trees is positive. |
| Couplet.AvgBetween | Header.py:121-127 | With positive weights, the weighted mean lies between the smallest and the largest recorded distance. |
| Couplet.AvgOfConstant | Header.py:121-127 | When every source tree records the same distance d, the weighted mean is exactly d. |
| Trees.LeafDist | UtilFunc.py:36-54 | A leaf's distance from the root is the parent's distance plus the node's edge plus the leaf's depth below the node. |
| Pairs.Events | UtilFunc.py:34-74 | The pairs the extraction visits, node by node in postorder; specified by `Pairs.TreeCount` and `Pairs.ExactlyOnce`. |
| Pairs.NodePairs | UtilFunc.py:48-74 | The sibling, leaf-by-internal and cross-subtree pairs visited at one node; specified by `Pairs.NodePairSplit`. |
| Pairs.TreeCount | UtilFunc.py:34-74 | Counted over all internal nodes, the sibling, leaf-by-internal and cross-subtree pairs meet every couplet {a, b} as often as a times b leaves can be paired, with self pairs excluded. |
| Pairs.ExactlyOnce | UtilFunc.py:34-74 | In a tree whose taxa are unique, the three pair kinds together visit each couplet of the tree's taxa exactly once, and never visit a couplet outside them. |
| Pairs.NoSelfPairs | UtilFunc.py:48-74 | With unique taxa, no visited pair joins a taxon with itself. |
| Pairs.EventsWithin | UtilFunc.py:34-74 | Both leaves of a visited pair are leaves of the tree. |
| Pairs.NodePairSplit | UtilFunc.py:48-74 | A pair visited at a node joins leaves under two different children of that node, so the node is their most recent common ancestor. |
| Pairs.KidPairInside | UtilFunc.py:34-74 | A pair visited inside a child's subtree has both leaves under that child. |
| Pairs.EventDist | UtilFunc.py:36-74 | The two distances from the visiting node, one per leaf, add up to the leaf-to-leaf path length in the tree. |
| Extraction.DefineLeafPairReln | UtilFunc.py:12-26 | Recording a pair updates the couplet's single record under either key order. The (a, b) key is created only when neither order is stored, and every other couplet is untouched. A store without both orders of any couplet stays so, and a store without self couplets stays so when a and b differ. |
| Extraction.DeriveCoupletRelations | UtilFunc.py:31-74 | One tree's extraction pass over the store; specified by `Extraction.ApplyEntry` and `Extraction.DeriveEntry`. |
| Extraction.DeriveAll | CSTBL.py:192-193 | The extraction pass over every source tree in order; specified by `Extraction.CoupletAfterPass` and `Extraction.DeriveAllKeeps`. |
| Extraction.EntrySym | UtilFunc.py:13-24 | A couplet's record is the same whichever order its taxa are named in. |
| Extraction.ApplyEntry | UtilFunc.py:31-74 | Walking a tree's pairs appends to couplet {a, b} one support entry and one distance for each pair joining a and b, in walk order. No other pair changes it. |
| Extraction.TreeMatching | UtilFunc.py:31-74 | In a tree with unique taxa, the walk records for a couplet of the tree's taxa the single path length between them, and nothing for any other couplet. |
| Extraction.DeriveEntry | UtilFunc.py:31-74 | One tree adds to couplet {a, b} its own index and the a-to-b path length when it holds both taxa, and otherwise leaves the record as it was. |
| Extraction.PathLenSym | UtilFunc.py:67-74 | The path length between two leaves is the same in either direction. |
| Extraction.DeriveKeeps | UtilFunc.py:31-74 | The per-tree pass keeps the store free of duplicate key orders and self couplets, with parallel support and distance lists. |
| Extraction.DeriveAllKeeps | CSTBL.py:192-193 | The pass over all source trees keeps the same invariants. |
| Extraction.CoupletAfterPass | CSTBL.py:192-193 | After the pass, couplet {a, b} has no branches yet. Its supporting trees are exactly the trees holding both taxa, in increasing order. Its distances are those trees' a-to-b path lengths, in the same order. |
| Extraction.StoredIffCooccur | CSTBL.py:192-193 | A couplet is stored exactly when some source tree holds both of its taxa. |
| Extraction.TaxaUnion | CSTBL.py:177-185 | The collected taxon list has no duplicates, keeps what was collected before, and holds exactly the taxa of the source trees. |
| Extraction.AddNew | CSTBL.py:181-185 | Adding one tree's taxa keeps the list duplicate-free and as a prefix, and adds exactly that tree's taxa. |
| EdgeIndex.InitializeEdgeDict | Edge_Len_Adjust.py:20-30 | Every edge walked is a key, and each key maps to a position holding that edge. An edge that repeats keeps its first position. With distinct edges, each edge maps to its own position. |
| EdgeIndex.PostEdgesFacts | Edge_Len_Adjust.py:22-29 | The postorder walk yields one edge per node, root included. Child ids are distinct, each parent id is smaller than its child's id, and child ids lie in the subtree's id range. |
| EdgeIndex.PostEdgesNoDup | Edge_Len_Adjust.py:22-29 | The supertree's postorder edges are distinct, and there are as many as nodes. |
| EdgeIndex.PathEdgesIn | Edge_Len_Adjust.py:226-251 | Every edge on the path between two leaves is one of the tree's postorder edges, so the path's dictionary lookups find their keys. |
| EdgeIndex.PathEdgesSym | Edge_Len_Adjust.py:226-251 | The path between two leaves has the same edges read from either end. |
| Climbing.Parents | Edge_Len_Adjust.py:230-236 | The parent map drawn from the edge list names, for each child, the parent of one of its edges. When child ids are distinct, it names the parent of every edge. |
| Climbing.ParentsOfTree | Edge_Len_Adjust.py:230-236 | The supertree's parent map agrees with its edges, and every parent id is below its child's id. |
| Climbing.Climb | Edge_Len_Adjust.py:226-251 | The edges met climbing from a node until a given ancestor, stopping there, so the root's edge is never met; specified by `Climbing.EventClimb` and `Climbing.KidUp`. |
| Climbing.UpClimb | Edge_Len_Adjust.py:226-237 | Climbing from a leaf to an ancestor passes through the leaf's path to any intermediate node, then continues from that node. |
| Climbing.KidUp | Edge_Len_Adjust.py:226-237 | Climbing from a leaf until the node visited is reached yields exactly the edges from the leaf up to that node. |
| Climbing.EventClimb | Edge_Len_Adjust.py:226-251 | The two climbs of a pair, each stopping at the common ancestor, together yield exactly the edges on the path between the two leaves. |
| Branches.AddEdges | Edge_Len_Adjust.py:226-237 | Adding the indices of a list of edges succeeds exactly when every edge is in the dictionary. It then keeps support and distances and keeps the old branches as a prefix. The branch set grows by exactly those edges' indices, and the list stays duplicate-free. |
| Branches.AddBranchInfo | Edge_Len_Adjust.py:210-256 | For a pair whose couplet is not stored, the store is unchanged. Otherwise the couplet stored under the first matching key order gains the indices of both climbs' edges, and nothing else changes. The call fails exactly when a climbed edge has no index. |
| Branches.BranchFold | Edge_Len_Adjust.py:263-295 | The loop that calls `AddBranchInfo` once per visited pair, stopping at the first failure; specified by `Branches.FoldEntry`. |
| Branches.InitializeTaxaPairBranches | Edge_Len_Adjust.py:263-295 | Branch collection over the supertree's visited pairs; specified by `Branches.InitializeBranchesEntry`. |
| Branches.StepEntry | Edge_Len_Adjust.py:210-256 | When every climbed edge is indexed, one pair's branch update succeeds, keeps the keys, and grows each couplet's branches by that pair's path indices when the pair joins the couplet, and by nothing otherwise. |
| Branches.FoldEntry | Edge_Len_Adjust.py:263-295 | Over a sequence of pairs, each couplet's branches grow by the union of the path indices of the pairs joining it. |
| Branches.GatheredUniform | Edge_Len_Adjust.py:263-295 | If every pair joining a couplet contributes the same indices, the union is those indices when some pair joins it, and empty otherwise. |
| Branches.InitializeBranchesEntry | Edge_Len_Adjust.py:263-295 | Over a supertree with unique taxa whose edges are all indexed, branch collection succeeds and keeps the keys. A couplet of two distinct supertree taxa gains exactly the indices of the edges on their supertree path. Any other couplet gains none. Support and distances are kept, and branch lists stay duplicate-free. |
| Weights.SupportTaxaCount | Edge_Len_Adjust.py:48-66 | The supporting-taxa count is two for each taxon position that has a later position forming a couplet supported by two or more trees. The inner scan stops at the first such couplet. |
| Weights.AssignMatrixWeights | Edge_Len_Adjust.py:43-72 | Weighting succeeds exactly when every tree's count is positive, and otherwise fails with a division by zero. On success it appends, in tree order, one weight per tree: the reciprocal of the tree's count. |
| Weights.CountBound | Edge_Len_Adjust.py:50-66 | At most all positions but the last count, so the count is at most twice the tree's taxa less one. |
| Weights.WeightRange | Edge_Len_Adjust.py:69 | A tree with a positive count has at least two taxa, and its weight lies between 1 / (2 (n - 1)) and 1/2. |
| Weights.CountPositive | Edge_Len_Adjust.py:50-69 | A tree's count is positive exactly when some couplet of its taxa is supported by two or more trees. |
| Objective.Rows | Edge_Len_Adjust.py:91-97 | Building the rows succeeds exactly when every couplet's weighted mean exists, and then gives one row per couplet, in order. Each row holds the couplet's branch count, its branch indices and its mean. A failure is some couplet's own failure. |
| Objective.WriteObjectiveFunctionFile | Edge_Len_Adjust.py:79-101 | The program succeeds exactly when every stored couplet has a mean. It declares one unknown per indexed edge and has one row per stored couplet, in the store's iteration order. |
| Objective.RowBetween | Edge_Len_Adjust.py:91-97 | A row's target distance lies between its couplet's smallest and largest recorded distance when every weight is positive. |
| WriteBack.Lookup | Edge_Len_Adjust.py:364-370 | Reads the solver value at each edge's index; specified by `WriteBack.LookupSpec`. |
| WriteBack.LookupSpec | Edge_Len_Adjust.py:364-370 | Reading solver values for a list of edges succeeds exactly when every edge is indexed within the solver's output. It then reads, for each edge, the value at that edge's index. |
| WriteBack.LookupAppend | Edge_Len_Adjust.py:364-370 | Reading two edge lists in sequence gives the first failure, or else both value lists joined. |
| WriteBack.LookupFails | Edge_Len_Adjust.py:364-370 | When every edge is in the dictionary, reading can fail only by an index past the end of the solver's output. |
| WriteBack.SetLengths | Edge_Len_Adjust.py:364-370 | Setting lengths fails exactly as the flat postorder loop does. On success it keeps the tree's edges, taxa and size, and the tree's postorder lengths are the values that loop reads. |
| WriteBack.WriteBackRoundTrip | Edge_Len_Adjust.py:364-370 | With the postorder edge index, write-back succeeds exactly when the solver returned a value for every edge, and fails with an index error otherwise. The tree's lengths, read back in postorder, are the solver's leading values. |
| Run.KeysOf | Edge_Len_Adjust.py:91 | The store's iteration order lists each stored couplet exactly once. |
| Run.AssignBranchLen | Edge_Len_Adjust.py:305-370 | With unique taxa everywhere, a run fails exactly when some source tree has no supporting taxa (division by zero) or the solver returned too few values (index error). Otherwise it yields `Succeeded`. |
| Run.BranchWeighStage | Edge_Len_Adjust.py:330-336 | With unique taxa, branch collection followed by weighting fails exactly when some source tree has no supporting taxa, with a division by zero. Otherwise each couplet is `Collected` and every weight is positive and the reciprocal of its tree's count. |
| Run.WriteStage | Edge_Len_Adjust.py:349-370 | Once the weights are known, writing the program cannot fail, and write-back fails exactly when the solver returned too few values. Otherwise the outcome satisfies `Succeeded`. |
| Run.Assemble | Edge_Len_Adjust.py:305-370 | On success, the outcome satisfies `Succeeded` (the stage results are listed below). |
| Run.WeightsSame | Edge_Len_Adjust.py:43-72 | Two stores with the same keys and supports give every tree the same weight. |
| Run.BranchStage | Edge_Len_Adjust.py:325-331 | Over source trees and a supertree with unique taxa, branch collection after extraction succeeds and keeps each couplet's support and distances. It fills each couplet's branches with the indices of its supertree path. |
| Run.CountedSame | Edge_Len_Adjust.py:43-69 | Branch collection does not change any tree's supporting-taxa count, so it cannot change whether weighting succeeds. |
| Run.WeightsPositive | Edge_Len_Adjust.py:69-72 | Every weight the weighting stage produces is positive. |
| Run.AveragesDefined | Header.py:121-127 | With positive weights for all source trees, every stored couplet's weighted mean exists, so writing the program cannot fail. |
| Run.SingleTreeStops | Edge_Len_Adjust.py:43-69 | Over a single source tree with unique taxa, some tree has a zero supporting-taxa count, so the run stops with a division by zero. |

`Succeeded` (in `run.dfy`) collects the facts a successful run guarantees:

- the stored couplets are those the extraction found;
- each couplet keeps its support and distances, and holds as branches the
  indices of its supertree path;
- the edge dictionary numbers the supertree's edges in postorder;
- every tree weight is positive, and is the reciprocal of the tree's
  supporting-taxa count over the extracted couplets;
- the program has one unknown per edge and one row per couplet. The keys
  it iterates list every stored couplet exactly once, and row i is the
  row of couplet i;
- the returned supertree has the same shape and taxa, and carries the
  solver's values in postorder.

## Left out

- Reading trees and writing Newick, the log file, timing and the `DEBUG_LEVEL` output. These are I/O; results are returned as values instead.
- The external least-squares solver, the shell command that starts it, and the parsing of its output file. The solver's values are the parameter `solution` of `Run.AssignBranchLen`. The solve itself is a foreign program.
- The objective's text format: the tab-separated numbers and the `str()` of floats. `Objective.Program` holds the same numbers as structured rows.
- Floating point: distances, weights and means are Dafny `real`s (exact arithmetic), not IEEE doubles.
- Dictionary iteration order: `Run.KeysOf` picks an arbitrary order that lists each couplet once. Facts about the rows are stated for whatever order is chosen.
- The order of `infer_taxa()`: the weights take each tree's taxa as a parameter, and a run uses the tree's leaf order.
- The program's unused and commented-out objective builders (`Form_ObjectiveFunction`, `edge_len_optimize_func`) and the first `Initialize_TaxaPairBranches` (`Edge_Len_Adjust.py:156`), which sits inside a string literal and so is commented out. None is reached when a run executes.
- Command-line parsing in `CSTBL.py`. The collected taxon list is modelled (`Extraction.TaxaUnion`), but it only feeds the log's taxon count.
- Clamping of negative solver values: the program defines a correction constant but assigns values unchanged, and the model does the same.
- Node identity: dendropy node objects are modelled by preorder ids (`Trees.Numbered`). `Run.AssignBranchLen` requires the supertree to be numbered this way.
- Run.AssignBranchLen: its results are stated for source trees and a supertree that each name every taxon at most once (`Run.Unique`). With a repeated taxon the program still runs, but the extraction may visit a couplet more than once per tree. Only the extraction invariants cover that case.
- Extraction.DeriveEntry: stated for a tree that names each taxon once, as are `Extraction.TreeMatching` and `Pairs.ExactlyOnce`, for the same reason.

