# Distance matrices and the trees built from them

A Dafny model of the hierarchical-clustering core of the `cluster` package's
`DistanceMatrix` (`dist_matrix.go`): the validity checks on a matrix of pairwise
distances, the four-point test for additivity, and the three tree builders — additive
phylogeny (`AdditiveTree`), agglomerative clustering into an ultrametric tree
(`Ultrametric`/`UltrametricD`, average or single linkage), and neighbor joining
(`NeighborJoin`/`NeighborJoinD`).

A matrix is a `seq<seq<real>>` value. The graph results are plain values too: a labelled
adjacency list (`Graph.AdjacencyList`, a sequence of `Half(to, lbl)` lists, the label
indexing a weight list) and a parent list (`Upgma.PathEnd(from, len)` with an
`Upgma.Ultrametric(weight, age)` label per node).

Files and modules:

- `graph.dfy` (`Graph`): the adjacency list and what it means for it to be undirected,
  simple and connected.
- `dist_matrix.dfy` (`DistanceMatrix`): `Clone`, the five checks, `Validate` and
  `Additive`. Each check is the source's scan with early return. It is proved against a
  quantified predicate, and the scan order pins down which violation is reported.
- `additive_tree.dfy` (`AdditivePhylogeny`): `limbWeightSubMatrix`, and `AdditiveTree` as
  a `Builder` class. Its fields `t`, `edgeWts`, `x` and `vis` are updated in place by the
  recursive attachment `Ap`, the depth-first search `Find`, and the edge split.
- `ultrametric.dfy` (`Upgma`): `closest`, the two linkage updates, the merge loop of
  `UltrametricD`, and the `Ultrametric` wrapper.
- `neighbor_join.dfy` (`NeighborJoining`): the total-distance vector, the Q-criterion
  scan, the limb lengths, the fold and deletion of rows, the recursion `nj` (here
  `Join`), and both entry points.
- `test_cases.dfy` (`TestCases`): the matrices of the repository's examples, with the
  outputs the contracts determine.

A Go `panic` (an index out of range, or the explicit `panic` calls) is modelled as a
`panicked` result. For the checks `Symmetric`, `ZeroDiagonal` and `TriangleInequality`
the contract says exactly when it is raised, on any rows. The builders and `Additive`
take a square matrix, and for those the cases where a panic is stated are listed under
"Left out".

## Model

| member | source | states |
|---|---|---|
| DistanceMatrix.Clone | dist_matrix.go:38-45 | the copy equals the matrix, row by row |
| DistanceMatrix.Square | dist_matrix.go:63-71 | true iff every row has as many entries as there are rows |
| DistanceMatrix.NonNegative | dist_matrix.go:73-86 | true iff no element of any row is negative |
| DistanceMatrix.Symmetric | dist_matrix.go:88-98 | on any rows, ragged ones included: true iff every row i has di[:i] in range and each d[i][j], j < i, equal to an existing d[j][i]; panicked iff the scan, row by row, reaches a row shorter than i or an out-of-range d[j][i] before any mismatch; on rows long enough for every comparison, no panic and true iff d[i][j] == d[j][i] for every j < i |
| DistanceMatrix.MirrorScanIndexable | dist_matrix.go:88-98 | on rows long enough for every comparison, no row of the scan panics, and every row passes exactly when the matrix is symmetric |
| DistanceMatrix.ZeroDiagonal | dist_matrix.go:100-108 | on any rows: true iff every d[i][i] exists and is 0; panicked iff some row i has no entry i while every earlier diagonal entry was 0; with a full diagonal, no panic and true iff every d[i][i] is 0 |
| DistanceMatrix.TriangleInequality | dist_matrix.go:110-129 | on any rows: true with 0,0,0 iff every step of the scan (row i, then k < i with the read of d[i][k], then each column j of row i) reads in range and no d[i][j] + d[k][j] < d[i][k]; panicked iff the scan reaches an out-of-range read before any violation; otherwise false with the violating triple the scan reached; on rows long enough to index, no panic, true iff no triple (k < i, any j) violates, and the triple returned is the first violation in scan order |
| DistanceMatrix.TriangleNoPanic | dist_matrix.go:110-129 | once the scan reaches a violation, every step it reaches reads in range, so it returns the violation and does not panic |
| DistanceMatrix.TriangleScanIndexable | dist_matrix.go:110-129 | on rows long enough to index, no step panics, all steps pass iff no triple k < i violates, and a violation the scan reaches is the first one in scan order |
| DistanceMatrix.Validate | dist_matrix.go:131-161 | no error iff all five conditions hold; otherwise the error names the first failing condition in the order square, non-negative, symmetric, zero diagonal, triangle, and the triangle error carries the first violating triple |
| DistanceMatrix.TriangleEveryTriple | dist_matrix.go:131-139 | on a valid matrix, testing only k < i suffices: d[i][k] <= d[i][j] + d[j][k] for every ordered triple |
| DistanceMatrix.FailsBreaksFourPoint | dist_matrix.go:176-187 | a quadruple the swap-and-compare test rejects breaks the four-point condition |
| DistanceMatrix.Additive | dist_matrix.go:163-193 | true with 0,0,0,0 iff no quadruple (k < j < i, any l) fails the test; otherwise the first failing quadruple in scan order, which breaks the four-point condition |
| DistanceMatrix.AdditiveComplete | dist_matrix.go:163-193 | on a symmetric matrix that passes, every four distinct points meet the four-point condition (the largest of the three pair sums is attained twice) |
| AdditivePhylogeny.LimbWeightSubMatrix | dist_matrix.go:246-268 | k = j-1; twice the weight is the least d[j][i] + d[j][k] - d[k][i] over i < k; i is the first index attaining it, with i = k-1 kept unless another is strictly smaller |
| AdditivePhylogeny.ShapedGraph | dist_matrix.go:270-279 | the tree under construction is an undirected, simple graph |
| AdditivePhylogeny.ClosedHoldsAll | dist_matrix.go:348-349 | a neighbour-closed node set holding the search's start k holds the target leaf i, so the search from k always finds i |
| AdditivePhylogeny.SplitTreeIsSplit | dist_matrix.go:324-338 | the split redirects n's half to the new node v, recycles the reciprocal half as v's edge with the new label, and appends v with both halves; nothing else changes |
| AdditivePhylogeny.SplitFound | dist_matrix.go:330-337 | the scan for the reciprocal half of edge (n, to.To) finds it |
| AdditivePhylogeny.SplitKeeps | dist_matrix.go:317-340 | splitting an edge keeps the tree undirected, simple and connected, with one more node and one more weight |
| AdditivePhylogeny.AttachKeeps | dist_matrix.go:350-353 | hanging leaf n on node v by a new label keeps the tree undirected, simple and connected, with one more attached leaf |
| AdditivePhylogeny.AttachBranching | dist_matrix.go:324-353 | every internal node keeps at least three neighbours once the leaf is attached to it |
| AdditivePhylogeny.ShapedConnected | dist_matrix.go:270-279 | the finished tree is connected |
| AdditivePhylogeny.FirstTo | dist_matrix.go:331-337 | the position of the first half-edge to n, or the list's length when there is none |
| AdditivePhylogeny.LocatedExtend | dist_matrix.go:307-316 | a search that stopped with x at 0 one edge further down stopped at the same point of the walk that is one step longer |
| AdditivePhylogeny.LocatedBack | dist_matrix.go:317-343 | consuming x on the way back over the edge at position tx of n leaves the search at the first step of the walk through that edge: at n with x less the edge's weight, or inside that edge at distance x from its far end |
| AdditivePhylogeny.Builder.constructor | dist_matrix.go:284 | len(d) nodes with no half-edges and no weights |
| AdditivePhylogeny.Builder.JoinFirst | dist_matrix.go:287-291 | base case: leaves 0 and 1 joined by label 0 of weight d[0][1] |
| AdditivePhylogeny.Builder.Find | dist_matrix.go:302-347 | the search from n for i: either it returns -1 with nothing changed but the visited set, every node it visited having all its neighbours visited; or it returns a node on a walk from n to i in the tree as it was. Without a split that node is where the rest of the walk to i used up x: x lost exactly that length, and is 0 unless the node is n. With a split, the new node lies inside an edge of the walk, at distance old x from i: the new edge's weight is old x less the rest of the walk, and x is 0 |
| AdditivePhylogeny.Builder.Descend | dist_matrix.go:307-316 | the search through the edge at position tx of n: -1 with nothing changed, or the same statement as Find on the walk through that edge, consuming the edge's weight on the way back (through Consume) when x is not yet 0 |
| AdditivePhylogeny.Builder.Consume | dist_matrix.go:317-343 | x below the edge's weight: the edge is split at distance x and the new node returned with x 0; otherwise n is returned and x loses the edge's weight |
| AdditivePhylogeny.Builder.SplitEdge | dist_matrix.go:317-340 | the split: the old label's weight drops by x, a new label of weight x is appended, the graph is the split graph, and x becomes 0 |
| AdditivePhylogeny.Builder.Connect | dist_matrix.go:348-349 | the search from k with x = xn always finds i: it returns the point at distance xn from i on a walk from k to i, splitting the edge that holds it, or k with x left over when the walk is shorter than xn |
| AdditivePhylogeny.Builder.Grow | dist_matrix.go:348-353 | with leaves 0..n-1 attached: the tree after the search is the old tree or one split of it; leaf n then hangs, by a new edge of weight nLen, on the node the search returned, the point at distance xn from i on a walk from k to i in the old tree; the tree stays valid and internal nodes keep at least three neighbours |
| AdditivePhylogeny.Builder.Attach | dist_matrix.go:350-353 | leaf n gets the single half to v with a new label of weight nLen, and v gets the reciprocal half |
| AdditivePhylogeny.Builder.Ap | dist_matrix.go:286-354 | after ap(n), leaves 0..n are attached in a valid tree whose internal nodes have at least three neighbours, and leaf n hangs on one edge of its limb weight; for n >= 2, i < n-1 attains the least limb score and leaf n hangs on the point at distance d[i][n] - limb from i on a walk from n-1 to i in the tree of leaves 0..n-1; that tree is the one the search left (unchanged, or with the one edge on the walk split at that point), and the final tree is it with leaf n attached |
| AdditivePhylogeny.AdditiveTree | dist_matrix.go:270-357 | panics iff fewer than two leaves; otherwise an undirected, simple, connected tree with the leaves first, between len(d) and 2len(d)-2 nodes, one weight per edge, internal nodes of degree at least 3, and the last leaf on one edge of its limb weight |
| Upgma.ScanRow | dist_matrix.go:562-571 | one row of the pair scan keeps the running minimum over the pairs visited so far |
| Upgma.Closest | dist_matrix.go:553-574 | -1 iff no pair i < j of listed clusters exists; otherwise a pair of least distance, the first in scan order, with cj its position |
| Upgma.MeanAtLeast | dist_matrix.go:521-531 | the weighted mean of two distances at least lo is at least lo |
| Upgma.AverageLinkage | dist_matrix.go:521-532 | row and column d1 become the leaf-weighted mean of rows d1 and d2 for live j != d1; everything else is unchanged |
| Upgma.MinimumLinkage | dist_matrix.go:533-541 | for live j != d1, row d1 takes d2's distance when smaller, otherwise column d1 takes row d1's; entries off row and column d1, and those of clusters no longer live, are unchanged |
| Upgma.AppendSorted | dist_matrix.go:499-508 | appending a node at least as old as the last keeps ages sorted |
| Upgma.SortedWeights | dist_matrix.go:509-512 | with sorted ages, every non-root edge weight is non-negative |
| Upgma.SwapRemove | dist_matrix.go:546-548 | the cluster list loses position cj, the last entry taking its place |
| Upgma.AverageKeepsBound | dist_matrix.go:521-532 | under average linkage, when the merged pair was closest, the live distances stay symmetric and at least twice the new age |
| Upgma.ClosestIsLeast | dist_matrix.go:553-574 | the closest pair's distance is symmetric and no larger than any live distance, in either order |
| Upgma.AveragedRest | dist_matrix.go:521-532 | after the average-linkage update, the live list without cj has symmetric distances no smaller than any bound the old live distances all met |
| Upgma.AveragedEntry | dist_matrix.go:521-532 | one updated entry is symmetric and no smaller than a bound the two old entries it averages both meet |
| Upgma.JoinNodes | dist_matrix.go:499-512 | a new root node over c1 and c2 with m1+m2 leaves and the age; c1 and c2 get it as parent, and weights of age minus their own age |
| Upgma.JoinKeepsNodes | dist_matrix.go:499-512 | a merge keeps the parent list well formed |
| Upgma.JoinKeepsLinks | dist_matrix.go:499-512 | every parent comes later in the list and is internal; weights are parent's age minus own age, absent only at roots |
| Upgma.JoinKeepsChildren | dist_matrix.go:499-512 | every internal node records its two children |
| Upgma.JoinKeepsLive | dist_matrix.go:518-548 | after a merge the cluster list still names the roots of the forest |
| Upgma.JoinLiveList | dist_matrix.go:518-548 | the shorter cluster list stays distinct, in range, and its nodes are distinct roots |
| Upgma.JoinLiveRoots | dist_matrix.go:518-548 | every root of the forest is named by the cluster list |
| Upgma.JoinLiveSum | dist_matrix.go:494-496 | the leaf counts of the live clusters still sum to the number of leaves |
| Upgma.LastJoin | dist_matrix.go:514-516 | merging the last two clusters leaves one rooted tree |
| Upgma.LastLens | dist_matrix.go:494-496 | the last two clusters hold all the leaves between them |
| Upgma.LastRoots | dist_matrix.go:509-516 | after the last merge every node but the last has a parent |
| Upgma.RootedTree | dist_matrix.go:440-444 | a full parent list whose last node is the only root over all leaves is a rooted tree |
| Upgma.Repeat | dist_matrix.go:455-464 | n copies of x |
| Upgma.Identity | dist_matrix.go:469-477 | the list 0, 1, ..., n-1 |
| Upgma.InitialBound | dist_matrix.go:466-472 | on a symmetric non-negative matrix the distances between the initial clusters are symmetric and at least twice age 0 |
| Upgma.FirstMergeOfIdentity | dist_matrix.go:489 | the first closest pair is the least pair of the whole matrix |
| Upgma.Relink | dist_matrix.go:518-544 | the result is the average-linkage update for Average and the single-linkage update for Minimum, with the age bound kept under average linkage |
| Upgma.JoinClosest | dist_matrix.go:489-512 | the closest pair is merged under a new node of age d[d2][d1]/2 |
| Upgma.Merge | dist_matrix.go:488-549 | one loop turn: the nodes of the closest pair get a new parent of age d[d2][d1]/2 with the sum of their leaf counts, their weights become the age differences, it records them as its children, and every other node is unchanged; done iff two clusters were left, and then the tree is rooted and the matrix, cx and cluster list unchanged; otherwise cx gives d1 the new node, the cluster list loses cj by swap-removal, and the matrix is the linkage update by cdf; under average linkage ages do not decrease |
| Upgma.Rejoin | dist_matrix.go:518-548 | the second half of a turn that leaves more than two clusters: the live data change as Relinked states (d1 stands for the new node, the matrix is relinked by cdf, cj is swap-removed), and the forest invariants hold with one cluster fewer |
| Upgma.Reassign | dist_matrix.go:518-548 | cx gives d1 the new node, the matrix is the linkage update by cdf with the clusters' leaf counts as weights, and the list loses cj by swap-removal |
| Upgma.RejoinKeeps | dist_matrix.go:518-548 | a turn that is not the last keeps the forest invariants, whatever square matrix the linkage produces |
| Upgma.RelinkedBy | dist_matrix.go:518-548 | the linkage update with the two clusters' leaf counts, together with the new cx and list, is the Relinked step |
| Upgma.Leaves | dist_matrix.go:455-477 | len(d) isolated leaves of one leaf each, age 0, no weight, each its own cluster |
| Upgma.LeavesNodes | dist_matrix.go:455-464 | the isolated leaves form a well-formed parent list |
| Upgma.LeavesLive | dist_matrix.go:466-477 | the initial cluster list names every leaf |
| Upgma.MergeRecords | dist_matrix.go:488-549 | the loop's record: the first merge is the least pair, and ages stay sorted under average linkage |
| Upgma.MergeAll | dist_matrix.go:488-549 | the loop ends with a rooted tree whose first merge is at half the least distance |
| Upgma.Agglomerate | dist_matrix.go:454-551 | the full parent list of a matrix of at least two elements, with the properties of UltrametricD |
| Upgma.UltrametricD | dist_matrix.go:451-551 | panics iff fewer than two elements; otherwise 2n-1 nodes with the root last over n leaves, each parent later than its child, weights of parent age minus child age, leaves of age 0, the first merge at half the least distance, and under average linkage on a symmetric non-negative matrix ages sorted with non-negative weights |
| Upgma.UltrametricOf | dist_matrix.go:436-449 | Ultrametric: the same on a copy |
| NeighborJoining.TotalDistance | dist_matrix.go:662-669 | td[k] is the sum of row k for every row; entries beyond are kept |
| NeighborJoining.Closest | dist_matrix.go:629-646 | -1,-1 for fewer than two rows; otherwise the pair j < i of least Q value, the first in scan order |
| NeighborJoining.LimbLengths | dist_matrix.go:671-674 | the two limbs sum to d[d2][d1] and differ by (td[d2]-td[d1])/(n-2) |
| NeighborJoining.TotalsDecide | dist_matrix.go:662-674 | the total-distance vector as the recursion keeps it gives the same least-Q pair and the same limb lengths as the row sums of the matrix |
| NeighborJoining.Fold | dist_matrix.go:681-689 | panics iff d[d1][d1] is not 0; otherwise row and column d1 hold the means 0.5(d[d1][j] + d[d2][j] - d[d2][d1]) and nothing else changes |
| NeighborJoining.Delete | dist_matrix.go:691-697 | row and column d2 removed, the rest shifted up and left |
| NeighborJoining.ShrunkDiagonal | dist_matrix.go:681-697 | folding and deleting keep a zero diagonal, so the recursion never panics on one |
| NeighborJoining.RelabelNodes | dist_matrix.go:698-700 | nx names node m in place of the joined pair, stays distinct, and is one shorter |
| NeighborJoining.PairSubtree | dist_matrix.go:652-661 | the base case's one edge is a tree over the two nodes named |
| NeighborJoining.GraftSubtree | dist_matrix.go:705-713 | attaching the two limbs to node m of the smaller tree gives a tree over the larger node list |
| NeighborJoining.GraftHalves | dist_matrix.go:705-713 | the grafted graph has the sizes, degrees and live endpoints of a subtree |
| NeighborJoining.GraftSimple | dist_matrix.go:709-713 | the grafted graph is simple |
| NeighborJoining.GraftUndirected | dist_matrix.go:706-713 | the grafted graph is undirected under the two new labels |
| NeighborJoining.GraftConnected | dist_matrix.go:709-713 | the grafted graph connects every live node |
| NeighborJoining.Attach | dist_matrix.go:705-713 | the tree is the smaller tree with n1 and n2 grafted onto m by the next two labels, whose weights ll1, ll2 are appended, and it is a subtree over the longer node list |
| NeighborJoining.Join | dist_matrix.go:650-715 | panics for fewer than two rows, never on a zero diagonal; otherwise a subtree over the nodes nx names, numbered from m; with two rows the single edge of weight dm[0][1]; with more, the first pair of least Q hangs on node m by the last two labels, whose weights are that pair's limb lengths |
| NeighborJoining.JoinTwo | dist_matrix.go:652-661 | the base case: one edge between the two named nodes, label 0, weight dm[0][1] |
| NeighborJoining.LeavesConnected | dist_matrix.go:716-717 | the finished tree is connected, leaves of degree 1, internal nodes of degree 3 |
| NeighborJoining.NeighborJoinD | dist_matrix.go:619-718 | panics for fewer than two elements, never on a zero diagonal; otherwise an undirected, simple, connected tree of 2n-2 nodes and 2n-3 weights, leaves first of degree 1, internal nodes of degree 3; for two leaves the one edge of weight d[0][1]; for more, the first pair of least Q hangs on node n by the last two weights, its limb lengths |
| NeighborJoining.NeighborJoin | dist_matrix.go:607-617 | the same on a copy: panics for fewer than two elements, and otherwise the tree and weights NeighborJoinD states |
| TestCases.SquareExample | dist_matrix_test.go:31-48 | true, true, false |
| TestCases.NonNegativeExample | dist_matrix_test.go:50-73 | false, true, true |
| TestCases.ZeroDiagonalExample | dist_matrix_test.go:75-98 | true, true, true, false (the last diagonal holds 1e-300); on the ragged [[1],[]] false without a panic, on [[0],[]] a panic |
| TestCases.SymmetricExample | dist_matrix_test.go:100-126 | true, false; on a ragged matrix with a mismatch false without a panic, on one whose row 0 is too short a panic |
| TestCases.AdditiveExampleTriangle | dist_matrix_test.go:128-157 | the additive example satisfies the triangle inequality |
| TestCases.BrokenFirstViolation | dist_matrix_test.go:128-157 | the first violation of the broken matrix is 1 3 0 |
| TestCases.TriangleInequalityExample | dist_matrix_test.go:128-157 | true 0 0 0; true; false 1 3 0; on the ragged [[-1],[5,0]] false 1 0 0 without a panic |
| TestCases.AdditiveExampleWellFormed | dist_matrix_test.go:159-177 | the additive example is square, non-negative, symmetric, with zero diagonal |
| TestCases.BrokenWellFormed | dist_matrix_test.go:159-177 | so is the broken matrix |
| TestCases.ValidateExample | dist_matrix_test.go:159-177 | no error; the triangle error 1 3 0 |
| TestCases.AdditiveExamplePasses | dist_matrix_test.go:179-197 | no quadruple of the additive example fails |
| TestCases.NotAdditiveFirstFailure | dist_matrix_test.go:179-197 | the first failing quadruple is 3 1 0 2 |
| TestCases.AdditiveExampleResult | dist_matrix_test.go:179-197 | true 0 0 0 0; false 3 1 0 2 |
| TestCases.AdditiveTreeExample | dist_matrix_test.go:199-223 | 4 to 6 nodes, connected, and leaf 3 on one edge of weight 7 |
| TestCases.UltrametricExample | dist_matrix_test.go:237-259 | 7 nodes, the root last over 4 leaves, node 4 of age 5 |
| TestCases.UpgmaExampleFirstMerge | dist_matrix_test.go:237-259 | the least distance of the example is 10, so the first merge is at age 5 |
| TestCases.NeighborJoinExample | dist_matrix_test.go:261-287 | 6 nodes, 5 weights, leaves of degree 1, nodes 4 and 5 of degree 3; leaves 1 and 2 hang on node 4 by weights 13.5 and 16.5 |
| TestCases.JoinExamplePair | dist_matrix_test.go:261-287 | in the test's matrix the first pair of least Q is leaves 2 and 1, with limb lengths 13.5 and 16.5 |

## Left out

- Floating point: distances are exact reals. There is no NaN and no infinity, and no rounding. So the "NaN weak" behaviour of `NonNegative`, `Symmetric` and `TriangleInequality` is not modelled. The NaN weight of a root is `None`.
- Upgma.Closest and NeighborJoining.Closest start from "no minimum yet" (`None`) where the source starts from +Inf. They agree on every real input. The source's `-1` result when every distance is +Inf or NaN has no counterpart.
- Node and label numbers (`graph.NI`, `graph.LI`) are unbounded integers; overflow of the node type is not modelled.
- Destructive variants: a matrix is a value. `UltrametricD` and `NeighborJoinD` work on a local copy, so what the caller's matrix holds afterwards is not modelled. `Clone` is therefore the identity, and `Ultrametric`/`NeighborJoin` are `Clone` followed by the D variant.
- Upgma.UltrametricOf: named so because `Ultrametric` is the name of the node-label type in the same module.
- Upgma.UltrametricD: the `cdf` argument is a two-value datatype, so the "invalid distance function" panic cannot arise.
- Upgma.UltrametricD: the `cl` workspace that is allocated for single linkage but never read is left out.
- Upgma.UltrametricD: nothing is claimed about ages under single linkage (DMIN). There, row d1 takes d2's distance when it is smaller, but column d1 is written only otherwise. The model keeps that update as written.
- Upgma.UltrametricD, Upgma.MergeAll, Upgma.Agglomerate: the ultrametric property itself (every leaf below a node at that node's age) is not stated. Sorted ages and non-negative weights are proved for average linkage on a symmetric non-negative matrix. Each merge after the first is stated by `Merge` for its own turn, but not carried up to the final tree.
- AdditiveTree: the path-length property (tree distance between leaves i and j equals d[i][j] for an additive d) is not proved. The contract covers the tree's shape and the last leaf's limb weight.
- AdditiveTree: the requirement that d is additive is not a precondition, as in the source, and nothing depends on it.
- AdditiveTree: x, local to each ap frame in the source, is a `Builder` field that `Connect` sets before each search.
- AdditiveTree: the visited set is a `set<int>` rather than a bitset.
- NeighborJoinD: the contract states the first join (the pair of least Q on the whole matrix, hung on node n by its limb lengths) and, for two leaves, the single edge. Each later join is stated by `Join` on its own shrunk matrix, but not carried up to the final tree, so the example's weights 8, 12 and 2 are not derived.
- NeighborJoinD, NeighborJoining.Join: the panic is stated by bounds: always for fewer than two elements, never on a zero diagonal. Which nonzero diagonal entry the fold meets depends on the pairs chosen, and is not stated.
- NeighborJoin: the same bounds on the panic as NeighborJoinD.
- DistanceMatrix.Additive, AdditiveTree, Upgma.UltrametricD, Upgma.UltrametricOf, NeighborJoinD and NeighborJoin take a square matrix. What the source does on ragged rows (an index panic or a result read from short rows) is not modelled.
- DistanceMatrix.Symmetric: the source slices `di[:i]`, which Go allows up to the row's capacity. The model allows it up to the row's length, as a row built by a literal or by `make` has no spare capacity.
- Find: the walk from n to i is one the search took. That it is the tree's only simple path between them is not proved.
- Descend, Connect, Grow: the same walk as Find.
- Ap: the point where leaf n hangs is stated on the tree of leaves 0..n-1; later splits may subdivide the edge it hangs on, and that is not carried to the final tree.
- Upgma.MinimumLinkage: does not state d[d1][d1] after the update. It depends on the order of the cluster list, and nothing reads it.
- NeighborJoinD: the total-distance vector is allocated once per call, as in the source, and threaded through the recursion.
- TestCases.UltrametricExample: only the first merge's age (5) is derived. The later ages 7 and 8.833 and the parents are not.
- TestCases.AdditiveTreeExample: only the size, connectivity and leaf 3's limb are derived, not the full edge list.
- `String`, `NewEuclideanDist`, `RandomAdditiveMatrix` and the unexported full-matrix `limbWeight` are not part of this model. They are output formatting, floating-point square roots, randomness, and a variant the tree builder does not use.
- `Cut` is commented out in the source and is not part of this model.
- The k-means files (`kmeans.go`, `kmpp.go`, `soft.go`, `point.go`) and `cast.go` are not part of this model.
- `Validate` returns an `Invalid` datatype naming the condition (and the triple) in place of an error string.
