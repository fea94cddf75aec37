/** Neighbor joining (the method of Saitou and Nei). The pair of elements with the least
    Q value is joined under a new node: its row and column become the distances from
    that node, the second element's row and column are deleted, the smaller matrix is
    joined recursively, and the two limbs are attached once it returns. The result is an
    unrooted tree, a labelled adjacency list whose labels index a weight list. */
module NeighborJoining {

  import opened Graph
  import opened DistanceMatrix

  // ---------------------------------------------------------------- total distance

  /** td[k] becomes the sum of row k for every row of dm, summed from the left; the
      entries past |dm|, left from a larger matrix, are kept. */
  method TotalDistance(dm: Matrix, td0: seq<real>) returns (td: seq<real>)
    requires |dm| <= |td0|
    ensures |td| == |td0|
    ensures forall k :: 0 <= k < |dm| ==> td[k] == Sum(dm[k])
    ensures forall k :: |dm| <= k < |td| ==> td[k] == td0[k]
  {
    td := td0;
    for k := 0 to |dm|
      invariant |td| == |td0|
      invariant forall k' :: 0 <= k' < k ==> td[k'] == Sum(dm[k'])
      invariant forall k' :: k <= k' < |td| ==> td[k'] == td0[k']
    {
      var t := 0.0;
      for j := 0 to |dm[k]|
        invariant t == Sum(dm[k][..j])
      {
        assert dm[k][..j + 1][..j] == dm[k][..j];
        t := t + dm[k][j];
      }
      assert dm[k][..|dm[k]|] == dm[k];
      td := td[k := t];
    }
  }

  /** The total distances of dm: the sum of each row. */
  ghost function Totals(dm: Matrix): (td: seq<real>)
    ensures |td| == |dm|
  {
    seq(|dm|, k requires 0 <= k < |dm| => Sum(dm[k]))
  }

  // ---------------------------------------------------------------- the Q criterion

  /** The Q value of the pair j < i: (n - 2) times their distance, less both total
      distances. */
  function Q(dm: Matrix, td: seq<real>, i: int, j: int): real
    requires IsSquare(dm) && |dm| <= |td| && 0 <= j < i < |dm|
  {
    (|dm| - 2) as real * dm[i][j] - td[i] - td[j]
  }

  /** (i, j) is a pair the scan compares: a row index and a smaller column index. */
  ghost predicate Pair(dm: Matrix, i: int, j: int)
  {
    0 <= j < i < |dm|
  }

  /** The scan visits row i, then column j: (i', j') comes before (i, j). */
  ghost predicate PairBefore(i': int, j': int, i: int, j: int)
  {
    i' < i || (i' == i && j' < j)
  }

  /** (i, j) has the least Q value, and it is the first pair in scan order that has it. */
  ghost predicate FirstLeastQ(dm: Matrix, td: seq<real>, i: int, j: int)
    requires IsSquare(dm) && |dm| <= |td|
  {
    Pair(dm, i, j) &&
    (forall i', j' :: Pair(dm, i', j') ==> Q(dm, td, i, j) <= Q(dm, td, i', j')) &&
    (forall i', j' :: Pair(dm, i', j') && PairBefore(i', j', i, j) ==> Q(dm, td, i, j) < Q(dm, td, i', j'))
  }

  /** The state of the scan once every pair before (i, j) is compared: min is the least
      Q value seen (None standing for +Inf), at the first pair (iMin, jMin) that has it. */
  ghost predicate Scanned(dm: Matrix, td: seq<real>, i: int, j: int, min: Option<real>, iMin: int, jMin: int)
    requires IsSquare(dm) && |dm| <= |td|
  {
    (min.None? <==> iMin == -1) &&
    (min.None? ==> jMin == -1 && forall i', j' :: Pair(dm, i', j') ==> !PairBefore(i', j', i, j)) &&
    (min.Some? ==>
       Pair(dm, iMin, jMin) && PairBefore(iMin, jMin, i, j) && min.value == Q(dm, td, iMin, jMin) &&
       (forall i', j' :: Pair(dm, i', j') && PairBefore(i', j', i, j) ==> min.value <= Q(dm, td, i', j')) &&
       (forall i', j' :: Pair(dm, i', j') && PairBefore(i', j', iMin, jMin) ==> min.value < Q(dm, td, i', j')))
  }

  /** A pair whose Q value is not below the least so far leaves the scan as it is. */
  lemma NotLess(dm: Matrix, td: seq<real>, i: int, j: int, min: Option<real>, iMin: int, jMin: int)
    requires IsSquare(dm) && |dm| <= |td| && Pair(dm, i, j)
    requires Scanned(dm, td, i, j, min, iMin, jMin)
    requires min.Some? && min.value <= Q(dm, td, i, j)
    ensures Scanned(dm, td, i, j + 1, min, iMin, jMin)
  {
  }

  /** A pair whose Q value is below every one seen so far is the first least up to it. */
  lemma NewLeast(dm: Matrix, td: seq<real>, i: int, j: int, min: Option<real>, iMin: int, jMin: int)
    requires IsSquare(dm) && |dm| <= |td| && Pair(dm, i, j)
    requires Scanned(dm, td, i, j, min, iMin, jMin)
    requires min.None? || Q(dm, td, i, j) < min.value
    ensures Scanned(dm, td, i, j + 1, Some(Q(dm, td, i, j)), i, j)
  {
  }

  /** The pair to join, smaller index first: d2 > d1 with the least Q value, the first
      the scan meets among equal values; -1, -1 when dm has fewer than two elements. */
  method Closest(dm: Matrix, td: seq<real>) returns (jMin: int, iMin: int)
    requires IsSquare(dm) && |dm| <= |td|
    ensures |dm| < 2 ==> jMin == -1 && iMin == -1
    ensures |dm| >= 2 ==> FirstLeastQ(dm, td, iMin, jMin)
  {
    var min: Option<real> := None;
    iMin, jMin := -1, -1;
    var i := 1;
    while i < |dm|
      invariant 1 <= i
      invariant Scanned(dm, td, i, 0, min, iMin, jMin)
    {
      for j := 0 to i
        invariant Scanned(dm, td, i, j, min, iMin, jMin)
      {
        var d := (|dm| - 2) as real * dm[i][j] - td[i] - td[j];
        if min.None? || d < min.value {
          NewLeast(dm, td, i, j, min, iMin, jMin);
          min := Some(d);
          iMin, jMin := i, j;
        } else {
          NotLess(dm, td, i, j, min, iMin, jMin);
        }
      }
      i := i + 1;
    }
    if |dm| >= 2 {
      assert Pair(dm, 1, 0);
    }
  }

  /** The limb lengths from the new node to d1 and to d2: they add up to the distance
      between d1 and d2, and d2's is the longer by the difference of their total
      distances over n - 2. */
  function LimbLengths(dm: Matrix, td: seq<real>, d1: int, d2: int): (ll: (real, real))
    requires IsSquare(dm) && |dm| <= |td| && 0 <= d1 < d2 < |dm| && |dm| > 2
    ensures ll.0 + ll.1 == dm[d2][d1]
    ensures ll.1 - ll.0 == (td[d2] - td[d1]) / (|dm| - 2) as real
  {
    var delta := (td[d2] - td[d1]) / (|dm| - 2) as real;
    var d21 := dm[d2][d1];
    (0.5 * (d21 - delta), 0.5 * (d21 + delta))
  }

  /** The pair the join picks, and the limb lengths it gives, depend only on the totals of
      the rows of dm, not on the entries a larger matrix left past them. */
  lemma TotalsDecide(dm: Matrix, td: seq<real>, i: int, j: int)
    requires IsSquare(dm) && |dm| <= |td| && forall k :: 0 <= k < |dm| ==> td[k] == Sum(dm[k])
    requires FirstLeastQ(dm, td, i, j)
    ensures FirstLeastQ(dm, Totals(dm), i, j)
    ensures |dm| > 2 ==> LimbLengths(dm, td, j, i) == LimbLengths(dm, Totals(dm), j, i)
  {
    var tt := Totals(dm);
    assert forall i', j' :: Pair(dm, i', j') ==> Q(dm, td, i', j') == Q(dm, tt, i', j');
  }

  // ---------------------------------------------------------------- shrinking the matrix

  /** The distance from the node joining d1 and d2 to element j. */
  function Mean(dm: Matrix, d1: int, d2: int, j: int): real
    requires IsSquare(dm) && 0 <= d1 < |dm| && 0 <= d2 < |dm| && 0 <= j < |dm|
  {
    0.5 * (dm[d1][j] + dm[d2][j] - dm[d2][d1])
  }

  /** r is dm with row d1 and column d1 holding the distances from the joining node. */
  ghost predicate Folded(dm: Matrix, d1: int, d2: int, r: Matrix)
    requires IsSquare(dm) && 0 <= d1 < |dm| && 0 <= d2 < |dm|
  {
    |r| == |dm| && IsSquare(r) &&
    forall i, j {:trigger r[i][j]} :: 0 <= i < |dm| && 0 <= j < |dm| ==>
      r[i][j] == if i == d1 then Mean(dm, d1, d2, j) else if j == d1 then Mean(dm, d1, d2, i) else dm[i][j]
  }

  /** Row d1, and with it column d1, is overwritten with the distances from the node
      joining d1 and d2, in column order. The new diagonal entry is half the old one, and
      the join panics when that is not zero. */
  method Fold(dm: Matrix, d1: int, d2: int) returns (r: Matrix, panicked: bool)
    requires IsSquare(dm) && 0 <= d1 < d2 < |dm|
    ensures panicked <==> dm[d1][d1] != 0.0
    ensures !panicked ==> Folded(dm, d1, d2, r)
  {
    assert Mean(dm, d1, d2, d1) == 0.5 * dm[d1][d1];
    var d21 := dm[d2][d1];
    r := dm;
    for j := 0 to |dm[d1]|
      invariant |r| == |dm| && IsSquare(r)
      invariant forall i, j' {:trigger r[i][j']} :: 0 <= i < |dm| && 0 <= j' < |dm| ==>
        r[i][j'] == if i == d1 && j' < j then Mean(dm, d1, d2, j')
                    else if j' == d1 && i < j then Mean(dm, d1, d2, i)
                    else dm[i][j']
      invariant d1 < j ==> Mean(dm, d1, d2, d1) == 0.0
    {
      assert r[d1][j] == dm[d1][j] && r[d2][j] == dm[d2][j];
      var mn := 0.5 * (r[d1][j] + r[d2][j] - d21);
      assert mn == Mean(dm, d1, d2, j);
      if j == d1 && mn != 0.0 {
        panicked := true;
        return;
      }
      ghost var r0 := r;
      r := r[d1 := r[d1][j := mn]];
      r := r[j := r[j][d1 := mn]];
      FoldStep(dm, d1, d2, j, r0, r);
    }
    panicked := false;
  }

  /** One column of the fold: cell (d1, j) and its mirror (j, d1) take the distance from
      the joining node. */
  lemma FoldStep(dm: Matrix, d1: int, d2: int, j: int, r0: Matrix, r: Matrix)
    requires IsSquare(dm) && 0 <= d1 < d2 < |dm| && 0 <= j < |dm|
    requires |r0| == |dm| && IsSquare(r0)
    requires forall i, j' {:trigger r0[i][j']} :: 0 <= i < |dm| && 0 <= j' < |dm| ==>
      r0[i][j'] == if i == d1 && j' < j then Mean(dm, d1, d2, j')
                   else if j' == d1 && i < j then Mean(dm, d1, d2, i)
                   else dm[i][j']
    requires j == d1 ==> Mean(dm, d1, d2, j) == 0.0
    requires r == r0[d1 := r0[d1][j := Mean(dm, d1, d2, j)]][j := r0[d1 := r0[d1][j := Mean(dm, d1, d2, j)]][j][d1 := Mean(dm, d1, d2, j)]]
    ensures |r| == |dm| && IsSquare(r)
    ensures forall i, j' {:trigger r[i][j']} :: 0 <= i < |dm| && 0 <= j' < |dm| ==>
      r[i][j'] == if i == d1 && j' < j + 1 then Mean(dm, d1, d2, j')
                  else if j' == d1 && i < j + 1 then Mean(dm, d1, d2, i)
                  else dm[i][j']
  {
    forall i, j' | 0 <= i < |dm| && 0 <= j' < |dm|
      ensures r[i][j'] == if i == d1 && j' < j + 1 then Mean(dm, d1, d2, j')
                          else if j' == d1 && i < j + 1 then Mean(dm, d1, d2, i)
                          else dm[i][j']
    {
      if i == j && j' == d1 {
      } else if i == d1 && j' == j {
      } else {
        assert r[i][j'] == r0[i][j'];
      }
    }
  }

  /** Index i of the matrix without element d2 is index Skip(i, d2) of the matrix with it. */
  function Skip(i: int, d2: int): int
  {
    if i < d2 then i else i + 1
  }

  /** r is dm without row d2 and column d2. */
  ghost predicate Deleted(dm: Matrix, d2: int, r: Matrix)
    requires IsSquare(dm) && 0 <= d2 < |dm|
  {
    |r| == |dm| - 1 && IsSquare(r) &&
    forall i, j {:trigger r[i][j]} :: 0 <= i < |r| && 0 <= j < |r| ==> r[i][j] == dm[Skip(i, d2)][Skip(j, d2)]
  }

  /** Row d2 is deleted, then column d2 from every remaining row. */
  method Delete(dm: Matrix, d2: int) returns (r: Matrix)
    requires IsSquare(dm) && 0 <= d2 < |dm|
    ensures Deleted(dm, d2, r)
  {
    r := dm[..d2] + dm[d2 + 1..];
    for i := 0 to |r|
      invariant |r| == |dm| - 1
      invariant forall i' {:trigger r[i']} :: 0 <= i' < i ==> r[i'] == dm[Skip(i', d2)][..d2] + dm[Skip(i', d2)][d2 + 1..]
      invariant forall i' {:trigger r[i']} :: i <= i' < |r| ==> r[i'] == dm[Skip(i', d2)]
    {
      r := r[i := r[i][..d2] + r[i][d2 + 1..]];
    }
  }

  /** Folding then deleting keeps a square matrix with a zero diagonal, and each
      remaining distance is the old one or, in the joined row and column, the distance
      from the new node. */
  lemma ShrunkDiagonal(dm: Matrix, d1: int, d2: int, r: Matrix, s: Matrix)
    requires IsSquare(dm) && 0 <= d1 < d2 < |dm|
    requires Folded(dm, d1, d2, r) && Deleted(r, d2, s)
    requires HasZeroDiagonal(dm)
    ensures HasZeroDiagonal(s)
  {
    forall i | 0 <= i < |s| && i < |s[i]|
      ensures s[i][i] == 0.0
    {
      var k := Skip(i, d2);
      assert 0 <= k < |dm| && s[i][i] == r[k][k];
      assert dm[k][k] == 0.0;
      if k == d1 {
        assert r[k][k] == Mean(dm, d1, d2, k) == 0.5 * dm[k][k];
      } else {
        assert r[k][k] == dm[k][k];
      }
    }
  }

  // ---------------------------------------------------------------- node numbers

  /** The node numbers of the matrix elements: distinct, and all below m. */
  ghost predicate Nodes(nx: seq<int>, m: int)
  {
    (forall a :: 0 <= a < |nx| ==> 0 <= nx[a] < m) &&
    (forall a, b :: 0 <= a < b < |nx| ==> nx[a] != nx[b])
  }

  /** The node numbers after the join: position d1 names the new node m, and position d2
      is deleted. */
  function Relabel(nx: seq<int>, d1: int, d2: int, m: int): seq<int>
    requires 0 <= d1 < d2 < |nx|
  {
    var s := nx[d1 := m];
    s[..d2] + s[d2 + 1..]
  }

  /** After the join the elements name the new node m and every node they named before
      except the joined pair; the names stay distinct and below m + 1. */
  lemma RelabelNodes(nx: seq<int>, d1: int, d2: int, m: int)
    requires Nodes(nx, m) && 0 <= d1 < d2 < |nx|
    ensures |Relabel(nx, d1, d2, m)| == |nx| - 1 && Nodes(Relabel(nx, d1, d2, m), m + 1)
    ensures forall u :: u in Relabel(nx, d1, d2, m) <==> u == m || (u in nx && u != nx[d1] && u != nx[d2])
  {
    var r := Relabel(nx, d1, d2, m);
    assert forall i :: 0 <= i < |r| ==> r[i] == if Skip(i, d2) == d1 then m else nx[Skip(i, d2)];
    forall u | u in nx && u != nx[d1] && u != nx[d2]
      ensures u in r
    {
      var k :| 0 <= k < |nx| && nx[k] == u;
      var i := if k < d2 then k else k - 1;
      assert r[i] == u;
    }
    assert r[d1] == m;
  }

  // ---------------------------------------------------------------- the tree

  /** A node is live in a call while a matrix element names it, or once it is new. */
  ghost predicate Live(nx: seq<int>, m: int, u: int)
  {
    u in nx || m <= u
  }

  /** The number of neighbours node u has when the call for nx and m returns: one for a
      node an element names, three for a node the call creates, none for the others. */
  ghost function Degree(nx: seq<int>, m: int, u: int): int
  {
    if u in nx then 1 else if m <= u then 3 else 0
  }

  /** Every node set closed under neighbours that holds one live node holds them all. */
  ghost predicate LiveConnected(nx: seq<int>, m: int, tree: AdjacencyList)
  {
    forall c, v :: Closed(tree, c) && v in c && Live(nx, m, v) ==>
      forall u :: 0 <= u < |tree| && Live(nx, m, u) ==> u in c
  }

  /** What the call joining the elements nx names returns, with new nodes numbered from
      m: m + |nx| - 2 nodes and 2|nx| - 3 weights, an undirected simple graph in which
      every node has its Degree, every half-edge joins live nodes, and the live nodes are
      connected. */
  ghost predicate Subtree(nx: seq<int>, m: int, tree: AdjacencyList, wt: seq<real>)
  {
    |tree| == m + |nx| - 2 && |wt| == 2 * |nx| - 3 &&
    Undirected(tree, |wt|) && Simple(tree) &&
    (forall u :: 0 <= u < |tree| ==> |tree[u]| == Degree(nx, m, u)) &&
    (forall u, a :: 0 <= u < |tree| && 0 <= a < |tree[u]| ==> Live(nx, m, tree[u][a].to)) &&
    LiveConnected(nx, m, tree)
  }

  /** The tree of the last two elements: one edge between the nodes they name,
      labelled 0. */
  lemma PairSubtree(nx: seq<int>, m: int, tree: AdjacencyList, wt: seq<real>)
    requires Nodes(nx, m) && |nx| == 2 && |wt| == 1
    requires tree == seq(m, _ => [])[nx[0] := [Half(nx[1], 0)]][nx[1] := [Half(nx[0], 0)]]
    ensures Subtree(nx, m, tree, wt)
  {
    assert Reciprocated(tree, nx[0], 0) && Reciprocated(tree, nx[1], 0);
    forall u | 0 <= u < |tree|
      ensures |tree[u]| == Degree(nx, m, u)
    {
      assert u in nx <==> u == nx[0] || u == nx[1];
    }
    forall c, v | Closed(tree, c) && v in c && Live(nx, m, v)
      ensures forall u :: 0 <= u < |tree| && Live(nx, m, u) ==> u in c
    {
      assert Explored(tree, v, c);
      assert v == nx[0] || v == nx[1];
    }
  }

  /** The joined pair's limbs attached to the new node m, labelled y and y + 1. */
  function Graft(t: AdjacencyList, m: int, n1: int, n2: int, y: int): AdjacencyList
    requires 0 <= m < |t| && 0 <= n1 < |t| && 0 <= n2 < |t|
  {
    var t1 := t[m := t[m] + [Half(n1, y), Half(n2, y + 1)]];
    var t2 := t1[n1 := t1[n1] + [Half(m, y)]];
    t2[n2 := t2[n2] + [Half(m, y + 1)]]
  }

  /** Attaching the joined pair to the new node turns the tree of the smaller problem
      into the tree of this one. */
  lemma GraftSubtree(nx: seq<int>, m: int, d1: int, d2: int, tree0: AdjacencyList, wt0: seq<real>,
                     tree: AdjacencyList, wt: seq<real>, ll1: real, ll2: real)
    requires Nodes(nx, m) && 0 <= d1 < d2 < |nx| && |nx| > 2
    requires Subtree(Relabel(nx, d1, d2, m), m + 1, tree0, wt0)
    requires wt == wt0 + [ll1, ll2]
    requires tree == Graft(tree0, m, nx[d1], nx[d2], |wt0|)
    ensures Subtree(nx, m, tree, wt)
  {
    var nx', n1, n2, y := Relabel(nx, d1, d2, m), nx[d1], nx[d2], |wt0|;
    RelabelNodes(nx, d1, d2, m);
    assert m in nx' && n1 !in nx' && n2 !in nx' && m !in nx && n1 != n2;
    assert forall u :: 0 <= u < |tree| && u != m && u != n1 && u != n2 ==> tree[u] == tree0[u];
    assert tree[m] == tree0[m] + [Half(n1, y), Half(n2, y + 1)];
    assert tree[n1] == tree0[n1] + [Half(m, y)] && tree[n2] == tree0[n2] + [Half(m, y + 1)];
    GraftHalves(nx, m, d1, d2, tree0, wt0, tree, wt);
    GraftConnected(nx, m, d1, d2, tree0, wt0, tree);
  }

  /** The counts, degrees and half-edges of the grafted tree. */
  lemma GraftHalves(nx: seq<int>, m: int, d1: int, d2: int, tree0: AdjacencyList, wt0: seq<real>,
                    tree: AdjacencyList, wt: seq<real>)
    requires 0 <= d1 < d2 < |nx| && |nx| > 2
    requires 0 <= nx[d1] < m && 0 <= nx[d2] < m && nx[d1] != nx[d2] && m !in nx
    requires Subtree(Relabel(nx, d1, d2, m), m + 1, tree0, wt0) && |wt| == |wt0| + 2
    requires tree == Graft(tree0, m, nx[d1], nx[d2], |wt0|)
    requires forall u :: u in Relabel(nx, d1, d2, m) <==> u == m || (u in nx && u != nx[d1] && u != nx[d2])
    ensures |tree| == m + |nx| - 2 && |wt| == 2 * |nx| - 3
    ensures Undirected(tree, |wt|) && Simple(tree)
    ensures forall u :: 0 <= u < |tree| ==> |tree[u]| == Degree(nx, m, u)
    ensures forall u, a :: 0 <= u < |tree| && 0 <= a < |tree[u]| ==> Live(nx, m, tree[u][a].to)
  {
    var nx', n1, n2, y := Relabel(nx, d1, d2, m), nx[d1], nx[d2], |wt0|;
    assert n1 in nx && n2 in nx && m in nx' && n1 !in nx' && n2 !in nx' && m !in nx;
    GraftUndirected(m, n1, n2, tree0, y, tree);
    assert |tree0[n1]| == 0 && |tree0[n2]| == 0;
    forall a | 0 <= a < |tree0[m]|
      ensures tree0[m][a].to != n1 && tree0[m][a].to != n2
    {
      assert Live(nx', m + 1, tree0[m][a].to);
    }
    GraftSimple(m, n1, n2, tree0, y, tree);
    forall u | 0 <= u < |tree|
      ensures |tree[u]| == Degree(nx, m, u)
    {
      if u != m && u != n1 && u != n2 {
        assert tree[u] == tree0[u];
        assert u in nx' <==> u in nx;
      }
    }
  }

  /** The graft adds no loop and no second edge between two nodes: the joined nodes had
      no neighbours, and the new node had neither of them. */
  lemma GraftSimple(m: int, n1: int, n2: int, tree0: AdjacencyList, y: int, tree: AdjacencyList)
    requires 0 <= n1 < m && 0 <= n2 < m && n1 != n2 && m < |tree0|
    requires Simple(tree0) && tree0[n1] == [] && tree0[n2] == []
    requires forall a :: 0 <= a < |tree0[m]| ==> tree0[m][a].to != n1 && tree0[m][a].to != n2
    requires tree == Graft(tree0, m, n1, n2, y)
    ensures Simple(tree)
  {
    forall u, a, b | 0 <= u < |tree| && 0 <= a < b < |tree[u]|
      ensures tree[u][a].to != tree[u][b].to
    {
      if u == m && b >= |tree0[m]| {
        if a < |tree0[m]| {
          assert tree[u][a] == tree0[m][a];
        }
      } else if u != n1 && u != n2 && u != m {
        assert tree[u] == tree0[u];
      }
    }
    forall u, a | 0 <= u < |tree| && 0 <= a < |tree[u]|
      ensures tree[u][a].to != u
    {
      if a < |tree0[u]| {
        assert tree[u][a] == tree0[u][a];
      }
    }
  }

  /** The halves the graft adds, labelled y and y + 1, come in reciprocal pairs. */
  lemma GraftUndirected(m: int, n1: int, n2: int, tree0: AdjacencyList, y: int, tree: AdjacencyList)
    requires 0 <= n1 < m && 0 <= n2 < m && n1 != n2 && m < |tree0| && 0 <= y
    requires Undirected(tree0, y)
    requires tree == Graft(tree0, m, n1, n2, y)
    ensures Undirected(tree, y + 2)
  {
    forall u, a | 0 <= u < |tree| && 0 <= a < |tree[u]|
      ensures 0 <= tree[u][a].to < |tree| && 0 <= tree[u][a].lbl < y + 2
    {
      if a < |tree0[u]| {
        assert tree[u][a] == tree0[u][a];
      }
    }
    forall u, a | 0 <= u < |tree| && 0 <= a < |tree[u]|
      ensures Reciprocated(tree, u, a)
    {
      if a < |tree0[u]| {
        assert tree[u][a] == tree0[u][a];
        assert Reciprocated(tree0, u, a);
        var v := tree0[u][a].to;
        var b :| 0 <= b < |tree0[v]| && tree0[v][b] == Half(u, tree0[u][a].lbl);
        assert tree[v][b] == tree0[v][b];
      } else if u == m {
        assert tree[n1][|tree0[n1]|] == Half(m, y) && tree[n2][|tree0[n2]|] == Half(m, y + 1);
        assert a == |tree0[m]| || a == |tree0[m]| + 1;
      } else if u == n1 {
        assert tree[m][|tree0[m]|] == Half(n1, y);
      } else {
        assert tree[m][|tree0[m]| + 1] == Half(n2, y + 1);
      }
    }
  }

  /** The grafted tree keeps the live nodes connected. */
  lemma GraftConnected(nx: seq<int>, m: int, d1: int, d2: int, tree0: AdjacencyList, wt0: seq<real>,
                       tree: AdjacencyList)
    requires 0 <= d1 < d2 < |nx| && |nx| > 2
    requires 0 <= nx[d1] < m && 0 <= nx[d2] < m && nx[d1] != nx[d2] && m !in nx
    requires Subtree(Relabel(nx, d1, d2, m), m + 1, tree0, wt0)
    requires tree == Graft(tree0, m, nx[d1], nx[d2], |wt0|)
    requires forall u :: u in Relabel(nx, d1, d2, m) <==> u == m || (u in nx && u != nx[d1] && u != nx[d2])
    ensures LiveConnected(nx, m, tree)
  {
    var nx', n1, n2, y := Relabel(nx, d1, d2, m), nx[d1], nx[d2], |wt0|;
    forall c, v | Closed(tree, c) && v in c && Live(nx, m, v)
      ensures forall u :: 0 <= u < |tree| && Live(nx, m, u) ==> u in c
    {
      forall u | u in c
        ensures Explored(tree0, u, c)
      {
        assert Explored(tree, u, c);
        assert forall a :: 0 <= a < |tree0[u]| ==> tree0[u][a] == tree[u][a];
      }
      assert Closed(tree0, c);
      if v == n1 || v == n2 {
        assert Explored(tree, v, c);
        assert tree[v][|tree0[v]|].to == m;
      } else {
        assert Live(nx', m + 1, v);
      }
      assert Live(nx', m + 1, m) && m in c;
      assert Explored(tree, m, c);
      assert tree[m][|tree0[m]|].to == n1 && tree[m][|tree0[m]| + 1].to == n2;
    }
  }

  // ---------------------------------------------------------------- joining

  /** The edges a join of more than two elements adds last: the new node m gets the
      pair d1 < d2 with the first least Q value over the totals of dm, by the last two
      labels, whose weights are the limb lengths of that pair. */
  ghost predicate JoinedPair(dm: Matrix, nx: seq<int>, m: int, tree: AdjacencyList, wt: seq<real>,
                             d1: int, d2: int)
    requires IsSquare(dm) && |nx| == |dm| && |dm| > 2
  {
    FirstLeastQ(dm, Totals(dm), d2, d1) && 2 <= |wt| && 0 <= m < |tree| &&
    Half(nx[d1], |wt| - 2) in tree[m] && Half(nx[d2], |wt| - 1) in tree[m] &&
    (wt[|wt| - 2], wt[|wt| - 1]) == LimbLengths(dm, Totals(dm), d1, d2)
  }

  /** The recursive join of the elements of dm, which name the nodes nx, numbering new
      nodes from m. It panics when fewer than two elements are left, the scan then
      finding no pair, or when a joined element's diagonal entry is not zero; under a
      zero diagonal it never does. Two elements are joined by one edge of their distance;
      more are joined as JoinedPair says, p1 and p2 being the pair picked. */
  method Join(dm: Matrix, td0: seq<real>, nx: seq<int>, m: int)
    returns (tree: AdjacencyList, wt: seq<real>, panicked: bool, ghost p1: int, ghost p2: int)
    requires IsSquare(dm) && |dm| <= |td0| && |nx| == |dm| && Nodes(nx, m)
    ensures |dm| < 2 ==> panicked
    ensures |dm| >= 2 && HasZeroDiagonal(dm) ==> !panicked
    ensures !panicked ==> |dm| >= 2 && Subtree(nx, m, tree, wt)
    ensures !panicked && |dm| == 2 ==>
      wt == [dm[0][1]] && tree[nx[0]] == [Half(nx[1], 0)] && tree[nx[1]] == [Half(nx[0], 0)]
    ensures !panicked && |dm| > 2 ==> JoinedPair(dm, nx, m, tree, wt, p1, p2)
    decreases |dm|
  {
    p1, p2 := 0, 0;
    if |dm| == 2 {
      tree, wt := JoinTwo(dm, nx, m);
      panicked := false;
      return;
    }
    var td := TotalDistance(dm, td0);
    var d1, d2 := Closest(dm, td);
    p1, p2 := d1, d2;
    if d2 == -1 {
      // td[d2] is out of range
      tree, wt, panicked := [], [], true;
      return;
    }
    var (ll1, ll2) := LimbLengths(dm, td, d1, d2);
    var n1, n2 := nx[d1], nx[d2];
    var r;
    r, panicked := Fold(dm, d1, d2);
    if panicked {
      tree, wt := [], [];
      return;
    }
    var s := Delete(r, d2);
    if HasZeroDiagonal(dm) {
      ShrunkDiagonal(dm, d1, d2, r, s);
    }
    var nx' := Relabel(nx, d1, d2, m);
    RelabelNodes(nx, d1, d2, m);
    ghost var e1, e2;
    tree, wt, panicked, e1, e2 := Join(s, td, nx', m + 1);
    if panicked {
      return;
    }
    TotalsDecide(dm, td, d2, d1);
    tree, wt := Attach(nx, m, d1, d2, n1, n2, tree, wt, ll1, ll2);
  }

  /** The last two elements are joined by one edge, of their distance. */
  method JoinTwo(dm: Matrix, nx: seq<int>, m: int) returns (tree: AdjacencyList, wt: seq<real>)
    requires IsSquare(dm) && |dm| == 2 && |nx| == 2 && Nodes(nx, m)
    ensures Subtree(nx, m, tree, wt)
    ensures wt == [dm[0][1]] && tree[nx[0]] == [Half(nx[1], 0)] && tree[nx[1]] == [Half(nx[0], 0)]
  {
    assert 0 <= nx[0] < m;
    wt := [dm[0][1]];
    tree := seq(m, _ => []);
    tree := tree[nx[0] := [Half(nx[1], 0)]];
    tree := tree[nx[1] := [Half(nx[0], 0)]];
    PairSubtree(nx, m, tree, wt);
  }

  /** The limbs of the joined pair, nx[d1] and nx[d2], are attached to the new node m
      with weights ll1 and ll2, appended to the weight list. */
  method Attach(ghost nx: seq<int>, m: int, ghost d1: int, ghost d2: int, n1: int, n2: int,
                tree0: AdjacencyList, wt0: seq<real>, ll1: real, ll2: real)
    returns (tree: AdjacencyList, wt: seq<real>)
    requires Nodes(nx, m) && 0 <= d1 < d2 < |nx| && |nx| > 2 && n1 == nx[d1] && n2 == nx[d2]
    requires Subtree(Relabel(nx, d1, d2, m), m + 1, tree0, wt0)
    ensures Subtree(nx, m, tree, wt)
    ensures tree == Graft(tree0, m, n1, n2, |wt0|) && wt == wt0 + [ll1, ll2]
    ensures Half(n1, |wt| - 2) in tree[m] && Half(n2, |wt| - 1) in tree[m]
  {
    tree, wt := tree0, wt0;
    var wx1 := |wt|;
    var wx2 := wx1 + 1;
    wt := wt + [ll1, ll2];
    tree := tree[m := tree[m] + [Half(n1, wx1), Half(n2, wx2)]];
    tree := tree[n1 := tree[n1] + [Half(m, wx1)]];
    tree := tree[n2 := tree[n2] + [Half(m, wx2)]];
    GraftSubtree(nx, m, d1, d2, tree0, wt0, tree, wt, ll1, ll2);
  }

  /** The unrooted tree joining the n = |d| elements of d: leaves 0 .. n-1 with one
      neighbour each, internal nodes n .. 2n-3 with three each, 2n-3 weights, one per
      edge, the graph undirected, simple and connected. It panics on fewer than two
      elements, and never on a zero diagonal. Two leaves are joined by one edge of their
      distance; for more, node n joins the pair d1 < d2 with the first least Q value, by
      the last two labels, with their limb lengths as weights. The matrix is consumed:
      what the caller's copy holds afterwards is not modelled. */
  method NeighborJoinD(d: Matrix) returns (tree: AdjacencyList, wt: seq<real>, panicked: bool,
                                           ghost d1: int, ghost d2: int)
    requires IsSquare(d)
    ensures |d| < 2 ==> panicked
    ensures |d| >= 2 && HasZeroDiagonal(d) ==> !panicked
    ensures !panicked ==>
      |tree| == 2 * |d| - 2 && |wt| == 2 * |d| - 3 &&
      Undirected(tree, |wt|) && Simple(tree) && Connected(tree) &&
      (forall u :: 0 <= u < |d| ==> |tree[u]| == 1) &&
      (forall u :: |d| <= u < |tree| ==> |tree[u]| == 3)
    ensures !panicked && |d| == 2 ==> wt == [d[0][1]] && tree == [[Half(1, 0)], [Half(0, 0)]]
    ensures !panicked && |d| > 2 ==> JoinedPair(d, Identity(|d|), |d|, tree, wt, d1, d2)
  {
    var td := seq(|d|, _ => 0.0);
    var nx := seq(|d|, _ => 0);
    for i := 0 to |d|
      invariant |nx| == |d| && forall i' :: 0 <= i' < i ==> nx[i'] == i'
    {
      nx := nx[i := i];
    }
    assert nx == Identity(|d|);
    tree, wt, panicked, d1, d2 := Join(d, td, nx, |d|);
    if !panicked {
      LeavesConnected(d, nx, tree, wt);
      if |d| == 2 {
        assert tree[0] == [Half(1, 0)] && tree[1] == [Half(0, 0)];
      }
    }
  }

  /** The node numbers 0 .. n-1 of the leaves. */
  ghost function Identity(n: nat): (nx: seq<int>)
    ensures |nx| == n && forall i :: 0 <= i < n ==> nx[i] == i
  {
    seq(n, i => i)
  }

  /** With every leaf named and no node made yet, the live nodes are all the nodes. */
  lemma LeavesConnected(d: Matrix, nx: seq<int>, tree: AdjacencyList, wt: seq<real>)
    requires |d| >= 2 && |nx| == |d| && (forall i :: 0 <= i < |d| ==> nx[i] == i)
    requires Subtree(nx, |d|, tree, wt)
    ensures Connected(tree)
    ensures forall u :: 0 <= u < |d| ==> |tree[u]| == 1
    ensures forall u :: |d| <= u < |tree| ==> |tree[u]| == 3
  {
    forall u | 0 <= u < |tree|
      ensures Live(nx, |d|, u) && |tree[u]| == if u < |d| then 1 else 3
    {
      if u < |d| {
        assert nx[u] == u;
      }
    }
  }

  /** The same join on a copy of d. */
  method NeighborJoin(d: Matrix) returns (tree: AdjacencyList, wt: seq<real>, panicked: bool,
                                          ghost d1: int, ghost d2: int)
    requires IsSquare(d)
    ensures |d| < 2 ==> panicked
    ensures |d| >= 2 && HasZeroDiagonal(d) ==> !panicked
    ensures !panicked ==>
      |tree| == 2 * |d| - 2 && |wt| == 2 * |d| - 3 &&
      Undirected(tree, |wt|) && Simple(tree) && Connected(tree) &&
      (forall u :: 0 <= u < |d| ==> |tree[u]| == 1) &&
      (forall u :: |d| <= u < |tree| ==> |tree[u]| == 3)
    ensures !panicked && |d| == 2 ==> wt == [d[0][1]] && tree == [[Half(1, 0)], [Half(0, 0)]]
    ensures !panicked && |d| > 2 ==> JoinedPair(d, Identity(|d|), |d|, tree, wt, d1, d2)
  {
    var dc := Clone(d);
    tree, wt, panicked, d1, d2 := NeighborJoinD(dc);
  }
}
