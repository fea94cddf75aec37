/** The matrices of the repository's examples, with what the contracts of the checks and
    tree builders say about them. Each method calls the operation on the example and
    states the expected output as its postcondition. */
module TestCases {

  import opened Graph
  import opened DistanceMatrix
  import AdditivePhylogeny
  import Upgma
  import NeighborJoining

  /** The additive matrix of the examples, also the one whose triangle test passes. */
  function AdditiveExample(): Matrix
  {
    [[0.0, 13.0, 21.0, 22.0],
     [13.0, 0.0, 12.0, 13.0],
     [21.0, 12.0, 0.0, 13.0],
     [22.0, 13.0, 13.0, 0.0]]
  }

  /** A matrix that breaks the triangle inequality at d[1][3] + d[0][3] < d[1][0]. */
  function TriangleBroken(): Matrix
  {
    [[0.0, 4.0, 6.0, 1.0],
     [4.0, 0.0, 3.0, 2.0],
     [6.0, 3.0, 0.0, 5.0],
     [1.0, 2.0, 5.0, 0.0]]
  }

  /** A matrix that is not additive. */
  function NotAdditive(): Matrix
  {
    [[0.0, 3.0, 4.0, 3.0],
     [3.0, 0.0, 4.0, 5.0],
     [4.0, 4.0, 0.0, 2.0],
     [3.0, 5.0, 2.0, 0.0]]
  }

  /** The matrix of the clustering example. */
  function UpgmaExample(): Matrix
  {
    [[0.0, 20.0, 17.0, 11.0],
     [20.0, 0.0, 20.0, 13.0],
     [17.0, 20.0, 0.0, 10.0],
     [11.0, 13.0, 10.0, 0.0]]
  }

  /** The matrix of the neighbor-joining example. */
  function JoinExample(): Matrix
  {
    [[0.0, 23.0, 27.0, 20.0],
     [23.0, 0.0, 30.0, 28.0],
     [27.0, 30.0, 0.0, 30.0],
     [20.0, 28.0, 30.0, 0.0]]
  }

  /** Square: true for a 2 x 2 matrix and for the empty one, false for a ragged one. */
  method SquareExample() returns (ok1: bool, ok2: bool, ok3: bool)
    ensures ok1 && ok2 && !ok3
  {
    var d1: Matrix := [[0.0, 3.0], [3.0, 0.0]];
    assert |d1[0]| == 2 && |d1[1]| == 2;
    ok1 := Square(d1);
    ok2 := Square([]);
    var d3: Matrix := [[0.0], [3.0, 0.0]];
    assert |d3[0]| != |d3|;
    ok3 := Square(d3);
  }

  /** NonNegative: false with a negative entry, true for a ragged matrix without one and
      for the empty matrix. */
  method NonNegativeExample() returns (ok1: bool, ok2: bool, ok3: bool)
    ensures !ok1 && ok2 && ok3
  {
    var d1: Matrix := [[0.0, -1.0], [-1.0, 0.0]];
    assert d1[0][1] < 0.0;
    ok1 := NonNegative(d1);
    var d2: Matrix := [[0.0], [1.0, 2.0]];
    assert IsNonNegative(d2) by {
      forall i, j | 0 <= i < |d2| && 0 <= j < |d2[i]|
        ensures d2[i][j] >= 0.0
      {
        assert i == 0 || (i == 1 && (j == 0 || j == 1));
      }
    }
    ok2 := NonNegative(d2);
    ok3 := NonNegative([]);
  }

  /** ZeroDiagonal: true for zero diagonals (also on a ragged matrix and the empty one),
      false for a diagonal entry of 1e-300 and for a first row [1] followed by an empty
      row, which is never read; a panic when the empty row is reached. */
  method ZeroDiagonalExample() returns (ok1: bool, ok2: bool, ok3: bool, ok4: bool, ok5: bool, p5: bool, p6: bool)
    ensures ok1 && ok2 && ok3 && !ok4 && !ok5 && !p5 && p6
  {
    var p1, p2, p3, p4, ok6;
    ok1, p1 := ZeroDiagonal([[0.0, 3.0], [3.0, 0.0]]);
    ok2, p2 := ZeroDiagonal([[0.0], [7.0, 0.0]]);
    ok3, p3 := ZeroDiagonal([]);
    var d4: Matrix := [[0.0, 3.0], [3.0, 1.0 / 1000000000000000000000000000000000000000000000000000000000000000000000000000000000000000000000000000000000000000000000000000000000000000000000000000000000000000000000000000000000000000000000000000000000000000000000000000000000000000000000000000000000000000000000000000000000000000000000000000000000000.0]];
    assert !DiagonalZeroAt(d4, 1);
    ok4, p4 := ZeroDiagonal(d4);
    var d5: Matrix := [[1.0], []];
    assert !DiagonalZeroAt(d5, 0);
    ok5, p5 := ZeroDiagonal(d5);
    var d6: Matrix := [[0.0], []];
    assert DiagonalZeroAt(d6, 0) && |d6[1]| <= 1;
    ok6, p6 := ZeroDiagonal(d6);
  }

  /** Symmetric: true for a symmetric matrix, false when d[0][1] != d[1][0], also when a
      later row is too short to be read; a panic when d[0][1] is out of range. */
  method SymmetricExample() returns (ok1: bool, ok2: bool, ok3: bool, p3: bool, p4: bool)
    ensures ok1 && !ok2 && !ok3 && !p3 && p4
  {
    var p1, p2, ok4;
    var d1: Matrix := [[0.0, 3.0], [3.0, 0.0]];
    assert MirrorIndexable(d1) && IsSymmetric(d1);
    ok1, p1 := Symmetric(d1);
    var d2: Matrix := [[0.0, 3.0], [7.0, 0.0]];
    assert d2[1][0] != d2[0][1];
    ok2, p2 := Symmetric(d2);
    var d3: Matrix := [[0.0, 1.0], [2.0, 0.0], [0.0]];
    assert d3[1][0] != d3[0][1];
    assert !MirrorRowPasses(d3, 1);
    assert !MirrorRowPanics(d3, 1) && !MirrorRowPanics(d3, 2);
    ok3, p3 := Symmetric(d3);
    var d4: Matrix := [[0.0], [2.0, 0.0]];
    assert MirrorRowPasses(d4, 0) && MirrorRowPanics(d4, 1);
    ok4, p4 := Symmetric(d4);
  }

  /** Every triple of the additive example meets the triangle inequality. */
  lemma AdditiveExampleTriangle()
    ensures SatisfiesTriangle(AdditiveExample())
  {
    var d := AdditiveExample();
    forall i, j, k
      ensures !TriangleViolation(d, i, j, k)
    {
      if 0 <= k < i < 4 && 0 <= j < 4 {
        assert (i == 1 || i == 2 || i == 3) && (j == 0 || j == 1 || j == 2 || j == 3);
      }
    }
  }

  /** The first violation the triangle test meets in TriangleBroken is (1, 3, 0). */
  lemma BrokenFirstViolation(i: int, j: int, k: int)
    requires FirstTriangleViolation(TriangleBroken(), i, j, k)
    ensures i == 1 && j == 3 && k == 0
  {
    var d := TriangleBroken();
    assert TriangleViolation(d, 1, 3, 0);
    forall i', j', k' | TriangleBefore(i', j', k', 1, 3, 0)
      ensures !TriangleViolation(d, i', j', k')
    {
    }
  }

  /** TriangleInequality: true 0 0 0 on the additive example and on the empty matrix,
      false 1 3 0 on TriangleBroken, and false 1 0 0 on the ragged [[-1], [5, 0]], whose
      d[0][1] would be out of range but is never reached. */
  method TriangleInequalityExample() returns (ok1: bool, i1: int, j1: int, k1: int, ok3: bool,
                                               ok4: bool, i: int, j: int, k: int,
                                               ok5: bool, p5: bool, i5: int, j5: int, k5: int)
    ensures ok1 && i1 == 0 && j1 == 0 && k1 == 0 && ok3
    ensures !ok4 && i == 1 && j == 3 && k == 0
    ensures !ok5 && !p5 && i5 == 1 && j5 == 0 && k5 == 0
  {
    AdditiveExampleTriangle();
    var d1 := AdditiveExample();
    assert TriangleIndexable(d1);
    var p1, p3, p4, i3, j3, k3;
    ok1, p1, i1, j1, k1 := TriangleInequality(d1);
    ok3, p3, i3, j3, k3 := TriangleInequality([]);
    var d4 := TriangleBroken();
    assert TriangleIndexable(d4) && TriangleViolation(d4, 1, 3, 0);
    ok4, p4, i, j, k := TriangleInequality(d4);
    BrokenFirstViolation(i, j, k);
    var d5: Matrix := [[-1.0], [5.0, 0.0]];
    assert TriangleStep(d5, 1, 0, 0) && !TriangleStepPasses(d5, 1, 0, 0);
    ok5, p5, i5, j5, k5 := TriangleInequality(d5);
  }

  /** The additive example passes the first four checks. */
  lemma AdditiveExampleWellFormed()
    ensures IsSquare(AdditiveExample()) && IsNonNegative(AdditiveExample())
    ensures IsSymmetric(AdditiveExample()) && HasZeroDiagonal(AdditiveExample())
  {
    var d := AdditiveExample();
    forall i, j | 0 <= i < 4 && 0 <= j < 4
      ensures |d[i]| == 4 && d[i][j] >= 0.0 && d[i][j] == d[j][i] && d[i][i] == 0.0
    {
      assert (i == 0 || i == 1 || i == 2 || i == 3) && (j == 0 || j == 1 || j == 2 || j == 3);
    }
  }

  /** TriangleBroken passes the first four checks. */
  lemma BrokenWellFormed()
    ensures IsSquare(TriangleBroken()) && IsNonNegative(TriangleBroken())
    ensures IsSymmetric(TriangleBroken()) && HasZeroDiagonal(TriangleBroken())
  {
    var d := TriangleBroken();
    forall i, j | 0 <= i < 4 && 0 <= j < 4
      ensures |d[i]| == 4 && d[i][j] >= 0.0 && d[i][j] == d[j][i] && d[i][i] == 0.0
    {
      assert (i == 0 || i == 1 || i == 2 || i == 3) && (j == 0 || j == 1 || j == 2 || j == 3);
    }
  }

  /** Validate: no error for the additive example; for TriangleBroken the triangle
      failure at (1, 3, 0), all earlier checks passing. */
  method ValidateExample() returns (err1: Option<Invalid>, err2: Option<Invalid>)
    ensures err1 == None && err2 == Some(TriangleNotSatisfied(1, 3, 0))
  {
    AdditiveExampleTriangle();
    AdditiveExampleWellFormed();
    BrokenWellFormed();
    err1 := Validate(AdditiveExample());
    var d := TriangleBroken();
    assert TriangleViolation(d, 1, 3, 0);
    err2 := Validate(d);
    BrokenFirstViolation(err2.value.i, err2.value.j, err2.value.k);
  }

  /** No quadruple of the additive example fails the four-point test. */
  lemma AdditiveExamplePasses()
    ensures forall i, j, k, l :: !AdditiveFailure(AdditiveExample(), i, j, k, l)
  {
    var d := AdditiveExample();
    forall i, j, k, l
      ensures !AdditiveFailure(d, i, j, k, l)
    {
      if 0 <= k < j < i < 4 && 0 <= l < 4 {
        assert (i == 2 || i == 3) && (l == 0 || l == 1 || l == 2 || l == 3);
      }
    }
  }

  /** The first quadruple of NotAdditive that fails is (3, 1, 0, 2). */
  lemma NotAdditiveFirstFailure(i: int, j: int, k: int, l: int)
    requires FirstAdditiveFailure(NotAdditive(), i, j, k, l)
    ensures i == 3 && j == 1 && k == 0 && l == 2
  {
    var d := NotAdditive();
    assert AdditiveFailure(d, 3, 1, 0, 2);
    forall i', j', k', l' | QuadBefore(i', j', k', l', 3, 1, 0, 2) && 0 <= k' < j' < i' < 4 && 0 <= l' < 4
      ensures !AdditiveFailure(d, i', j', k', l')
    {
      assert (i' == 2 || i' == 3) && (l' == 0 || l' == 1 || l' == 2 || l' == 3);
    }
  }

  /** Additive: true 0 0 0 0 on the additive example, false 3 1 0 2 on NotAdditive. */
  method AdditiveExampleResult() returns (ok1: bool, i1: int, j1: int, k1: int, l1: int,
                                          ok2: bool, i: int, j: int, k: int, l: int)
    ensures ok1 && i1 == 0 && j1 == 0 && k1 == 0 && l1 == 0
    ensures !ok2 && i == 3 && j == 1 && k == 0 && l == 2
  {
    AdditiveExamplePasses();
    ok1, i1, j1, k1, l1 := Additive(AdditiveExample());
    assert AdditiveFailure(NotAdditive(), 3, 1, 0, 2);
    ok2, i, j, k, l := Additive(NotAdditive());
    NotAdditiveFirstFailure(i, j, k, l);
  }

  /** The tree of the additive example has between four and six nodes, and the last leaf
      hangs on one edge of weight 7. */
  method AdditiveTreeExample() returns (t: AdjacencyList, edgeWts: seq<real>)
    ensures 4 <= |t| <= 6 && |edgeWts| == |t| - 1 && Connected(t)
    ensures |t[3]| == 1 && t[3][0].lbl == |edgeWts| - 1 && edgeWts[|edgeWts| - 1] == 7.0
  {
    var d := AdditiveExample();
    var panicked;
    t, edgeWts, panicked := AdditivePhylogeny.AdditiveTree(d);
    assert AdditivePhylogeny.LimbScore(d, 3, 2, 0) == 14.0;
    assert AdditivePhylogeny.LimbScore(d, 3, 2, 1) == 14.0;
  }

  /** Ultrametric with average linkage on the clustering example: seven nodes, the root
      last over all four leaves, and the first merge (of leaves 2 and 3, distance 10) at
      age 5. */
  method UltrametricExample() returns (pl: seq<Upgma.PathEnd>, ul: seq<Upgma.Ultrametric>)
    ensures |pl| == 7 && |ul| == 7 && pl[6] == Upgma.PathEnd(-1, 4) && ul[4].age == 5.0
  {
    var d := UpgmaExample();
    var panicked;
    pl, ul, panicked := Upgma.UltrametricOf(d, Upgma.Average);
    UpgmaExampleFirstMerge(ul[4].age);
  }

  /** The least distance of the clustering example is 10, between leaves 2 and 3. */
  lemma UpgmaExampleFirstMerge(age: real)
    requires Upgma.FirstMerge(UpgmaExample(), age)
    ensures age == 5.0
  {
    var d := UpgmaExample();
    var a, b :| Upgma.LeastPair(d, a, b) && 2.0 * age == d[b][a];
    assert d[a][b] <= d[2][3];
    assert (a == 0 || a == 1 || a == 2) && (b == 1 || b == 2 || b == 3);
  }

  /** NeighborJoin on the joining example: six nodes and five weights, the leaves with one
      neighbour and nodes 4 and 5 with three; node 4 joins leaves 1 and 2, the pair with
      the least Q value, by limbs of 13.5 and 16.5. */
  method NeighborJoinExample() returns (tree: AdjacencyList, wt: seq<real>)
    ensures |tree| == 6 && |wt| == 5
    ensures forall u :: 0 <= u < 4 ==> |tree[u]| == 1
    ensures |tree[4]| == 3 && |tree[5]| == 3
    ensures Half(1, 3) in tree[4] && Half(2, 4) in tree[4] && wt[3] == 13.5 && wt[4] == 16.5
  {
    var d := JoinExample();
    assert HasZeroDiagonal(d) by {
      forall i | 0 <= i < 4
        ensures d[i][i] == 0.0
      {
        assert i == 0 || i == 1 || i == 2 || i == 3;
      }
    }
    var panicked;
    ghost var d1, d2;
    tree, wt, panicked, d1, d2 := NeighborJoining.NeighborJoin(d);
    JoinExamplePair(d2, d1);
  }

  /** The totals of the joining example are 70, 81, 87 and 78; the least Q value, -108, is
      reached first at the pair (2, 1), whose limbs are 13.5 and 16.5. */
  lemma JoinExamplePair(i: int, j: int)
    requires NeighborJoining.FirstLeastQ(JoinExample(), NeighborJoining.Totals(JoinExample()), i, j)
    ensures i == 2 && j == 1
    ensures NeighborJoining.LimbLengths(JoinExample(), NeighborJoining.Totals(JoinExample()), 1, 2) == (13.5, 16.5)
  {
    var d := JoinExample();
    var td := NeighborJoining.Totals(d);
    SumOfFour(d[0]);
    SumOfFour(d[1]);
    SumOfFour(d[2]);
    SumOfFour(d[3]);
    assert td[0] == 70.0 && td[1] == 81.0 && td[2] == 87.0 && td[3] == 78.0;
    assert NeighborJoining.Pair(d, 2, 1);
    assert NeighborJoining.Q(d, td, 2, 1) == -108.0;
    assert (i == 1 || i == 2 || i == 3) && 0 <= j < i;
  }

  /** The sum of a row of four, from the left. */
  lemma SumOfFour(s: seq<real>)
    requires |s| == 4
    ensures Sum(s) == s[0] + s[1] + s[2] + s[3]
  {
    assert s[..1][..0] == [] && Sum(s[..1]) == s[0];
    assert s[..2][..1] == s[..1] && Sum(s[..2]) == s[0] + s[1];
    assert s[..3][..2] == s[..2] && Sum(s[..3]) == s[0] + s[1] + s[2];
    assert s[..4] == s;
  }
}
