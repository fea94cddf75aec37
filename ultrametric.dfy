/** Agglomerative clustering into a rooted ultrametric tree (UPGMA with average linkage,
    or single linkage). Clusters are merged two at a time, closest pair first; the tree is
    a parent list whose nodes carry a leaf count, an edge weight and an age. */
module Upgma {

  import opened Graph
  import opened DistanceMatrix

  /** The cluster-distance rule: DAVG (average, UPGMA) or DMIN (single linkage). */
  datatype Linkage = Average | Minimum

  /** A parent-list entry: the parent node (-1 for none) and the number of leaves below. */
  datatype PathEnd = PathEnd(from: int, len: int)

  /** The label of a node: the weight of the edge from its parent (absent while it has no
      parent) and its age, the height above the leaves. */
  datatype Ultrametric = Ultrametric(weight: Option<real>, age: real)

  // ---------------------------------------------------------------- closest pair

  /** The live clusters are distinct indices of the square matrix dm. */
  ghost predicate LiveIndices(dm: Matrix, clusters: seq<int>)
  {
    IsSquare(dm) &&
    (forall a :: 0 <= a < |clusters| ==> 0 <= clusters[a] < |dm|) &&
    (forall a, b :: 0 <= a < b < |clusters| ==> clusters[a] != clusters[b])
  }

  /** Positions a and b of the live list hold a pair the scan compares: smaller index first. */
  ghost predicate Candidate(clusters: seq<int>, a: int, b: int)
  {
    0 <= a < |clusters| && 0 <= b < |clusters| && clusters[a] < clusters[b]
  }

  /** The scan visits position pairs row by row. */
  ghost predicate PosBefore(a': int, b': int, a: int, b: int)
  {
    a' < a || (a' == a && b' < b)
  }

  /** The state of the closest-pair scan once every pair before (a, b) in scan order is
      compared: min is the least distance seen (None standing for +Inf), at the first
      pair (ci, cj) that has it. */
  ghost predicate Scanned(dm: Matrix, clusters: seq<int>, a: int, b: int, min: Option<real>,
                          iMin: int, jMin: int, cj: int, ci: int)
    requires IsSquare(dm)
    requires forall a :: 0 <= a < |clusters| ==> 0 <= clusters[a] < |dm|
  {
    (min.None? <==> iMin == -1) &&
    (min.None? ==>
       jMin == -1 && cj == 0 &&
       forall a', b' :: Candidate(clusters, a', b') ==> !PosBefore(a', b', a, b)) &&
    (min.Some? ==>
       Candidate(clusters, ci, cj) && PosBefore(ci, cj, a, b) &&
       iMin == clusters[ci] && jMin == clusters[cj] && min.value == dm[iMin][jMin] &&
       (forall a', b' :: Candidate(clusters, a', b') && PosBefore(a', b', a, b) ==>
          min.value <= dm[clusters[a']][clusters[b']]) &&
       (forall a', b' :: Candidate(clusters, a', b') && PosBefore(a', b', ci, cj) ==>
          min.value < dm[clusters[a']][clusters[b']]))
  }

  /** The inner loop of the scan: compare the pairs of row a, those with clusters[a] the
      smaller index, keeping the first least distance. */
  method ScanRow(dm: Matrix, clusters: seq<int>, a: int, min0: Option<real>,
                 iMin0: int, jMin0: int, cj0: int, ghost ci0: int)
    returns (min: Option<real>, iMin: int, jMin: int, cj: int, ghost ci: int)
    requires IsSquare(dm)
    requires forall a :: 0 <= a < |clusters| ==> 0 <= clusters[a] < |dm|
    requires 0 <= a < |clusters| && Scanned(dm, clusters, a, 0, min0, iMin0, jMin0, cj0, ci0)
    ensures Scanned(dm, clusters, a + 1, 0, min, iMin, jMin, cj, ci)
  {
    min, iMin, jMin, cj, ci := min0, iMin0, jMin0, cj0, ci0;
    var i := clusters[a];
    for b := 0 to |clusters|
      invariant Scanned(dm, clusters, a, b, min, iMin, jMin, cj, ci)
    {
      var j := clusters[b];
      if i < j {
        var d := dm[i][j];
        if min.None? || d < min.value {
          NewLeast(dm, clusters, a, b, min, iMin, jMin, cj, ci);
          min := Some(d);
          iMin, jMin, cj, ci := i, j, b, a;
        } else {
          NotLess(dm, clusters, a, b, min, iMin, jMin, cj, ci);
        }
      } else {
        NotLess(dm, clusters, a, b, min, iMin, jMin, cj, ci);
      }
    }
  }

  /** A pair that is not compared, or whose distance is not below the least so far,
      leaves the scan's result as it is. */
  lemma NotLess(dm: Matrix, clusters: seq<int>, a: int, b: int, min: Option<real>,
                iMin: int, jMin: int, cj: int, ci: int)
    requires IsSquare(dm)
    requires forall a :: 0 <= a < |clusters| ==> 0 <= clusters[a] < |dm|
    requires 0 <= a < |clusters| && 0 <= b < |clusters|
    requires Scanned(dm, clusters, a, b, min, iMin, jMin, cj, ci)
    requires Candidate(clusters, a, b) ==> min.Some? && min.value <= dm[clusters[a]][clusters[b]]
    ensures Scanned(dm, clusters, a, b + 1, min, iMin, jMin, cj, ci)
  {
  }

  /** A pair whose distance is below every one seen so far is the first least of the
      pairs up to it. */
  lemma NewLeast(dm: Matrix, clusters: seq<int>, a: int, b: int, min: Option<real>,
                 iMin: int, jMin: int, cj: int, ci: int)
    requires IsSquare(dm)
    requires forall a :: 0 <= a < |clusters| ==> 0 <= clusters[a] < |dm|
    requires Candidate(clusters, a, b) && Scanned(dm, clusters, a, b, min, iMin, jMin, cj, ci)
    requires min.None? || dm[clusters[a]][clusters[b]] < min.value
    ensures Scanned(dm, clusters, a, b + 1, Some(dm[clusters[a]][clusters[b]]),
                    clusters[a], clusters[b], b, a)
  {
  }

  /** The pair of live clusters iMin < jMin (at positions ci, cj of the list) with the
      least dm[iMin][jMin]; among equal distances the first the scan finds. -1, -1 when the
      list holds no two different indices. */
  method Closest(dm: Matrix, clusters: seq<int>) returns (iMin: int, jMin: int, cj: int, ghost ci: int)
    requires IsSquare(dm)
    requires forall a :: 0 <= a < |clusters| ==> 0 <= clusters[a] < |dm|
    ensures iMin == -1 <==> forall a, b :: !Candidate(clusters, a, b)
    ensures iMin == -1 ==> jMin == -1 && cj == 0
    ensures iMin != -1 ==>
      Candidate(clusters, ci, cj) && iMin == clusters[ci] && jMin == clusters[cj] &&
      (forall a, b :: Candidate(clusters, a, b) ==> dm[iMin][jMin] <= dm[clusters[a]][clusters[b]]) &&
      (forall a, b :: Candidate(clusters, a, b) && PosBefore(a, b, ci, cj) ==>
         dm[iMin][jMin] < dm[clusters[a]][clusters[b]])
  {
    var min: Option<real> := None;
    iMin, jMin, cj, ci := -1, -1, 0, 0;
    for a := 0 to |clusters|
      invariant Scanned(dm, clusters, a, 0, min, iMin, jMin, cj, ci)
    {
      min, iMin, jMin, cj, ci := ScanRow(dm, clusters, a, min, iMin, jMin, cj, ci);
    }
    assert Scanned(dm, clusters, |clusters|, 0, min, iMin, jMin, cj, ci);
  }

  // ---------------------------------------------------------------- linkage updates

  /** The leaf-count-weighted mean of two cluster distances. */
  function Mean(x: real, y: real, m1: int, m2: int): real
    requires m1 + m2 > 0
  {
    (x * m1 as real + y * m2 as real) * (1.0 / (m1 + m2) as real)
  }

  lemma MeanAtLeast(x: real, y: real, m1: int, m2: int, lo: real)
    requires m1 > 0 && m2 > 0 && x >= lo && y >= lo
    ensures Mean(x, y, m1, m2) >= lo
  {
    var r1, r2 := m1 as real, m2 as real;
    assert x * r1 >= lo * r1;
    assert y * r2 >= lo * r2;
    assert x * r1 + y * r2 >= lo * (r1 + r2);
    var inv := 1.0 / (r1 + r2);
    assert inv > 0.0;
    assert (x * r1 + y * r2) * inv >= lo * (r1 + r2) * inv;
  }

  /** Average linkage: for every live j other than d1, row d1 and column d1 of the matrix
      both become the mean of dm[d1][j] and dm[d2][j], weighted by the clusters' leaf
      counts m1 and m2. Nothing else changes. */
  ghost predicate Averaged(dm: Matrix, clusters: seq<int>, d1: int, d2: int, m1: int, m2: int, r: Matrix)
    requires IsSquare(dm) && 0 <= d1 < |dm| && 0 <= d2 < |dm| && m1 > 0 && m2 > 0
  {
    IsSquare(r) && |r| == |dm| &&
    (forall j :: 0 <= j < |r| && j != d1 && j in clusters ==>
       r[d1][j] == r[j][d1] == Mean(dm[d1][j], dm[d2][j], m1, m2)) &&
    (forall j :: 0 <= j < |r| && j !in clusters ==> r[d1][j] == dm[d1][j] && r[j][d1] == dm[j][d1]) &&
    (forall a, b :: 0 <= a < |r| && 0 <= b < |r| && a != d1 && b != d1 ==> r[a][b] == dm[a][b]) &&
    r[d1][d1] == dm[d1][d1]
  }

  method AverageLinkage(dm: Matrix, clusters: seq<int>, d1: int, d2: int, m1: int, m2: int)
    returns (r: Matrix)
    requires LiveIndices(dm, clusters)
    requires 0 <= d1 < |dm| && 0 <= d2 < |dm| && d1 != d2 && m1 > 0 && m2 > 0
    ensures Averaged(dm, clusters, d1, d2, m1, m2, r)
  {
    r := dm;
    for x := 0 to |clusters|
      invariant IsSquare(r) && |r| == |dm|
      invariant forall j :: 0 <= j < |r| && j != d1 ==>
        r[d1][j] == (if j in clusters[..x] then Mean(dm[d1][j], dm[d2][j], m1, m2) else dm[d1][j])
      invariant forall j :: 0 <= j < |r| && j != d1 ==>
        r[j][d1] == (if j in clusters[..x] then Mean(dm[d1][j], dm[d2][j], m1, m2) else dm[j][d1])
      invariant forall a, b :: 0 <= a < |r| && 0 <= b < |r| && a != d1 && b != d1 ==> r[a][b] == dm[a][b]
      invariant r[d1][d1] == dm[d1][d1]
    {
      var j := clusters[x];
      assert clusters[..x + 1] == clusters[..x] + [j];
      assert j !in clusters[..x];
      var dij := r[d1][j];
      if j != d1 {
        var d := Mean(dij, r[d2][j], m1, m2);
        r := r[d1 := r[d1][j := d]];
        r := r[j := r[j][d1 := d]];
      }
    }
    assert clusters[..|clusters|] == clusters;
  }

  /** Single linkage, as the source writes it: for every live j, when dm[d2][j] is the
      smaller, row d1 takes it and column d1 keeps its old entry; otherwise column d1
      takes dm[d1][j] and row d1 keeps it. The row therefore holds the minimum, while the
      column is only refreshed in the second case. Entries off row and column d1 do not
      change; the diagonal entry dm[d1][d1] is left unspecified. */
  ghost predicate MinLinked(dm: Matrix, clusters: seq<int>, d1: int, d2: int, r: Matrix)
    requires IsSquare(dm) && 0 <= d1 < |dm| && 0 <= d2 < |dm|
  {
    IsSquare(r) && |r| == |dm| &&
    (forall j :: 0 <= j < |r| && j != d1 && j in clusters ==>
       r[d1][j] == (if dm[d2][j] < dm[d1][j] then dm[d2][j] else dm[d1][j]) &&
       r[j][d1] == (if dm[d2][j] < dm[d1][j] then dm[j][d1] else dm[d1][j])) &&
    (forall j :: 0 <= j < |r| && j != d1 && j !in clusters ==> r[d1][j] == dm[d1][j] && r[j][d1] == dm[j][d1]) &&
    (forall a, b :: 0 <= a < |r| && 0 <= b < |r| && a != d1 && b != d1 ==> r[a][b] == dm[a][b])
  }

  method MinimumLinkage(dm: Matrix, clusters: seq<int>, d1: int, d2: int) returns (r: Matrix)
    requires LiveIndices(dm, clusters)
    requires 0 <= d1 < |dm| && 0 <= d2 < |dm| && d1 != d2
    ensures MinLinked(dm, clusters, d1, d2, r)
  {
    r := dm;
    for x := 0 to |clusters|
      invariant IsSquare(r) && |r| == |dm|
      invariant forall j :: 0 <= j < |r| && j != d1 ==>
        r[d1][j] == (if j in clusters[..x] && dm[d2][j] < dm[d1][j] then dm[d2][j] else dm[d1][j])
      invariant forall j :: 0 <= j < |r| && j != d1 ==>
        r[j][d1] == (if j in clusters[..x] && !(dm[d2][j] < dm[d1][j]) then dm[d1][j] else dm[j][d1])
      invariant forall a, b :: 0 <= a < |r| && 0 <= b < |r| && a != d1 && b != d1 ==> r[a][b] == dm[a][b]
    {
      var j := clusters[x];
      assert clusters[..x + 1] == clusters[..x] + [j];
      assert j !in clusters[..x];
      var dj1 := r[d1][j];
      var dj2 := r[d2][j];
      if dj2 < dj1 {
        r := r[d1 := r[d1][j := dj2]];
      } else {
        r := r[j := r[j][d1 := dj1]];
      }
    }
    assert clusters[..|clusters|] == clusters;
  }

  // ---------------------------------------------------------------- the merge loop

  /** Node p has exactly two children, c1 and c2, and holds as many leaves as both together. */
  ghost predicate Children(pl: seq<PathEnd>, p: int, c1: int, c2: int)
  {
    0 <= c1 < p && 0 <= c2 < p && c1 != c2 && p < |pl| &&
    pl[c1].from == p && pl[c2].from == p && pl[p].len == pl[c1].len + pl[c2].len &&
    forall c :: 0 <= c < |pl| && pl[c].from == p ==> c == c1 || c == c2
  }

  /** The first merge joins the pair a < b with the least d[a][b] and its age is half of
      d[b][a], the entry the source reads. */
  ghost predicate FirstMerge(d: Matrix, age: real)
    requires IsSquare(d)
  {
    exists a, b :: LeastPair(d, a, b) && 2.0 * age == d[b][a]
  }

  /** a < b is a pair of leaves with the least d[a][b]. */
  ghost predicate LeastPair(d: Matrix, a: int, b: int)
    requires IsSquare(d)
  {
    0 <= a < b < |d| && forall a', b' :: 0 <= a' < b' < |d| ==> d[a][b] <= d[a'][b']
  }

  /** p is a merge node with two children. */
  ghost predicate HasChildren(pl: seq<PathEnd>, p: int)
  {
    exists c1, c2 :: Children(pl, p, c1, c2)
  }

  ghost predicate AgesSorted(ul: seq<Ultrametric>)
  {
    forall a, b :: 0 <= a < b < |ul| ==> ul[a].age <= ul[b].age
  }

  /** Appending an age no less than the last keeps the ages sorted. */
  lemma AppendSorted(ul0: seq<Ultrametric>, ul: seq<Ultrametric>)
    requires AgesSorted(ul0) && |ul0| > 0 && |ul| == |ul0| + 1
    requires forall c :: 0 <= c < |ul0| ==> ul[c].age == ul0[c].age
    requires ul0[|ul0| - 1].age <= ul[|ul0|].age
    ensures AgesSorted(ul)
  {
  }

  /** In a rooted tree whose ages never decrease along the list, no weight is negative:
      every parent comes after its child. */
  lemma SortedWeights(n: int, pl: seq<PathEnd>, ul: seq<Ultrametric>)
    requires Rooted(n, pl, ul) && AgesSorted(ul)
    ensures forall c :: 0 <= c < |pl| - 1 ==> ul[c].weight.Some? && ul[c].weight.value >= 0.0
  {
    forall c | 0 <= c < |pl| - 1
      ensures ul[c].weight.Some? && ul[c].weight.value >= 0.0
    {
      assert c < pl[c].from < |ul|;
    }
  }

  /** Between live clusters the matrix is symmetric and no distance is below 2 * age. */
  ghost predicate LiveBound(dm: Matrix, clusters: seq<int>, age: real)
    requires LiveIndices(dm, clusters)
  {
    forall a, b :: 0 <= a < |clusters| && 0 <= b < |clusters| && a != b ==>
      dm[clusters[a]][clusters[b]] == dm[clusters[b]][clusters[a]] && 2.0 * age <= dm[clusters[a]][clusters[b]]
  }

  function SumOf(s: seq<int>): int
  {
    if s == [] then 0 else SumOf(s[..|s| - 1]) + s[|s| - 1]
  }

  lemma {:induction false} SumOfUpdate(s: seq<int>, k: int, v: int)
    requires 0 <= k < |s|
    ensures SumOf(s[k := v]) == SumOf(s) - s[k] + v
  {
    var last := |s| - 1;
    if k == last {
      assert s[k := v][..last] == s[..last];
    } else {
      SumOfUpdate(s[..last], k, v);
      assert s[k := v][..last] == s[..last][k := v];
    }
  }

  /** Swap-removal (move the last entry into position k, then drop the last) removes s[k]
      from the sum. */
  lemma {:induction false} SumOfSwapRemove(s: seq<int>, k: int)
    requires 0 <= k < |s|
    ensures SumOf(s[k := s[|s| - 1]][..|s| - 1]) == SumOf(s) - s[k]
  {
    SumOfUpdate(s, k, s[|s| - 1]);
  }

  lemma {:induction false} SumOfOnes(s: seq<int>)
    requires forall a :: 0 <= a < |s| ==> s[a] == 1
    ensures SumOf(s) == |s|
  {
    if s != [] {
      SumOfOnes(s[..|s| - 1]);
    }
  }

  /** The leaf counts of the live clusters' nodes, in list order. */
  function LiveLens(pl: seq<PathEnd>, cx: seq<int>, clusters: seq<int>): (r: seq<int>)
    requires forall a :: 0 <= a < |clusters| ==> 0 <= clusters[a] < |cx| && 0 <= cx[clusters[a]] < |pl|
    ensures |r| == |clusters|
    ensures forall a :: 0 <= a < |clusters| ==> r[a] == pl[cx[clusters[a]]].len
  {
    seq(|clusters|, a requires 0 <= a < |clusters| => pl[cx[clusters[a]]].len)
  }

  /** Average linkage keeps the live distances symmetric and raises their lower bound to
      the age of the node just made: every mean is of two live distances, none below the
      least one, which the merged pair has. */
  lemma AverageKeepsBound(dm: Matrix, r: Matrix, clusters: seq<int>, ci: int, cj: int,
                          m1: int, m2: int, lo: real)
    requires LiveIndices(dm, clusters) && LiveBound(dm, clusters, lo) && |clusters| > 2
    requires Candidate(clusters, ci, cj) && m1 > 0 && m2 > 0
    requires forall a, b :: Candidate(clusters, a, b) ==>
      dm[clusters[ci]][clusters[cj]] <= dm[clusters[a]][clusters[b]]
    requires Averaged(dm, clusters, clusters[ci], clusters[cj], m1, m2, r)
    ensures LiveIndices(r, SwapRemove(clusters, cj))
    ensures LiveBound(r, SwapRemove(clusters, cj), dm[clusters[cj]][clusters[ci]] / 2.0)
  {
    var least := dm[clusters[ci]][clusters[cj]];
    ClosestIsLeast(dm, clusters, ci, cj, lo);
    AveragedRest(dm, r, clusters, ci, cj, m1, m2, least);
  }

  /** The closest pair's distance is a lower bound of every live distance, in either
      order. */
  lemma ClosestIsLeast(dm: Matrix, clusters: seq<int>, ci: int, cj: int, lo: real)
    requires LiveIndices(dm, clusters) && LiveBound(dm, clusters, lo) && Candidate(clusters, ci, cj)
    requires forall a, b :: Candidate(clusters, a, b) ==>
      dm[clusters[ci]][clusters[cj]] <= dm[clusters[a]][clusters[b]]
    ensures dm[clusters[ci]][clusters[cj]] == dm[clusters[cj]][clusters[ci]]
    ensures forall a, b :: 0 <= a < |clusters| && 0 <= b < |clusters| && a != b ==>
      dm[clusters[ci]][clusters[cj]] <= dm[clusters[a]][clusters[b]]
  {
    forall a, b | 0 <= a < |clusters| && 0 <= b < |clusters| && a != b
      ensures dm[clusters[ci]][clusters[cj]] <= dm[clusters[a]][clusters[b]]
    {
      if clusters[a] < clusters[b] {
        assert Candidate(clusters, a, b);
      } else {
        assert Candidate(clusters, b, a);
      }
    }
  }

  /** After the average-linkage update the live list without position cj has symmetric
      distances no smaller than a bound all the old live distances meet. */
  lemma AveragedRest(dm: Matrix, r: Matrix, clusters: seq<int>, ci: int, cj: int, m1: int, m2: int, least: real)
    requires LiveIndices(dm, clusters) && Candidate(clusters, ci, cj) && m1 > 0 && m2 > 0
    requires forall a, b :: 0 <= a < |clusters| && 0 <= b < |clusters| && a != b ==>
      dm[clusters[a]][clusters[b]] == dm[clusters[b]][clusters[a]] && least <= dm[clusters[a]][clusters[b]]
    requires Averaged(dm, clusters, clusters[ci], clusters[cj], m1, m2, r)
    ensures LiveIndices(r, SwapRemove(clusters, cj))
    ensures LiveBound(r, SwapRemove(clusters, cj), least / 2.0)
  {
    var d1, d2 := clusters[ci], clusters[cj];
    var last := |clusters| - 1;
    var rest := SwapRemove(clusters, cj);
    forall a, b | 0 <= a < |rest| && 0 <= b < |rest| && a != b
      ensures r[rest[a]][rest[b]] == r[rest[b]][rest[a]] && least <= r[rest[a]][rest[b]]
    {
      var a0, b0 := if a == cj then last else a, if b == cj then last else b;
      var x, y := clusters[a0], clusters[b0];
      assert x == rest[a] && y == rest[b] && a0 != b0 && a0 != cj && b0 != cj;
      assert x != y && x != d2 && y != d2;
      assert least <= dm[x][y] && least <= dm[d2][y] && least <= dm[d2][x];
      AveragedEntry(dm, r, clusters, d1, d2, m1, m2, least, x, y);
    }
  }

  /** One live entry off d2 after the average-linkage update: symmetric, and no smaller
      than a bound the old entries of d1 and d2 it is averaged from both meet. */
  lemma AveragedEntry(dm: Matrix, r: Matrix, clusters: seq<int>, d1: int, d2: int, m1: int, m2: int,
                      least: real, x: int, y: int)
    requires IsSquare(dm) && 0 <= d1 < |dm| && 0 <= d2 < |dm| && m1 > 0 && m2 > 0
    requires Averaged(dm, clusters, d1, d2, m1, m2, r)
    requires x in clusters && y in clusters && 0 <= x < |dm| && 0 <= y < |dm| && x != y && x != d2 && y != d2
    requires least <= dm[x][y] && dm[x][y] == dm[y][x] && least <= dm[d2][y] && least <= dm[d2][x]
    ensures r[x][y] == r[y][x] && least <= r[x][y]
  {
    if x == d1 {
      MeanAtLeast(dm[d1][y], dm[d2][y], m1, m2, least);
    } else if y == d1 {
      MeanAtLeast(dm[d1][x], dm[d2][x], m1, m2, least);
    }
  }

  /** Drop position k of a list by moving its last entry there. */
  function SwapRemove(s: seq<int>, k: int): (r: seq<int>)
    requires 0 <= k < |s|
    ensures |r| == |s| - 1
    ensures forall a :: 0 <= a < |r| ==> r[a] == s[if a == k then |s| - 1 else a]
  {
    s[k := s[|s| - 1]][..|s| - 1]
  }

  /** The nodes made so far: leaves 0 .. n-1 with one leaf and age 0, then merge nodes,
      each the parent of its two recorded children. A node with a parent comes before it
      and weighs the difference of their ages; a node without one has no weight. */
  ghost predicate Nodes(n: int, pl: seq<PathEnd>, ul: seq<Ultrametric>, kids: seq<(int, int)>)
  {
    0 <= n <= |pl| && |ul| == |pl| && |kids| == |pl| &&
    (forall c :: 0 <= c < |pl| ==>
       pl[c].len >= 1 && (pl[c].from == -1 || (c < pl[c].from < |pl| && n <= pl[c].from))) &&
    (forall c {:trigger pl[c]} :: 0 <= c < |pl| && pl[c].from == -1 ==> ul[c].weight == None) &&
    (forall c {:trigger pl[c]} :: 0 <= c < |pl| && pl[c].from != -1 ==>
       ul[c].weight == Some(ul[pl[c].from].age - ul[c].age)) &&
    (forall c :: 0 <= c < n ==> pl[c].len == 1) &&
    (forall c :: 0 <= c < n ==> ul[c].age == 0.0) &&
    (forall p :: n <= p < |pl| ==> Children(pl, p, kids[p].0, kids[p].1))
  }

  /** Node c has no parent. */
  ghost predicate Root(pl: seq<PathEnd>, c: int)
  {
    0 <= c < |pl| && pl[c].from == -1
  }

  /** The live clusters: distinct matrix indices, mapped by cx to distinct nodes that are
      exactly the nodes without a parent, and together holding all n leaves. */
  ghost predicate Live(n: int, pl: seq<PathEnd>, cx: seq<int>, clusters: seq<int>)
  {
    2 <= |clusters| && |cx| == n && |pl| == 2 * n - |clusters| &&
    (forall a :: 0 <= a < |clusters| ==> 0 <= clusters[a] < n) &&
    (forall a, b :: 0 <= a < b < |clusters| ==> clusters[a] != clusters[b]) &&
    (forall a :: 0 <= a < |clusters| ==> 0 <= cx[clusters[a]] < |pl| && pl[cx[clusters[a]]].from == -1) &&
    (forall a, b :: 0 <= a < b < |clusters| ==> cx[clusters[a]] != cx[clusters[b]]) &&
    (forall c :: Root(pl, c) ==> exists a :: 0 <= a < |clusters| && cx[clusters[a]] == c) &&
    SumOf(LiveLens(pl, cx, clusters)) == n
  }

  /** pl, ul, kids are pl0, ul0, kids0 after nodes c1 and c2 are joined under a new node of
      the given age, appended at the end. */
  ghost predicate Joined(pl0: seq<PathEnd>, ul0: seq<Ultrametric>, kids0: seq<(int, int)>,
                         pl: seq<PathEnd>, ul: seq<Ultrametric>, kids: seq<(int, int)>,
                         c1: int, c2: int, age: real)
  {
    0 <= c1 < |pl0| && 0 <= c2 < |pl0| && |ul0| == |pl0| &&
    |pl| == |pl0| + 1 && pl[|pl0|] == PathEnd(-1, pl0[c1].len + pl0[c2].len) &&
    (forall c :: 0 <= c < |pl0| ==>
       pl[c] == if c == c1 || c == c2 then pl0[c].(from := |pl0|) else pl0[c]) &&
    |ul| == |ul0| + 1 && ul[|ul0|] == Ultrametric(None, age) &&
    (forall c :: 0 <= c < |ul0| ==>
       ul[c] == if c == c1 || c == c2 then ul0[c].(weight := Some(age - ul0[c].age)) else ul0[c]) &&
    kids == kids0 + [(c1, c2)]
  }

  /** Joining two distinct parentless nodes keeps the node structure. */
  lemma JoinKeepsNodes(n: int, pl0: seq<PathEnd>, ul0: seq<Ultrametric>, kids0: seq<(int, int)>,
                       pl: seq<PathEnd>, ul: seq<Ultrametric>, kids: seq<(int, int)>,
                       c1: int, c2: int, age: real)
    requires Nodes(n, pl0, ul0, kids0) && Joined(pl0, ul0, kids0, pl, ul, kids, c1, c2, age)
    requires c1 != c2 && pl0[c1].from == -1 && pl0[c2].from == -1
    ensures Nodes(n, pl, ul, kids)
  {
    JoinKeepsLinks(n, pl0, ul0, kids0, pl, ul, kids, c1, c2, age);
    JoinKeepsChildren(n, pl0, ul0, kids0, pl, ul, kids, c1, c2, age);
  }

  lemma JoinKeepsLinks(n: int, pl0: seq<PathEnd>, ul0: seq<Ultrametric>, kids0: seq<(int, int)>,
                       pl: seq<PathEnd>, ul: seq<Ultrametric>, kids: seq<(int, int)>,
                       c1: int, c2: int, age: real)
    requires Nodes(n, pl0, ul0, kids0) && Joined(pl0, ul0, kids0, pl, ul, kids, c1, c2, age)
    requires c1 != c2 && pl0[c1].from == -1 && pl0[c2].from == -1
    ensures forall c :: 0 <= c < |pl| ==>
      pl[c].len >= 1 && (pl[c].from == -1 || (c < pl[c].from < |pl| && n <= pl[c].from))
    ensures forall c {:trigger pl[c]} :: 0 <= c < |pl| && pl[c].from == -1 ==> ul[c].weight == None
    ensures forall c {:trigger pl[c]} :: 0 <= c < |pl| && pl[c].from != -1 ==>
      ul[c].weight == Some(ul[pl[c].from].age - ul[c].age)
  {
    var parent := |pl0|;
    forall c | 0 <= c < |pl| && pl[c].from != -1
      ensures ul[c].weight == Some(ul[pl[c].from].age - ul[c].age)
    {
      if c != c1 && c != c2 {
        var f := pl0[c].from;
        assert pl[c].from == f && ul[f].age == ul0[f].age;
      }
    }
  }

  lemma JoinKeepsChildren(n: int, pl0: seq<PathEnd>, ul0: seq<Ultrametric>, kids0: seq<(int, int)>,
                          pl: seq<PathEnd>, ul: seq<Ultrametric>, kids: seq<(int, int)>,
                          c1: int, c2: int, age: real)
    requires Nodes(n, pl0, ul0, kids0) && Joined(pl0, ul0, kids0, pl, ul, kids, c1, c2, age)
    requires c1 != c2 && pl0[c1].from == -1 && pl0[c2].from == -1
    ensures |kids| == |pl|
    ensures forall p :: n <= p < |pl| ==> Children(pl, p, kids[p].0, kids[p].1)
  {
    var parent := |pl0|;
    assert |kids0| == parent && |kids| == |pl|;
    forall p | n <= p < |pl|
      ensures Children(pl, p, kids[p].0, kids[p].1)
    {
      if p < parent {
        var k1, k2 := kids0[p].0, kids0[p].1;
        assert Children(pl0, p, k1, k2);
        assert kids[p] == kids0[p];
        forall c | 0 <= c < |pl| && pl[c].from == p
          ensures c == k1 || c == k2
        {
          assert c < parent && pl0[c].from == p;
        }
      } else {
        forall c | 0 <= c < |pl| && pl[c].from == p
          ensures c == c1 || c == c2
        {
        }
      }
    }
  }

  /** Joining the nodes of live positions ci and cj and replacing cluster clusters[ci] by
      the new node, then dropping position cj, keeps the node structure and the live list
      exact. */
  lemma JoinKeepsLive(n: int, pl0: seq<PathEnd>, ul0: seq<Ultrametric>, kids0: seq<(int, int)>,
      cx: seq<int>, clusters: seq<int>, pl: seq<PathEnd>, ul: seq<Ultrametric>, kids: seq<(int, int)>,
      ci: int, cj: int, age: real)
    requires Nodes(n, pl0, ul0, kids0) && Live(n, pl0, cx, clusters) && |clusters| > 2
    requires 0 <= ci < |clusters| && 0 <= cj < |clusters| && ci != cj
    requires Joined(pl0, ul0, kids0, pl, ul, kids, cx[clusters[ci]], cx[clusters[cj]], age)
    ensures Nodes(n, pl, ul, kids)
    ensures Live(n, pl, cx[clusters[ci] := |pl0|], SwapRemove(clusters, cj))
  {
    JoinKeepsNodes(n, pl0, ul0, kids0, pl, ul, kids, cx[clusters[ci]], cx[clusters[cj]], age);
    JoinLiveList(n, pl0, ul0, kids0, cx, clusters, pl, ul, kids, ci, cj, age);
    JoinLiveRoots(n, pl0, ul0, kids0, cx, clusters, pl, ul, kids, ci, cj, age);
    JoinLiveSum(n, pl0, ul0, kids0, cx, clusters, pl, ul, kids, ci, cj, age);
  }

  /** After the join, position a of the shortened list names the new node when it holds
      clusters[ci], and otherwise the same parentless node as before, neither child. */
  lemma JoinLiveMap(n: int, pl0: seq<PathEnd>, ul0: seq<Ultrametric>, kids0: seq<(int, int)>,
      cx: seq<int>, clusters: seq<int>, pl: seq<PathEnd>, ul: seq<Ultrametric>, kids: seq<(int, int)>,
      ci: int, cj: int, age: real)
    requires Nodes(n, pl0, ul0, kids0) && Live(n, pl0, cx, clusters) && |clusters| > 2
    requires 0 <= ci < |clusters| && 0 <= cj < |clusters| && ci != cj
    requires Joined(pl0, ul0, kids0, pl, ul, kids, cx[clusters[ci]], cx[clusters[cj]], age)
    ensures var last := |clusters| - 1;
      var moved := if ci == last then cj else ci;
      var cx', cl' := cx[clusters[ci] := |pl0|], SwapRemove(clusters, cj);
      forall a :: 0 <= a < |cl'| ==>
        cx'[cl'[a]] == (if a == moved then |pl0| else cx[cl'[a]]) &&
        (a == moved || (cx[cl'[a]] != cx[clusters[ci]] && cx[cl'[a]] != cx[clusters[cj]] &&
                        0 <= cx[cl'[a]] < |pl0| && pl[cx[cl'[a]]] == pl0[cx[cl'[a]]]))
  {
    var last := |clusters| - 1;
    var cl' := SwapRemove(clusters, cj);
    forall a | 0 <= a < |cl'|
      ensures cl'[a] == clusters[if a == cj then last else a]
    {
    }
  }

  lemma JoinLiveList(n: int, pl0: seq<PathEnd>, ul0: seq<Ultrametric>, kids0: seq<(int, int)>,
      cx: seq<int>, clusters: seq<int>, pl: seq<PathEnd>, ul: seq<Ultrametric>, kids: seq<(int, int)>,
      ci: int, cj: int, age: real)
    requires Nodes(n, pl0, ul0, kids0) && Live(n, pl0, cx, clusters) && |clusters| > 2
    requires 0 <= ci < |clusters| && 0 <= cj < |clusters| && ci != cj
    requires Joined(pl0, ul0, kids0, pl, ul, kids, cx[clusters[ci]], cx[clusters[cj]], age)
    ensures var cx', cl' := cx[clusters[ci] := |pl0|], SwapRemove(clusters, cj);
      2 <= |cl'| && |cx'| == n && |pl| == 2 * n - |cl'| &&
      (forall a :: 0 <= a < |cl'| ==> 0 <= cl'[a] < n) &&
      (forall a, b :: 0 <= a < b < |cl'| ==> cl'[a] != cl'[b]) &&
      (forall a :: 0 <= a < |cl'| ==> 0 <= cx'[cl'[a]] < |pl| && pl[cx'[cl'[a]]].from == -1) &&
      (forall a, b :: 0 <= a < b < |cl'| ==> cx'[cl'[a]] != cx'[cl'[b]])
  {
    JoinLiveMap(n, pl0, ul0, kids0, cx, clusters, pl, ul, kids, ci, cj, age);
    var last := |clusters| - 1;
    var cl' := SwapRemove(clusters, cj);
    forall a, b | 0 <= a < b < |cl'|
      ensures cl'[a] != cl'[b]
    {
      var a0, b0 := if a == cj then last else a, if b == cj then last else b;
      assert cl'[a] == clusters[a0] && cl'[b] == clusters[b0];
    }
  }

  lemma JoinLiveRoots(n: int, pl0: seq<PathEnd>, ul0: seq<Ultrametric>, kids0: seq<(int, int)>,
      cx: seq<int>, clusters: seq<int>, pl: seq<PathEnd>, ul: seq<Ultrametric>, kids: seq<(int, int)>,
      ci: int, cj: int, age: real)
    requires Nodes(n, pl0, ul0, kids0) && Live(n, pl0, cx, clusters) && |clusters| > 2
    requires 0 <= ci < |clusters| && 0 <= cj < |clusters| && ci != cj
    requires Joined(pl0, ul0, kids0, pl, ul, kids, cx[clusters[ci]], cx[clusters[cj]], age)
    ensures var cx', cl' := cx[clusters[ci] := |pl0|], SwapRemove(clusters, cj);
      forall c :: Root(pl, c) ==> exists a :: 0 <= a < |cl'| && cx'[cl'[a]] == c
  {
    JoinLiveMap(n, pl0, ul0, kids0, cx, clusters, pl, ul, kids, ci, cj, age);
    var last, parent := |clusters| - 1, |pl0|;
    var moved := if ci == last then cj else ci;
    var cx', cl' := cx[clusters[ci] := parent], SwapRemove(clusters, cj);
    forall c | Root(pl, c)
      ensures exists a :: 0 <= a < |cl'| && cx'[cl'[a]] == c
    {
      if c == parent {
        assert cx'[cl'[moved]] == c;
      } else {
        assert Root(pl0, c);
        var a0 :| 0 <= a0 < |clusters| && cx[clusters[a0]] == c;
        var a := if a0 == last then cj else a0;
        assert cl'[a] == clusters[a0];
        assert cx'[cl'[a]] == c;
      }
    }
  }

  lemma JoinLiveSum(n: int, pl0: seq<PathEnd>, ul0: seq<Ultrametric>, kids0: seq<(int, int)>,
      cx: seq<int>, clusters: seq<int>, pl: seq<PathEnd>, ul: seq<Ultrametric>, kids: seq<(int, int)>,
      ci: int, cj: int, age: real)
    requires Nodes(n, pl0, ul0, kids0) && Live(n, pl0, cx, clusters) && |clusters| > 2
    requires 0 <= ci < |clusters| && 0 <= cj < |clusters| && ci != cj
    requires Joined(pl0, ul0, kids0, pl, ul, kids, cx[clusters[ci]], cx[clusters[cj]], age)
    ensures var cx', cl' := cx[clusters[ci] := |pl0|], SwapRemove(clusters, cj);
      SumOf(LiveLens(pl, cx', cl')) == n
  {
    JoinLiveMap(n, pl0, ul0, kids0, cx, clusters, pl, ul, kids, ci, cj, age);
    var last, parent := |clusters| - 1, |pl0|;
    var cx', cl' := cx[clusters[ci] := parent], SwapRemove(clusters, cj);
    var lens0 := LiveLens(pl0, cx, clusters);
    var t := lens0[ci := pl[parent].len];
    SumOfUpdate(lens0, ci, pl[parent].len);
    SumOfSwapRemove(t, cj);
    assert LiveLens(pl, cx', cl') == t[cj := t[last]][..last];
  }

  /** The last join, of the two remaining live nodes, leaves a single root over all n
      leaves, and every other node has a parent. */
  lemma LastJoin(n: int, pl0: seq<PathEnd>, ul0: seq<Ultrametric>, kids0: seq<(int, int)>,
                 cx: seq<int>, clusters: seq<int>,
                 pl: seq<PathEnd>, ul: seq<Ultrametric>, kids: seq<(int, int)>,
                 ci: int, cj: int, age: real)
    requires Nodes(n, pl0, ul0, kids0) && Live(n, pl0, cx, clusters) && |clusters| == 2
    requires 0 <= ci < 2 && 0 <= cj < 2 && ci != cj
    requires Joined(pl0, ul0, kids0, pl, ul, kids, cx[clusters[ci]], cx[clusters[cj]], age)
    ensures Rooted(n, pl, ul)
  {
    JoinKeepsNodes(n, pl0, ul0, kids0, pl, ul, kids, cx[clusters[ci]], cx[clusters[cj]], age);
    LastLens(n, pl0, cx, clusters);
    LastRoots(n, pl0, ul0, kids0, cx, clusters, pl, ul, kids, ci, cj, age);
    RootedTree(n, pl, ul, kids);
  }

  /** The two last live clusters together hold all n leaves. */
  lemma LastLens(n: int, pl0: seq<PathEnd>, cx: seq<int>, clusters: seq<int>)
    requires Live(n, pl0, cx, clusters) && |clusters| == 2
    ensures pl0[cx[clusters[0]]].len + pl0[cx[clusters[1]]].len == n
  {
    var lens := LiveLens(pl0, cx, clusters);
    assert SumOf(lens) == SumOf(lens[..1]) + lens[1] == SumOf(lens[..1][..0]) + lens[0] + lens[1];
  }

  /** After the last join only the new node lacks a parent. */
  lemma LastRoots(n: int, pl0: seq<PathEnd>, ul0: seq<Ultrametric>, kids0: seq<(int, int)>,
                  cx: seq<int>, clusters: seq<int>,
                  pl: seq<PathEnd>, ul: seq<Ultrametric>, kids: seq<(int, int)>,
                  ci: int, cj: int, age: real)
    requires Live(n, pl0, cx, clusters) && |clusters| == 2
    requires 0 <= ci < 2 && 0 <= cj < 2 && ci != cj
    requires Joined(pl0, ul0, kids0, pl, ul, kids, cx[clusters[ci]], cx[clusters[cj]], age)
    ensures forall c :: 0 <= c < |pl| - 1 ==> pl[c].from != -1
  {
    forall c | 0 <= c < |pl| - 1
      ensures pl[c].from != -1
    {
      if Root(pl0, c) {
        var a :| 0 <= a < |clusters| && cx[clusters[a]] == c;
      }
    }
  }

  /** The finished parent list over n leaves: 2n - 1 nodes, the last the root over all n
      leaves, without parent or weight; every other node has a later merge node as
      parent and weighs the difference of their ages; leaves have one leaf and age 0;
      every merge node has two children. */
  ghost predicate Rooted(n: int, pl: seq<PathEnd>, ul: seq<Ultrametric>)
  {
    |pl| == 2 * n - 1 && |ul| == |pl| && 0 <= n &&
    pl[|pl| - 1] == PathEnd(-1, n) && ul[|ul| - 1].weight == None &&
    (forall c {:trigger pl[c]} :: 0 <= c < |pl| - 1 ==>
       n <= pl[c].from < |pl| && c < pl[c].from &&
       ul[c].weight == Some(ul[pl[c].from].age - ul[c].age)) &&
    (forall c :: 0 <= c < n ==> pl[c].len == 1) &&
    (forall c :: 0 <= c < n ==> ul[c].age == 0.0) &&
    (forall p :: n <= p < |pl| ==> HasChildren(pl, p))
  }

  /** A node structure whose only parentless node is the last, over n leaves, is one
      rooted tree. */
  lemma RootedTree(n: int, pl: seq<PathEnd>, ul: seq<Ultrametric>, kids: seq<(int, int)>)
    requires Nodes(n, pl, ul, kids) && |pl| == 2 * n - 1 && n >= 1
    requires pl[|pl| - 1] == PathEnd(-1, n)
    requires forall c :: 0 <= c < |pl| - 1 ==> pl[c].from != -1
    ensures Rooted(n, pl, ul)
  {
    forall p | n <= p < |pl|
      ensures HasChildren(pl, p)
    {
      assert Children(pl, p, kids[p].0, kids[p].1);
    }
  }

  /** Join nodes c1 and c2 under a new node of the given age, appended to the lists. */
  method JoinNodes(pl0: seq<PathEnd>, ul0: seq<Ultrametric>, ghost kids0: seq<(int, int)>,
                   c1: int, c2: int, age: real)
    returns (pl: seq<PathEnd>, ul: seq<Ultrametric>)
    requires 0 <= c1 < |pl0| && 0 <= c2 < |pl0| && c1 != c2 && |ul0| == |pl0|
    ensures Joined(pl0, ul0, kids0, pl, ul, kids0 + [(c1, c2)], c1, c2, age)
    ensures |ul| == |ul0| + 1 && ul[|ul0|].age == age
    ensures forall c :: 0 <= c < |ul0| ==> ul[c].age == ul0[c].age
  {
    var parent := |pl0|;
    pl := pl0 + [PathEnd(-1, pl0[c1].len + pl0[c2].len)];
    ul := ul0 + [Ultrametric(None, age)];
    pl := pl[c1 := pl[c1].(from := parent)];
    pl := pl[c2 := pl[c2].(from := parent)];
    ul := ul[c1 := ul[c1].(weight := Some(age - ul[c1].age))];
    ul := ul[c2 := ul[c2].(weight := Some(age - ul[c2].age))];
  }

  /** n copies of x. */
  function Repeat<T>(x: T, n: nat): (r: seq<T>)
    ensures |r| == n && forall i :: 0 <= i < n ==> r[i] == x
  {
    if n == 0 then [] else Repeat(x, n - 1) + [x]
  }

  /** ids is the list 0, 1, .., n-1. */
  ghost predicate Counting(ids: seq<int>, n: int)
  {
    |ids| == n && forall i :: 0 <= i < n ==> ids[i] == i
  }

  /** The list 0, 1, .., n-1. */
  function Identity(n: nat): (r: seq<int>)
    ensures |r| == n && forall i :: 0 <= i < n ==> r[i] == i
  {
    if n == 0 then [] else Identity(n - 1) + [n - 1]
  }

  /** Before any merge every leaf is live, and on a symmetric, nonnegative matrix no
      distance is below 0. */
  lemma InitialBound(d: Matrix, ids: seq<int>)
    requires IsSquare(d) && IsSymmetric(d) && IsNonNegative(d) && Counting(ids, |d|)
    ensures LiveIndices(d, ids) && LiveBound(d, ids, 0.0)
  {
    forall a, b | 0 <= a < |ids| && 0 <= b < |ids| && a != b
      ensures d[ids[a]][ids[b]] == d[ids[b]][ids[a]] && 0.0 <= d[ids[a]][ids[b]]
    {
      assert ids[a] == a && ids[b] == b;
    }
  }

  /** With every leaf live, a closest live pair is a least pair of leaves. */
  lemma FirstMergeOfIdentity(d: Matrix, ids: seq<int>, a: int, b: int)
    requires IsSquare(d) && Counting(ids, |d|) && LiveIndices(d, ids) && ClosestPair(d, ids, a, b)
    ensures LeastPair(d, a, b)
  {
    assert ids[a] == a && ids[b] == b && 0 <= a < b < |d|;
    forall a', b' | 0 <= a' < b' < |d|
      ensures d[a][b] <= d[a'][b']
    {
      assert ids[a'] == a' && ids[b'] == b';
      assert Candidate(ids, a', b');
    }
  }

  /** The state of the merge loop between passes: the working matrix, the nodes made so
      far and the live clusters. */
  ghost predicate Forest(n: int, dm: Matrix, pl: seq<PathEnd>, ul: seq<Ultrametric>, cx: seq<int>,
                         clusters: seq<int>, kids: seq<(int, int)>)
  {
    IsSquare(dm) && |dm| == n && Nodes(n, pl, ul, kids) && Live(n, pl, cx, clusters)
  }

  /** Positions ci, cj hold a closest pair of live clusters: clusters[ci] < clusters[cj]
      with the least dm[clusters[ci]][clusters[cj]]. */
  ghost predicate ClosestPair(dm: Matrix, clusters: seq<int>, ci: int, cj: int)
    requires LiveIndices(dm, clusters)
  {
    Candidate(clusters, ci, cj) &&
    forall a, b :: Candidate(clusters, a, b) ==>
      dm[clusters[ci]][clusters[cj]] <= dm[clusters[a]][clusters[b]]
  }

  /** The linkage step of a merge of the live clusters d1 < d2, at positions ci and cj,
      under the given rule. The matrix stays square; under average linkage, when the live distances were
      symmetric and at least 2 * lo, after dropping position cj they are symmetric and at
      least the merged pair's distance. */
  method Relink(cdf: Linkage, dm: Matrix, clusters: seq<int>, d1: int, d2: int, m1: int, m2: int,
                ghost ci: int, ghost cj: int, ghost lo: real)
    returns (r: Matrix)
    requires LiveIndices(dm, clusters) && |clusters| > 2
    requires Candidate(clusters, ci, cj) && d1 == clusters[ci] && d2 == clusters[cj] && m1 > 0 && m2 > 0
    requires forall a, b :: Candidate(clusters, a, b) ==>
      dm[clusters[ci]][clusters[cj]] <= dm[clusters[a]][clusters[b]]
    ensures cdf == Average ==> Averaged(dm, clusters, d1, d2, m1, m2, r)
    ensures cdf == Minimum ==> MinLinked(dm, clusters, d1, d2, r)
    ensures cdf == Average && LiveBound(dm, clusters, lo) ==>
      LiveIndices(r, SwapRemove(clusters, cj)) &&
      LiveBound(r, SwapRemove(clusters, cj), dm[clusters[cj]][clusters[ci]] / 2.0)
  {
    match cdf {
      case Average =>
        r := AverageLinkage(dm, clusters, d1, d2, m1, m2);
        if LiveBound(dm, clusters, lo) {
          AverageKeepsBound(dm, r, clusters, ci, cj, m1, m2, lo);
        }
      case Minimum =>
        r := MinimumLinkage(dm, clusters, d1, d2);
    }
  }

  /** What a pass that is not the last does to the live data after the join: the node
      of the first cluster d1 becomes the new node, number |pl0|; the linkage recomputes
      the distances of d1 from those of d1 and d2, with the clusters' leaf counts as
      weights under average linkage; and d2 leaves the live list, its place taken by the
      last entry. */
  ghost predicate Relinked(cdf: Linkage, dm0: Matrix, pl0: seq<PathEnd>, cx0: seq<int>,
                           clusters0: seq<int>, ci: int, cj: int,
                           dm: Matrix, cx: seq<int>, clusters: seq<int>)
    requires LiveIndices(dm0, clusters0) && 0 <= ci < |clusters0| && 0 <= cj < |clusters0|
    requires |cx0| == |dm0| && forall a :: 0 <= a < |clusters0| ==> 0 <= cx0[clusters0[a]] < |pl0|
  {
    var d1, d2 := clusters0[ci], clusters0[cj];
    cx == cx0[d1 := |pl0|] && clusters == SwapRemove(clusters0, cj) &&
    (cdf == Average ==>
       pl0[cx0[d1]].len > 0 && pl0[cx0[d2]].len > 0 &&
       Averaged(dm0, clusters0, d1, d2, pl0[cx0[d1]].len, pl0[cx0[d2]].len, dm)) &&
    (cdf == Minimum ==> MinLinked(dm0, clusters0, d1, d2, dm))
  }

  /** One pass of the merge loop: join the closest pair of live clusters under a new node;
      unless they were the last two, the first of them stands for the new cluster, its
      distances are recomputed by the linkage, and the second leaves the live list. */
  method Merge(ghost n: int, cdf: Linkage, dm0: Matrix, pl0: seq<PathEnd>, ul0: seq<Ultrametric>,
               cx0: seq<int>, clusters0: seq<int>, ghost kids0: seq<(int, int)>)
    returns (done: bool, dm: Matrix, pl: seq<PathEnd>, ul: seq<Ultrametric>, cx: seq<int>,
             clusters: seq<int>, ghost kids: seq<(int, int)>, ghost ci: int, ghost cj: int)
    requires Forest(n, dm0, pl0, ul0, cx0, clusters0, kids0)
    ensures done <==> |clusters0| == 2
    ensures done ==> Rooted(n, pl, ul)
    ensures !done ==> |clusters| == |clusters0| - 1 && Forest(n, dm, pl, ul, cx, clusters, kids)
    ensures done ==> dm == dm0 && cx == cx0 && clusters == clusters0
    ensures |ul| == |ul0| + 1 && forall c :: 0 <= c < |ul0| ==> ul[c].age == ul0[c].age
    ensures LiveIndices(dm0, clusters0) && ClosestPair(dm0, clusters0, ci, cj)
    ensures Joined(pl0, ul0, kids0, pl, ul, kids, cx0[clusters0[ci]], cx0[clusters0[cj]],
                   dm0[clusters0[cj]][clusters0[ci]] / 2.0)
    ensures !done ==> Relinked(cdf, dm0, pl0, cx0, clusters0, ci, cj, dm, cx, clusters)
    ensures 2.0 * ul[|ul0|].age == dm0[clusters0[cj]][clusters0[ci]]
    ensures cdf == Average && LiveBound(dm0, clusters0, ul0[|ul0| - 1].age) ==>
      ul0[|ul0| - 1].age <= ul[|ul0|].age &&
      (!done ==> LiveIndices(dm, clusters) && LiveBound(dm, clusters, ul[|ul0|].age))
  {
    dm, pl, ul, cx, clusters, kids := dm0, pl0, ul0, cx0, clusters0, kids0;
    var d1, d2, cl2;
    d1, d2, cl2, ci, pl, ul, kids := JoinClosest(n, dm, pl, ul, cx, clusters, kids);
    cj := cl2;
    var age := dm[d2][d1] / 2.0;
    if |clusters| == 2 {
      LastJoin(n, pl0, ul0, kids0, cx, clusters, pl, ul, kids, ci, cl2, age);
      done := true;
      return;
    }
    done := false;
    dm, cx, clusters := Rejoin(n, cdf, dm0, pl0, ul0, cx0, clusters0, kids0, pl, ul, kids, d1, d2, ci, cl2);
  }

  /** The second half of a pass that is not the last: the first cluster stands for the
      new node, its distances are recomputed by the linkage and the second cluster leaves
      the live list; the forest is kept. */
  method Rejoin(ghost n: int, cdf: Linkage, dm0: Matrix, pl0: seq<PathEnd>, ul0: seq<Ultrametric>,
                cx0: seq<int>, clusters0: seq<int>, ghost kids0: seq<(int, int)>,
                ghost pl: seq<PathEnd>, ghost ul: seq<Ultrametric>, ghost kids: seq<(int, int)>,
                d1: int, d2: int, ghost ci: int, cj: int)
    returns (dm: Matrix, cx: seq<int>, clusters: seq<int>)
    requires Forest(n, dm0, pl0, ul0, cx0, clusters0, kids0) && |clusters0| > 2
    requires LiveIndices(dm0, clusters0) && ClosestPair(dm0, clusters0, ci, cj)
    requires d1 == clusters0[ci] && d2 == clusters0[cj]
    requires Joined(pl0, ul0, kids0, pl, ul, kids, cx0[d1], cx0[d2], dm0[d2][d1] / 2.0)
    ensures |clusters| == |clusters0| - 1 && Forest(n, dm, pl, ul, cx, clusters, kids)
    ensures Relinked(cdf, dm0, pl0, cx0, clusters0, ci, cj, dm, cx, clusters)
    ensures cdf == Average && LiveBound(dm0, clusters0, ul0[|ul0| - 1].age) ==>
      LiveIndices(dm, clusters) && LiveBound(dm, clusters, dm0[d2][d1] / 2.0)
  {
    dm, cx, clusters := Reassign(cdf, dm0, pl0, cx0, clusters0, d1, d2, ci, cj, ul0[|ul0| - 1].age);
    RejoinKeeps(n, dm0, pl0, ul0, cx0, clusters0, kids0, pl, ul, kids, ci, cj, dm0[d2][d1] / 2.0, dm);
  }

  /** The live data after a pass that is not the last: cx gives d1 the new node, the
      matrix is relinked by cdf, and cj leaves the live list. */
  method Reassign(cdf: Linkage, dm0: Matrix, pl0: seq<PathEnd>, cx0: seq<int>, clusters0: seq<int>,
                d1: int, d2: int, ghost ci: int, cj: int, ghost lo: real)
    returns (dm: Matrix, cx: seq<int>, clusters: seq<int>)
    requires LiveIndices(dm0, clusters0) && |clusters0| > 2 && ClosestPair(dm0, clusters0, ci, cj)
    requires d1 == clusters0[ci] && d2 == clusters0[cj]
    requires |cx0| == |dm0| && forall a :: 0 <= a < |clusters0| ==> 0 <= cx0[clusters0[a]] < |pl0|
    requires pl0[cx0[d1]].len > 0 && pl0[cx0[d2]].len > 0
    ensures IsSquare(dm) && |dm| == |dm0|
    ensures Relinked(cdf, dm0, pl0, cx0, clusters0, ci, cj, dm, cx, clusters)
    ensures cdf == Average && LiveBound(dm0, clusters0, lo) ==>
      LiveIndices(dm, clusters) && LiveBound(dm, clusters, dm0[d2][d1] / 2.0)
  {
    var m1, m2 := pl0[cx0[d1]].len, pl0[cx0[d2]].len;
    cx := cx0[d1 := |pl0|];
    dm := Relink(cdf, dm0, clusters0, d1, d2, m1, m2, ci, cj, lo);
    clusters := SwapRemove(clusters0, cj);
    RelinkedBy(cdf, dm0, pl0, cx0, clusters0, ci, cj, m1, m2, dm);
  }

  /** A pass that is not the last keeps the forest, whatever square matrix the linkage
      produces. */
  lemma RejoinKeeps(n: int, dm0: Matrix, pl0: seq<PathEnd>, ul0: seq<Ultrametric>, cx0: seq<int>,
                    clusters0: seq<int>, kids0: seq<(int, int)>,
                    pl: seq<PathEnd>, ul: seq<Ultrametric>, kids: seq<(int, int)>,
                    ci: int, cj: int, age: real, dm: Matrix)
    requires Forest(n, dm0, pl0, ul0, cx0, clusters0, kids0) && |clusters0| > 2
    requires 0 <= ci < |clusters0| && 0 <= cj < |clusters0| && ci != cj
    requires Joined(pl0, ul0, kids0, pl, ul, kids, cx0[clusters0[ci]], cx0[clusters0[cj]], age)
    requires IsSquare(dm) && |dm| == |dm0|
    ensures Forest(n, dm, pl, ul, cx0[clusters0[ci] := |pl0|], SwapRemove(clusters0, cj), kids)
  {
    JoinKeepsLive(n, pl0, ul0, kids0, cx0, clusters0, pl, ul, kids, ci, cj, age);
  }

  /** The linkage update of Relink, with the leaf counts of the two clusters as weights,
      is the Relinked step. */
  lemma RelinkedBy(cdf: Linkage, dm0: Matrix, pl0: seq<PathEnd>, cx0: seq<int>, clusters0: seq<int>,
                   ci: int, cj: int, m1: int, m2: int, dm: Matrix)
    requires LiveIndices(dm0, clusters0) && 0 <= ci < |clusters0| && 0 <= cj < |clusters0|
    requires |cx0| == |dm0| && forall a :: 0 <= a < |clusters0| ==> 0 <= cx0[clusters0[a]] < |pl0|
    requires m1 == pl0[cx0[clusters0[ci]]].len && m2 == pl0[cx0[clusters0[cj]]].len && m1 > 0 && m2 > 0
    requires cdf == Average ==> Averaged(dm0, clusters0, clusters0[ci], clusters0[cj], m1, m2, dm)
    requires cdf == Minimum ==> MinLinked(dm0, clusters0, clusters0[ci], clusters0[cj], dm)
    ensures Relinked(cdf, dm0, pl0, cx0, clusters0, ci, cj, dm, cx0[clusters0[ci] := |pl0|], SwapRemove(clusters0, cj))
  {
  }

  /** The first half of a merge pass: find the closest pair d1 < d2 of live clusters, at
      positions ci and cj of the live list, and join their nodes under a new node of age
      half their distance. */
  method JoinClosest(ghost n: int, dm: Matrix, pl0: seq<PathEnd>, ul0: seq<Ultrametric>,
                     cx: seq<int>, clusters: seq<int>, ghost kids0: seq<(int, int)>)
    returns (d1: int, d2: int, cj: int, ghost ci: int,
             pl: seq<PathEnd>, ul: seq<Ultrametric>, ghost kids: seq<(int, int)>)
    requires Forest(n, dm, pl0, ul0, cx, clusters, kids0)
    ensures LiveIndices(dm, clusters)
    ensures ClosestPair(dm, clusters, ci, cj) && d1 == clusters[ci] && d2 == clusters[cj]
    ensures Joined(pl0, ul0, kids0, pl, ul, kids, cx[d1], cx[d2], dm[d2][d1] / 2.0)
    ensures |ul| == |ul0| + 1 && ul[|ul0|].age == dm[d2][d1] / 2.0
    ensures forall c :: 0 <= c < |ul0| ==> ul[c].age == ul0[c].age
  {
    assert LiveIndices(dm, clusters);
    assert Candidate(clusters, 0, 1) || Candidate(clusters, 1, 0);
    d1, d2, cj, ci := Closest(dm, clusters);
    var c1, c2 := cx[d1], cx[d2];
    var age := dm[d2][d1] / 2.0;
    pl, ul := JoinNodes(pl0, ul0, kids0, c1, c2, age);
    kids := kids0 + [(c1, c2)];
  }

  /** The lists before any merge: the n leaves, each a root of length 1 and age 0,
      each its own live cluster. */
  method Leaves(n: int) returns (pl: seq<PathEnd>, ul: seq<Ultrametric>, cx: seq<int>,
                                 clusters: seq<int>, ghost kids: seq<(int, int)>)
    requires n >= 2
    ensures Nodes(n, pl, ul, kids) && Live(n, pl, cx, clusters)
    ensures |pl| == n && Counting(clusters, n)
    ensures forall c :: 0 <= c < n ==> ul[c].age == 0.0
  {
    pl := Repeat(PathEnd(-1, 1), n);
    ul := Repeat(Ultrametric(None, 0.0), n);
    clusters := Identity(n);
    cx := Identity(n);
    kids := Repeat((0, 0), n);
    LeavesNodes(n);
    LeavesLive(n, pl, clusters);
  }

  lemma LeavesNodes(n: int)
    requires n >= 2
    ensures Nodes(n, Repeat(PathEnd(-1, 1), n), Repeat(Ultrametric(None, 0.0), n), Repeat((0, 0), n))
  {
  }

  lemma LeavesLive(n: int, pl: seq<PathEnd>, ids: seq<int>)
    requires n >= 2 && |pl| == n && |ids| == n
    requires forall c :: 0 <= c < n ==> pl[c] == PathEnd(-1, 1)
    requires forall c :: 0 <= c < n ==> ids[c] == c
    ensures Live(n, pl, ids, ids)
  {
    forall c | Root(pl, c)
      ensures exists a :: 0 <= a < |ids| && ids[ids[a]] == c
    {
      assert ids[c] == c && ids[ids[c]] == c;
    }
    SumOfOnes(LiveLens(pl, ids, ids));
  }

  /** The shape of the lists between passes: a forest over the live clusters before the
      last pass, one rooted tree after it. */
  ghost predicate Shape(n: int, done: bool, dm: Matrix, pl: seq<PathEnd>, ul: seq<Ultrametric>,
                        cx: seq<int>, clusters: seq<int>, kids: seq<(int, int)>)
  {
    (!done ==> Forest(n, dm, pl, ul, cx, clusters, kids)) && (done ==> Rooted(n, pl, ul))
  }

  /** What the passes over d have recorded: before the first nothing is merged; after it
      the first merge age is half the distance of the least pair fa < fb; under monotone
      linkage the ages are sorted and bound the remaining live distances from below. */
  ghost predicate Record(n: int, d: Matrix, mono: bool, done: bool, dm: Matrix,
                         ul: seq<Ultrametric>, clusters: seq<int>, fa: int, fb: int)
  {
    n >= 2 && IsSquare(d) && |d| == n && |ul| >= n &&
    (|ul| == n ==> !done && dm == d && Counting(clusters, n)) &&
    (|ul| > n ==> LeastPair(d, fa, fb) && 2.0 * ul[n].age == d[fb][fa]) &&
    (mono ==> AgesSorted(ul)) &&
    (mono && !done ==> LiveIndices(dm, clusters) && LiveBound(dm, clusters, ul[|ul| - 1].age))
  }

  /** A merge pass, as Merge states it, keeps the record of the clustering. */
  lemma MergeRecords(n: int, d: Matrix, cdf: Linkage, mono: bool,
                     dm0: Matrix, ul0: seq<Ultrametric>, clusters0: seq<int>,
                     done: bool, dm: Matrix, ul: seq<Ultrametric>, clusters: seq<int>,
                     ci: int, cj: int, fa0: int, fb0: int, fa: int, fb: int)
    requires mono ==> cdf == Average
    requires Record(n, d, mono, false, dm0, ul0, clusters0, fa0, fb0)
    requires |ul| == |ul0| + 1 && forall c :: 0 <= c < |ul0| ==> ul[c].age == ul0[c].age
    requires LiveIndices(dm0, clusters0) && ClosestPair(dm0, clusters0, ci, cj)
    requires 2.0 * ul[|ul0|].age == dm0[clusters0[cj]][clusters0[ci]]
    requires (fa, fb) == if |ul0| == n then (clusters0[ci], clusters0[cj]) else (fa0, fb0)
    requires cdf == Average && LiveBound(dm0, clusters0, ul0[|ul0| - 1].age) ==>
      ul0[|ul0| - 1].age <= ul[|ul0|].age &&
      (!done ==> LiveIndices(dm, clusters) && LiveBound(dm, clusters, ul[|ul0|].age))
    ensures Record(n, d, mono, done, dm, ul, clusters, fa, fb)
  {
    if |ul0| == n {
      FirstMergeOfIdentity(d, clusters0, ci, cj);
    }
    if mono {
      AppendSorted(ul0, ul);
    }
  }

  /** The parent list and labels of the clustering of the n = |d| leaves 0 .. n-1: n - 1
      merge nodes n .. 2n-2 are appended, each the parent of exactly two earlier nodes
      and holding their leaves together; the last is the root, without parent, over all n
      leaves. Every other node's weight is its parent's age less its own. The first merge
      is of the closest pair. Under average linkage on a symmetric, nonnegative matrix the
      ages never decrease along the list, so no weight is negative. */
  method UltrametricD(d: Matrix, cdf: Linkage) returns (pl: seq<PathEnd>, ul: seq<Ultrametric>, panicked: bool)
    requires IsSquare(d)
    ensures panicked <==> |d| < 2
    ensures !panicked ==> |pl| == 2 * |d| - 1 && |ul| == |pl|
    ensures !panicked ==> pl[|pl| - 1] == PathEnd(-1, |d|) && ul[|ul| - 1].weight == None
    ensures !panicked ==> forall c {:trigger pl[c]} :: 0 <= c < |pl| - 1 ==>
      |d| <= pl[c].from < |pl| && c < pl[c].from &&
      ul[c].weight == Some(ul[pl[c].from].age - ul[c].age)
    ensures !panicked ==> forall c :: 0 <= c < |d| ==> pl[c].len == 1
    ensures !panicked ==> forall c :: 0 <= c < |d| ==> ul[c].age == 0.0
    ensures !panicked ==> forall p :: |d| <= p < |pl| ==> HasChildren(pl, p)
    ensures !panicked ==> FirstMerge(d, ul[|d|].age)
    ensures !panicked && cdf == Average && IsSymmetric(d) && IsNonNegative(d) ==>
      AgesSorted(ul) && forall c :: 0 <= c < |pl| - 1 ==> ul[c].weight.Some? && ul[c].weight.value >= 0.0
  {
    if |d| < 2 {
      // the scan finds no pair, and cx[-1] is out of range
      pl, ul, panicked := [], [], true;
      return;
    }
    panicked := false;
    pl, ul := Agglomerate(d, cdf);
  }

  /** The clustering of at least two leaves: the leaves, the merge loop and the facts
      about its result. */
  method Agglomerate(d: Matrix, cdf: Linkage) returns (pl: seq<PathEnd>, ul: seq<Ultrametric>)
    requires IsSquare(d) && |d| >= 2
    ensures |pl| == 2 * |d| - 1 && |ul| == |pl|
    ensures pl[|pl| - 1] == PathEnd(-1, |d|) && ul[|ul| - 1].weight == None
    ensures forall c {:trigger pl[c]} :: 0 <= c < |pl| - 1 ==>
      |d| <= pl[c].from < |pl| && c < pl[c].from &&
      ul[c].weight == Some(ul[pl[c].from].age - ul[c].age)
    ensures forall c :: 0 <= c < |d| ==> pl[c].len == 1
    ensures forall c :: 0 <= c < |d| ==> ul[c].age == 0.0
    ensures forall p :: |d| <= p < |pl| ==> HasChildren(pl, p)
    ensures FirstMerge(d, ul[|d|].age)
    ensures cdf == Average && IsSymmetric(d) && IsNonNegative(d) ==>
      AgesSorted(ul) && forall c :: 0 <= c < |pl| - 1 ==> ul[c].weight.Some? && ul[c].weight.value >= 0.0
  {
    var n := |d|;
    var dm := d;
    var cx, clusters;
    ghost var kids;
    pl, ul, cx, clusters, kids := Leaves(n);
    ghost var mono := cdf == Average && IsSymmetric(d) && IsNonNegative(d);
    if mono {
      InitialBound(d, clusters);
    }
    ghost var fa, fb;
    pl, ul, fa, fb := MergeAll(n, d, cdf, mono, dm, pl, ul, cx, clusters, kids);
    if mono {
      SortedWeights(n, pl, ul);
    }
    assert Rooted(n, pl, ul);
    assert LeastPair(d, fa, fb);
  }

  /** The merge loop: passes until the last two clusters are joined. */
  method MergeAll(ghost n: int, ghost d: Matrix, cdf: Linkage, ghost mono: bool, dm0: Matrix,
                  pl0: seq<PathEnd>, ul0: seq<Ultrametric>, cx0: seq<int>, clusters0: seq<int>,
                  ghost kids0: seq<(int, int)>)
    returns (pl: seq<PathEnd>, ul: seq<Ultrametric>, ghost fa: int, ghost fb: int)
    requires mono ==> cdf == Average
    requires Shape(n, false, dm0, pl0, ul0, cx0, clusters0, kids0)
    requires Record(n, d, mono, false, dm0, ul0, clusters0, 0, 0)
    ensures Rooted(n, pl, ul)
    ensures |ul| > n && LeastPair(d, fa, fb) && 2.0 * ul[n].age == d[fb][fa]
    ensures mono ==> AgesSorted(ul)
  {
    var dm, cx, clusters := dm0, cx0, clusters0;
    ghost var kids := kids0;
    pl, ul := pl0, ul0;
    var done := false;
    fa, fb := 0, 0;
    while !done
      invariant Shape(n, done, dm, pl, ul, cx, clusters, kids)
      invariant Record(n, d, mono, done, dm, ul, clusters, fa, fb)
      decreases if done then 0 else 1, |clusters|
    {
      ghost var dmp, ulp, clustersp, fap, fbp := dm, ul, clusters, fa, fb;
      ghost var ci, cj;
      done, dm, pl, ul, cx, clusters, kids, ci, cj := Merge(n, cdf, dm, pl, ul, cx, clusters, kids);
      if |ulp| == n {
        fa, fb := clustersp[ci], clustersp[cj];
      }
      MergeRecords(n, d, cdf, mono, dmp, ulp, clustersp, done, dm, ul, clusters, ci, cj, fap, fbp, fa, fb);
    }
  }

  /** Ultrametric: the same clustering on a copy of d. (The source's name is taken here by
      the label type.) */
  method UltrametricOf(d: Matrix, cdf: Linkage) returns (pl: seq<PathEnd>, ul: seq<Ultrametric>, panicked: bool)
    requires IsSquare(d)
    ensures panicked <==> |d| < 2
    ensures !panicked ==> |pl| == 2 * |d| - 1 && |ul| == |pl|
    ensures !panicked ==> pl[|pl| - 1] == PathEnd(-1, |d|) && ul[|ul| - 1].weight == None
    ensures !panicked ==> forall c {:trigger pl[c]} :: 0 <= c < |pl| - 1 ==>
      |d| <= pl[c].from < |pl| && c < pl[c].from &&
      ul[c].weight == Some(ul[pl[c].from].age - ul[c].age)
    ensures !panicked ==> forall c :: 0 <= c < |d| ==> pl[c].len == 1
    ensures !panicked ==> forall c :: 0 <= c < |d| ==> ul[c].age == 0.0
    ensures !panicked ==> forall p :: |d| <= p < |pl| ==> HasChildren(pl, p)
    ensures !panicked ==> FirstMerge(d, ul[|d|].age)
    ensures !panicked && cdf == Average && IsSymmetric(d) && IsNonNegative(d) ==>
      AgesSorted(ul) && forall c :: 0 <= c < |pl| - 1 ==> ul[c].weight.Some? && ul[c].weight.value >= 0.0
  {
    var dc := Clone(d);
    pl, ul, panicked := UltrametricD(dc, cdf);
  }
}
