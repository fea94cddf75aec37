/** Additive phylogeny: an unrooted tree grown leaf by leaf from a distance matrix. Leaf n
    is attached, at the weight of its limb, to the point of the tree found by walking
    from leaf n-1 towards a leaf i; when that point falls inside an edge, the edge is
    split in place by a new internal node. */
module AdditivePhylogeny {

  import opened Graph
  import opened DistanceMatrix

  // ---------------------------------------------------------------- limb weight

  /** Twice the limb weight of leaf j if its limb joins the path between leaves i and k,
      with the entries the source reads: d[j][i] + d[j][k] - d[k][i]. */
  function LimbScore(d: Matrix, j: int, k: int, i: int): real
    requires IsSquare(d) && 0 <= i < |d| && 0 <= j < |d| && 0 <= k < |d|
  {
    d[j][i] + d[j][k] - d[k][i]
  }

  /** The limb of leaf j within the submatrix of leaves 0 .. j, with k = j - 1: the i < k
      with the least score, where i = k - 1 is tried first and keeps a tie, and otherwise
      the smallest index with the least score wins; wt is half that score. */
  method LimbWeightSubMatrix(d: Matrix, j: int) returns (wt: real, i: int, k: int)
    requires IsSquare(d) && 2 <= j < |d|
    ensures k == j - 1 && 0 <= i < k
    ensures 2.0 * wt == LimbScore(d, j, k, i)
    ensures forall i' :: 0 <= i' < k ==> LimbScore(d, j, k, i) <= LimbScore(d, j, k, i')
    ensures i < k - 1 ==>
      LimbScore(d, j, k, i) < LimbScore(d, j, k, k - 1) &&
      forall i' :: 0 <= i' < i ==> LimbScore(d, j, k, i) < LimbScore(d, j, k, i')
  {
    k := j - 1;
    var dj, dk := d[j], d[k];
    var djk := dj[k];
    var iMin2 := k - 1;
    var wtMin2 := dj[iMin2] + djk - dk[iMin2];
    for a := 0 to k - 1
      invariant 0 <= iMin2 < k && wtMin2 == LimbScore(d, j, k, iMin2)
      invariant forall i' :: 0 <= i' < a || i' == k - 1 ==> wtMin2 <= LimbScore(d, j, k, i')
      invariant iMin2 < k - 1 ==>
        iMin2 < a && wtMin2 < LimbScore(d, j, k, k - 1) &&
        forall i' :: 0 <= i' < iMin2 ==> wtMin2 < LimbScore(d, j, k, i')
    {
      var w := dj[a] + djk - dk[a];
      if w < wtMin2 {
        wtMin2 := w;
        iMin2 := a;
      }
    }
    return wtMin2 / 2.0, iMin2, k;
  }

  // ---------------------------------------------------------------- the growing tree

  /** While leaves 0 .. attached-1 are in the tree, its nodes are those leaves and the
      internal nodes nLeaves .. size-1. */
  predicate InTree(nLeaves: int, attached: int, size: int, u: int)
  {
    0 <= u < attached || nLeaves <= u < size
  }

  /** The adjacency list of a tree over the first attached of nLeaves leaves: the leaves
      not yet attached have no half-edges, every half-edge is shaped as HalfShaped says,
      and there is one weight per edge, as many as tree nodes less one. */
  ghost predicate Shaped(nLeaves: int, attached: int, t: AdjacencyList, nWts: int)
  {
    2 <= attached <= nLeaves <= |t| &&
    nWts == attached + (|t| - nLeaves) - 1 &&
    (forall u :: attached <= u < nLeaves ==> t[u] == []) &&
    forall u, a {:trigger HalfShaped(nLeaves, attached, t, nWts, u, a)} ::
      0 <= u < |t| && 0 <= a < |t[u]| ==> HalfShaped(nLeaves, attached, t, nWts, u, a)
  }

  /** The half-edge at position a of u's list leads to another tree node over a label
      below nWts, the node it leads to has the reciprocal half-edge, and no other half-edge
      of u's list leads to the same node. (Shaped names this predicate as its trigger, so
      that its facts are drawn only where a proof asks for them.) */
  ghost predicate HalfShaped(nLeaves: int, attached: int, t: AdjacencyList, nWts: int, u: int, a: int)
    requires 0 <= u < |t| && 0 <= a < |t[u]|
  {
    var h := t[u][a];
    0 <= h.to < |t| && h.to != u && 0 <= h.lbl < nWts && InTree(nLeaves, attached, |t|, h.to) &&
    Half(u, h.lbl) in t[h.to] &&
    forall b :: 0 <= b < |t[u]| && b != a ==> t[u][b].to != h.to
  }

  /** A shaped tree is an undirected simple graph. */
  lemma ShapedGraph(nLeaves: int, attached: int, t: AdjacencyList, nWts: int)
    requires Shaped(nLeaves, attached, t, nWts)
    ensures Undirected(t, nWts) && Simple(t)
  {
    forall u, a | 0 <= u < |t| && 0 <= a < |t[u]|
      ensures 0 <= t[u][a].to < |t| && 0 <= t[u][a].lbl < nWts && Reciprocated(t, u, a) && t[u][a].to != u
    {
      assert HalfShaped(nLeaves, attached, t, nWts, u, a);
    }
    forall u, a, b | 0 <= u < |t| && 0 <= a < b < |t[u]|
      ensures t[u][a].to != t[u][b].to
    {
      assert HalfShaped(nLeaves, attached, t, nWts, u, a);
    }
  }

  /** Ghost witness that the tree is connected: every tree node but leaf 0 has, at
      position upx[u] of its list, a half-edge towards a node of smaller rank. */
  ghost predicate Ranked(nLeaves: int, attached: int, t: AdjacencyList, upx: seq<int>, rank: seq<nat>)
  {
    |upx| == |t| && |rank| == |t| &&
    forall u {:trigger upx[u]} :: 0 <= u < |t| && InTree(nLeaves, attached, |t|, u) && u != 0 ==>
      0 <= upx[u] < |t[u]| && 0 <= t[u][upx[u]].to < |t| && rank[t[u][upx[u]].to] < rank[u]
  }

  lemma SpansJoin(t: AdjacencyList, s1: set<int>, s2: set<int>, c1: set<int>, c2: set<int>, c: set<int>)
    requires Spans(t, s1, c1) && Spans(t, s2, c2) && c1 <= c && c2 <= c
    ensures Spans(t, s1 + s2, c)
  {
    forall u | u in s1 + s2
      ensures Explored(t, u, c)
    {
      if u in s1 {
        assert Explored(t, u, c1);
      } else {
        assert Explored(t, u, c2);
      }
    }
  }

  /** A search that grew the visited set from vis0 to vis, after earlier ones that grew
      it from v0 + {n} to vis0, leaves every node added since v0 + {n} explored. */
  lemma SpansGrow(t: AdjacencyList, v0: set<int>, n: int, vis0: set<int>, vis: set<int>)
    requires Spans(t, vis - vis0, vis) && Spans(t, vis0 - v0 - {n}, vis0) && vis0 <= vis
    requires v0 + {n} <= vis0
    ensures Spans(t, vis - v0 - {n}, vis)
  {
    SpansJoin(t, vis - vis0, vis0 - v0 - {n}, vis, vis0, vis);
    assert vis - v0 - {n} == (vis - vis0) + (vis0 - v0 - {n});
  }

  lemma SpansAdd(t: AdjacencyList, s: set<int>, n: int, c: set<int>)
    requires Spans(t, s - {n}, c) && n in s && 0 <= n < |t|
    requires forall a :: 0 <= a < |t[n]| ==> t[n][a].to in c
    ensures Spans(t, s, c)
  {
    forall u | u in s
      ensures Explored(t, u, c)
    {
      if u != n {
        assert u in s - {n} && Explored(t, u, c);
      }
    }
  }

  /** What a search from n for i that did not reach i leaves behind: the visited set vis
      grew from vis0, holds n but not i, and every node it added has all its neighbours
      in it. */
  ghost predicate Searched(t: AdjacencyList, vis0: set<int>, vis: set<int>, n: int, i: int)
  {
    n in vis && vis0 <= vis && i !in vis && (forall u :: u in vis ==> 0 <= u < |t|) &&
    Spans(t, vis - vis0, vis)
  }

  /** What a search that returned node p leaves behind: either the tree and the weights
      as they were, or one split of edge sa of node su (sb the reciprocal's position)
      by the new node p, with x consumed. */
  ghost predicate Reached(nLeaves: int, attached: int, t0: AdjacencyList, w0: seq<real>,
                          t: AdjacencyList, w: seq<real>, x: real, p: int, su: int, sa: int, sb: int)
  {
    0 <= p < |t| && InTree(nLeaves, attached, |t|, p) &&
    (|t| == |t0| ==> t == t0 && w == w0) &&
    (|t| != |t0| ==>
       |t| == |t0| + 1 && p == |t0| && x == 0.0 &&
       SplitOf(t0, t, su, sa, sb, |w0|) && WeightSplit(w0, w, t0[su][sa].lbl))
  }

  /** A closed set holding any tree node holds leaf 0. */
  lemma {:induction false} ClosedHoldsZero(nLeaves: int, attached: int, t: AdjacencyList, nWts: int,
                                           upx: seq<int>, rank: seq<nat>, c: set<int>, u: int)
    requires Shaped(nLeaves, attached, t, nWts) && Ranked(nLeaves, attached, t, upx, rank)
    requires Closed(t, c) && u in c && InTree(nLeaves, attached, |t|, u)
    ensures 0 in c
    decreases rank[u]
  {
    if u != 0 {
      var p := t[u][upx[u]].to;
      assert Explored(t, u, c) && HalfShaped(nLeaves, attached, t, nWts, u, upx[u]);
      ClosedHoldsZero(nLeaves, attached, t, nWts, upx, rank, c, p);
    }
  }

  /** A closed set holding leaf 0 holds every tree node. */
  lemma {:induction false} ClosedFromZero(nLeaves: int, attached: int, t: AdjacencyList, nWts: int,
                                          upx: seq<int>, rank: seq<nat>, c: set<int>, u: int)
    requires Shaped(nLeaves, attached, t, nWts) && Ranked(nLeaves, attached, t, upx, rank)
    requires Closed(t, c) && 0 in c && InTree(nLeaves, attached, |t|, u)
    ensures u in c
    decreases rank[u]
  {
    if u != 0 {
      var h := t[u][upx[u]];
      var p := h.to;
      assert HalfShaped(nLeaves, attached, t, nWts, u, upx[u]);
      assert InTree(nLeaves, attached, |t|, p) && rank[p] < rank[u];
      ClosedFromZero(nLeaves, attached, t, nWts, upx, rank, c, p);
      var b :| 0 <= b < |t[p]| && t[p][b] == Half(u, h.lbl);
      assert Explored(t, p, c);
    }
  }

  /** The tree is connected: a closed set holding one tree node holds them all. */
  lemma ClosedHoldsAll(nLeaves: int, attached: int, t: AdjacencyList, nWts: int,
                  upx: seq<int>, rank: seq<nat>, c: set<int>, k: int, i: int)
    requires Shaped(nLeaves, attached, t, nWts) && Ranked(nLeaves, attached, t, upx, rank)
    requires Closed(t, c) && k in c && InTree(nLeaves, attached, |t|, k)
    requires InTree(nLeaves, attached, |t|, i)
    ensures i in c
  {
    ClosedHoldsZero(nLeaves, attached, t, nWts, upx, rank, c, k);
    ClosedFromZero(nLeaves, attached, t, nWts, upx, rank, c, i);
  }

  // ---------------------------------------------------------------- edits of the tree

  /** The tree after the edge from u through its half at position a, to w, is split by a
      new node v = |t|: that half now leads to v over the same label, the reciprocal half
      at position b of w's list leads to v over the new label y, and v leads back to u
      and to w. */
  function SplitTree(t: AdjacencyList, u: int, a: int, b: int, y: int): (r: AdjacencyList)
    requires 0 <= u < |t| && 0 <= a < |t[u]| && 0 <= t[u][a].to < |t| && 0 <= b < |t[t[u][a].to]|
    ensures |r| == |t| + 1
  {
    var h, v := t[u][a], |t|;
    t[u := t[u][a := Half(v, h.lbl)]][h.to := t[h.to][b := Half(v, y)]] + [[Half(u, h.lbl), Half(h.to, y)]]
  }

  /** The connection witness after a split: ranks double, leaving room for the new node
      between the two ends of the edge; the new node's step goes towards whichever end
      is nearer leaf 0. */
  function SplitRanks(t: AdjacencyList, upx: seq<int>, rank: seq<nat>, u: int, a: int, b: int): (r: (seq<int>, seq<nat>))
    requires 0 <= u < |t| && 0 <= a < |t[u]| && 0 <= t[u][a].to < |t|
    requires |upx| == |t| && |rank| == |t|
    ensures |r.0| == |t| + 1 && |r.1| == |t| + 1
  {
    var w := t[u][a].to;
    var towardsU := w != 0 && upx[w] == b;
    var up := if towardsU then 0 else 1;
    var rk := if towardsU then 2 * rank[u] + 1 else 2 * rank[w] + 1;
    (upx + [up], seq(|t| + 1, z requires 0 <= z <= |t| => if z < |t| then 2 * rank[z] else rk))
  }

  /** r is t after the split of the edge at position a of u's list, whose reciprocal is at
      position b of the other end's list, by new node |t| with new label y: entry by entry. */
  ghost predicate SplitOf(t: AdjacencyList, r: AdjacencyList, u: int, a: int, b: int, y: int)
  {
    0 <= u < |t| && 0 <= a < |t[u]| && 0 <= t[u][a].to < |t| && t[u][a].to != u &&
    0 <= b < |t[t[u][a].to]| && |r| == |t| + 1 &&
    (forall z :: 0 <= z < |t| ==> |r[z]| == |t[z]|) &&
    (forall z, c :: 0 <= z < |t| && 0 <= c < |t[z]| && !(z == u && c == a) && !(z == t[u][a].to && c == b) ==>
       r[z][c] == t[z][c]) &&
    r[u][a] == Half(|t|, t[u][a].lbl) && r[t[u][a].to][b] == Half(|t|, y) &&
    r[|t|] == [Half(u, t[u][a].lbl), Half(t[u][a].to, y)]
  }

  /** The weights after a split of the edge labelled y: one more weight, the new one and
      y's together making up y's old weight, the new one below it, and the rest as before. */
  ghost predicate WeightSplit(w: seq<real>, r: seq<real>, y: int)
  {
    |r| == |w| + 1 && 0 <= y < |w| &&
    r[y] + r[|w|] == w[y] && r[|w|] < w[y] &&
    forall z :: 0 <= z < |w| && z != y ==> r[z] == w[z]
  }

  lemma SplitTreeIsSplit(t: AdjacencyList, u: int, a: int, b: int, y: int)
    requires 0 <= u < |t| && 0 <= a < |t[u]| && 0 <= t[u][a].to < |t| && t[u][a].to != u
    requires 0 <= b < |t[t[u][a].to]|
    ensures SplitOf(t, SplitTree(t, u, a, b, y), u, a, b, y)
  {
  }

  /** In an undirected simple tree the first half-edge at the far end of the edge at
      position a of u's list that leads back to u is that edge's reciprocal. */
  lemma SplitFound(nLeaves: int, attached: int, t: AdjacencyList, nWts: int, u: int, a: int, f: int)
    requires Shaped(nLeaves, attached, t, nWts) && 0 <= u < |t| && 0 <= a < |t[u]|
    requires HalfShaped(nLeaves, attached, t, nWts, u, a) && 0 <= f <= |t[t[u][a].to]|
    requires forall c :: 0 <= c < f ==> t[t[u][a].to][c].to != u
    requires f < |t[t[u][a].to]| ==> t[t[u][a].to][f].to == u
    ensures f < |t[t[u][a].to]| && t[t[u][a].to][f] == Half(u, t[u][a].lbl) && t[u][a].to != u
  {
    var w, lbl := t[u][a].to, t[u][a].lbl;
    assert HalfShaped(nLeaves, attached, t, nWts, u, a);
    var e :| 0 <= e < |t[w]| && t[w][e] == Half(u, lbl);
    assert HalfShaped(nLeaves, attached, t, nWts, w, e);
  }

  /** A split keeps the tree shaped and connected, with one more node and one more
      weight. */
  lemma SplitKeeps(nLeaves: int, attached: int, t: AdjacencyList, nWts: int,
                   upx: seq<int>, rank: seq<nat>, u: int, a: int, b: int,
                   r: AdjacencyList, m: int, ur: (seq<int>, seq<nat>))
    requires Shaped(nLeaves, attached, t, nWts) && Ranked(nLeaves, attached, t, upx, rank)
    requires InTree(nLeaves, attached, |t|, u) && 0 <= u < |t| && 0 <= a < |t[u]|
    requires HalfShaped(nLeaves, attached, t, nWts, u, a) && 0 <= b < |t[t[u][a].to]|
    requires t[t[u][a].to][b] == Half(u, t[u][a].lbl)
    requires r == SplitTree(t, u, a, b, nWts) && m == nWts + 1 && ur == SplitRanks(t, upx, rank, u, a, b)
    ensures SplitOf(t, r, u, a, b, nWts) && Shaped(nLeaves, attached, r, m) && Ranked(nLeaves, attached, r, ur.0, ur.1)
  {
    SplitTreeIsSplit(t, u, a, b, nWts);
    SplitKeepsShape(nLeaves, attached, t, nWts, r, u, a, b);
    SplitKeepsRanks(nLeaves, attached, t, nWts, upx, rank, r, u, a, b);
  }

  /** A split keeps the tree shaped, with one more node and one more weight. */
  lemma SplitKeepsShape(nLeaves: int, attached: int, t: AdjacencyList, nWts: int,
                        r: AdjacencyList, u: int, a: int, b: int)
    requires Shaped(nLeaves, attached, t, nWts) && InTree(nLeaves, attached, |t|, u)
    requires SplitOf(t, r, u, a, b, nWts) && t[t[u][a].to][b] == Half(u, t[u][a].lbl)
    ensures Shaped(nLeaves, attached, r, nWts + 1)
  {
    var v, w := |t|, t[u][a].to;
    assert HalfShaped(nLeaves, attached, t, nWts, u, a);
    assert HalfShaped(nLeaves, attached, t, nWts, w, b);
    var m := nWts + 1;
    forall z, c | 0 <= z < |r| && 0 <= c < |r[z]|
      ensures HalfShaped(nLeaves, attached, r, m, z, c)
    {
      if z == v || (z == u && c == a) || (z == w && c == b) {
        SplitNewHalves(nLeaves, attached, t, nWts, r, u, a, b, z, c);
      } else {
        SplitOldHalf(nLeaves, attached, t, nWts, r, u, a, b, z, c);
      }
    }
    forall z | attached <= z < nLeaves
      ensures r[z] == []
    {
      assert !InTree(nLeaves, attached, |t|, z);
      assert z != u && z != w;
    }
  }

  /** The four half-edges a split creates or redirects are shaped. */
  lemma SplitNewHalves(nLeaves: int, attached: int, t: AdjacencyList, nWts: int,
                       r: AdjacencyList, u: int, a: int, b: int, z: int, c: int)
    requires Shaped(nLeaves, attached, t, nWts) && InTree(nLeaves, attached, |t|, u)
    requires SplitOf(t, r, u, a, b, nWts) && t[t[u][a].to][b] == Half(u, t[u][a].lbl)
    requires HalfShaped(nLeaves, attached, t, nWts, u, a)
    requires 0 <= z < |r| && 0 <= c < |r[z]|
    requires z == |t| || (z == u && c == a) || (z == t[u][a].to && c == b)
    ensures HalfShaped(nLeaves, attached, r, nWts + 1, z, c)
  {
    var v, w := |t|, t[u][a].to;
    if z == u {
      forall e | 0 <= e < |r[u]| && e != a
        ensures r[u][e].to != v
      {
        assert r[u][e] == t[u][e] && HalfShaped(nLeaves, attached, t, nWts, u, e);
      }
    } else if z == w {
      forall e | 0 <= e < |r[w]| && e != b
        ensures r[w][e].to != v
      {
        assert r[w][e] == t[w][e] && HalfShaped(nLeaves, attached, t, nWts, w, e);
      }
    }
  }

  /** A half-edge a split leaves in place stays shaped. */
  lemma SplitOldHalf(nLeaves: int, attached: int, t: AdjacencyList, nWts: int,
                     r: AdjacencyList, u: int, a: int, b: int, z: int, c: int)
    requires Shaped(nLeaves, attached, t, nWts)
    requires SplitOf(t, r, u, a, b, nWts) && t[t[u][a].to][b] == Half(u, t[u][a].lbl)
    requires HalfShaped(nLeaves, attached, t, nWts, u, a)
    requires HalfShaped(nLeaves, attached, t, nWts, t[u][a].to, b)
    requires 0 <= z < |t| && 0 <= c < |t[z]|
    requires !(z == u && c == a) && !(z == t[u][a].to && c == b)
    ensures HalfShaped(nLeaves, attached, r, nWts + 1, z, c)
  {
    var v, w := |t|, t[u][a].to;
    var g := t[z][c];
    assert r[z][c] == g;
    assert HalfShaped(nLeaves, attached, t, nWts, z, c);
    var e :| 0 <= e < |t[g.to]| && t[g.to][e] == Half(z, g.lbl);
    if g.to == u && e == a {
      assert false;
    } else if g.to == w && e == b {
      assert false;
    }
    assert r[g.to][e] == Half(z, g.lbl);
    forall e' | 0 <= e' < |r[z]| && e' != c
      ensures r[z][e'].to != g.to
    {
      if !(z == u && e' == a) && !(z == w && e' == b) {
        assert r[z][e'] == t[z][e'];
      }
    }
  }

  /** A split keeps the ghost connection witness. */
  lemma SplitKeepsRanks(nLeaves: int, attached: int, t: AdjacencyList, nWts: int,
                        upx: seq<int>, rank: seq<nat>, r: AdjacencyList, u: int, a: int, b: int)
    requires Shaped(nLeaves, attached, t, nWts) && Ranked(nLeaves, attached, t, upx, rank)
    requires SplitOf(t, r, u, a, b, nWts) && t[t[u][a].to][b].to == u
    requires InTree(nLeaves, attached, |t|, u)
    ensures var ur := SplitRanks(t, upx, rank, u, a, b);
      Ranked(nLeaves, attached, r, ur.0, ur.1)
  {
    var v, w := |t|, t[u][a].to;
    var ur: (seq<int>, seq<nat>) := SplitRanks(t, upx, rank, u, a, b);
    forall z | 0 <= z < |r| && InTree(nLeaves, attached, |r|, z) && z != 0
      ensures 0 <= ur.0[z] < |r[z]| && 0 <= r[z][ur.0[z]].to < |r| && ur.1[r[z][ur.0[z]].to] < ur.1[z]
    {
      if z != v {
        assert InTree(nLeaves, attached, |t|, z);
        var c := upx[z];
        assert ur.0[z] == c;
        if z == u && c == a {
          assert r[z][c].to == v;
        } else if z == w && c == b {
          assert r[z][c].to == v;
        } else {
          assert r[z][c] == t[z][c];
        }
      }
    }
  }

  /** The tree after leaf n, not yet attached, is joined to node v by the new edge y. */
  function AttachTree(t: AdjacencyList, n: int, v: int, y: int): (r: AdjacencyList)
    requires 0 <= n < |t| && 0 <= v < |t|
    ensures |r| == |t|
  {
    t[n := [Half(v, y)]][v := t[v] + [Half(n, y)]]
  }

  /** Attaching the next leaf to a tree node keeps the tree shaped and connected, with
      one more weight. */
  lemma AttachKeeps(nLeaves: int, attached: int, t: AdjacencyList, nWts: int,
                    upx: seq<int>, rank: seq<nat>, v: int,
                    r: AdjacencyList, attached': int, m: int, upx': seq<int>, rank': seq<nat>)
    requires Shaped(nLeaves, attached, t, nWts) && Ranked(nLeaves, attached, t, upx, rank)
    requires attached < nLeaves && 0 <= v < |t| && InTree(nLeaves, attached, |t|, v)
    requires r == AttachTree(t, attached, v, nWts) && attached' == attached + 1 && m == nWts + 1
    requires upx' == upx[attached := 0] && rank' == rank[attached := rank[v] + 1]
    ensures Shaped(nLeaves, attached', r, m) && Ranked(nLeaves, attached', r, upx', rank')
  {
    var n := attached;
    assert v != n;
    assert r[n] == [Half(v, nWts)];
    assert r[v] == t[v] + [Half(n, nWts)];
    assert forall z :: 0 <= z < |t| && z != n && z != v ==> r[z] == t[z];
    forall z, c | 0 <= z < |r| && 0 <= c < |r[z]|
      ensures HalfShaped(nLeaves, attached', r, m, z, c)
    {
      AttachHalf(nLeaves, attached, t, nWts, r, v, z, c);
    }
    AttachRanked(nLeaves, attached, t, nWts, upx, rank, r, v);
  }

  /** Every half-edge of the tree with the new leaf attached is shaped. */
  lemma AttachHalf(nLeaves: int, attached: int, t: AdjacencyList, nWts: int, r: AdjacencyList, v: int,
                   z: int, c: int)
    requires Shaped(nLeaves, attached, t, nWts) && attached < nLeaves
    requires 0 <= v < |t| && InTree(nLeaves, attached, |t|, v) && |r| == |t|
    requires r[attached] == [Half(v, nWts)] && r[v] == t[v] + [Half(attached, nWts)]
    requires forall z :: 0 <= z < |t| && z != attached && z != v ==> r[z] == t[z]
    requires 0 <= z < |r| && 0 <= c < |r[z]|
    ensures HalfShaped(nLeaves, attached + 1, r, nWts + 1, z, c)
  {
    var n := attached;
    if z == n {
      assert r[v][|t[v]|] == Half(n, nWts);
    } else if z == v && c == |t[v]| {
      assert r[n][0] == Half(v, nWts);
      forall e | 0 <= e < |t[v]|
        ensures r[v][e].to != n
      {
        assert r[v][e] == t[v][e];
        assert HalfShaped(nLeaves, attached, t, nWts, v, e);
      }
    } else {
      var g := t[z][c];
      assert r[z][c] == g;
      assert HalfShaped(nLeaves, attached, t, nWts, z, c);
      var e :| 0 <= e < |t[g.to]| && t[g.to][e] == Half(z, g.lbl);
      assert r[g.to][e] == Half(z, g.lbl);
      forall e' | 0 <= e' < |r[z]| && e' != c
        ensures r[z][e'].to != g.to
      {
        if !(z == v && e' == |t[v]|) {
          assert r[z][e'] == t[z][e'];
        }
      }
    }
  }

  lemma AttachRanked(nLeaves: int, attached: int, t: AdjacencyList, nWts: int, upx: seq<int>, rank: seq<nat>,
                     r: AdjacencyList, v: int)
    requires Shaped(nLeaves, attached, t, nWts) && Ranked(nLeaves, attached, t, upx, rank)
    requires attached < nLeaves && 0 <= v < |t| && InTree(nLeaves, attached, |t|, v) && |r| == |t|
    requires r[attached] == [Half(v, nWts)] && r[v] == t[v] + [Half(attached, nWts)]
    requires forall z :: 0 <= z < |t| && z != attached && z != v ==> r[z] == t[z]
    ensures Ranked(nLeaves, attached + 1, r, upx[attached := 0], rank[attached := rank[v] + 1])
  {
    var n := attached;
    var upx', rank' := upx[n := 0], rank[n := rank[v] + 1];
    forall z | 0 <= z < |r| && InTree(nLeaves, attached + 1, |r|, z) && z != 0
      ensures 0 <= upx'[z] < |r[z]| && 0 <= r[z][upx'[z]].to < |r| && rank'[r[z][upx'[z]].to] < rank'[z]
    {
      if z != n {
        assert InTree(nLeaves, attached, |t|, z);
        assert r[z][upx[z]] == t[z][upx[z]];
        assert HalfShaped(nLeaves, attached, t, nWts, z, upx[z]);
      }
    }
  }

  /** Every internal node has at least three neighbours. */
  ghost predicate Branching(nLeaves: int, t: AdjacencyList)
  {
    forall u :: 0 <= nLeaves <= u < |t| ==> |t[u]| >= 3
  }

  /** A shaped tree over all its leaves whose connection witness holds is connected. */
  lemma ShapedConnected(nLeaves: int, t: AdjacencyList, nWts: int, upx: seq<int>, rank: seq<nat>)
    requires Shaped(nLeaves, nLeaves, t, nWts) && Ranked(nLeaves, nLeaves, t, upx, rank)
    ensures Connected(t)
  {
    forall c | Closed(t, c) && 0 in c
      ensures forall u :: 0 <= u < |t| ==> u in c
    {
      forall u | 0 <= u < |t|
        ensures u in c
      {
        ClosedFromZero(nLeaves, nLeaves, t, nWts, upx, rank, c, u);
      }
    }
  }

  /** Attaching leaf n at node v keeps every internal node branching when v is either an
      old node, or the node a split has just added between two old ones. */
  lemma AttachBranching(nLeaves: int, t0: AdjacencyList, t: AdjacencyList, n: int, v: int, y: int,
                        su: int, sa: int, sb: int, w: int)
    requires Branching(nLeaves, t0) && 0 <= n < nLeaves <= |t0| && 0 <= v < |t| && n != v
    requires t == t0 || (SplitOf(t0, t, su, sa, sb, w) && v == |t0|)
    ensures Branching(nLeaves, AttachTree(t, n, v, y))
  {
    var r := AttachTree(t, n, v, y);
    forall u | nLeaves <= u < |r|
      ensures |r[u]| >= 3
    {
      if u != v && t != t0 {
        assert |t[u]| == |t0[u]|;
      }
    }
  }

  /** The position of the first half-edge of hs that leads to node n, |hs| when there is
      none. */
  method FirstTo(hs: seq<Half>, n: int) returns (fx: int)
    ensures 0 <= fx <= |hs|
    ensures forall a :: 0 <= a < fx ==> hs[a].to != n
    ensures fx < |hs| ==> hs[fx].to == n
  {
    fx := 0;
    while fx < |hs| && hs[fx].to != n
      invariant 0 <= fx <= |hs|
      invariant forall a :: 0 <= a < fx ==> hs[a].to != n
    {
      fx := fx + 1;
    }
  }

  // ---------------------------------------------------------------- paths

  /** path is a walk in t from node n to node i, step by step: each step (u, a) leaves
      node u by the half-edge at position a of u's list, over a label below nWts, the
      first from n and each from where the previous one led; the empty walk when n == i. */
  ghost predicate Path(t: AdjacencyList, nWts: int, path: seq<(int, int)>, n: int, i: int)
    decreases |path|
  {
    if path == [] then n == i
    else
      var (u, a) := path[0];
      u == n && 0 <= u < |t| && 0 <= a < |t[u]| && 0 <= t[u][a].lbl < nWts &&
      Path(t, nWts, path[1..], t[u][a].to, i)
  }

  /** The total weight of the edges a walk takes. */
  ghost function Length(t: AdjacencyList, w: seq<real>, path: seq<(int, int)>): real
    decreases |path|
  {
    if path == [] then 0.0
    else
      var (u, a) := path[0];
      var here := if 0 <= u < |t| && 0 <= a < |t[u]| && 0 <= t[u][a].lbl < |w| then w[t[u][a].lbl] else 0.0;
      here + Length(t, w, path[1..])
  }

  /** The node a walk ending at i stands on before its step j (i itself after the last). */
  function NodeAt(path: seq<(int, int)>, j: int, i: int): int
    requires 0 <= j <= |path|
  {
    if j < |path| then path[j].0 else i
  }

  /** Where the search from n for i, with x0 to consume, ended up, stated on the tree t0
      and the weights w0 it started from: path is the walk from n to i in t0 that the
      search took, and j the step where it stopped. Without a split it returned the node
      p before step j, and x lost the length of the rest of the walk from p to i; it is 0
      unless p is n itself. With a split, step j = (su, sa) is the edge that was split,
      and the new weight w[|w0|], that of the new edge between the new node and the far
      end of step j, is what remained of x0 after the rest of the walk: the new node lies
      at distance x0 from i. */
  ghost predicate Located(t0: AdjacencyList, w0: seq<real>, t: AdjacencyList, w: seq<real>, x0: real, x: real,
                          n: int, i: int, p: int, path: seq<(int, int)>, j: int, su: int, sa: int)
  {
    Path(t0, |w0|, path, n, i) && 0 <= j <= |path| &&
    (|t| == |t0| ==>
       p == NodeAt(path, j, i) && x == x0 - Length(t0, w0, path[j..]) && (x == 0.0 || j == 0)) &&
    (|t| != |t0| ==>
       j < |path| && path[j] == (su, sa) && |w| > |w0| && w[|w0|] == x0 - Length(t0, w0, path[j + 1..]))
  }

  /** A search that ended with nothing left to consume, one edge further down the walk
      from n, ended at the same place of the walk one step longer. */
  lemma LocatedExtend(t0: AdjacencyList, w0: seq<real>, t: AdjacencyList, w: seq<real>, x0: real, x: real,
                      n: int, tx: int, i: int, p: int, path: seq<(int, int)>, j: int, su: int, sa: int)
    requires 0 <= n < |t0| && 0 <= tx < |t0[n]| && 0 <= t0[n][tx].lbl < |w0|
    requires Located(t0, w0, t, w, x0, x, t0[n][tx].to, i, p, path, j, su, sa) && x == 0.0
    ensures Located(t0, w0, t, w, x0, x, n, i, p, [(n, tx)] + path, j + 1, su, sa)
  {
    var path' := [(n, tx)] + path;
    assert path'[1..] == path;
    assert path'[j + 1..] == path[j..];
    if j < |path| {
      assert path'[j + 2..] == path[j + 1..];
    }
  }

  /** A search that found i with x1 still to consume, and then consumed it on the edge
      at position tx of n's list as Consume does, ended at step 0 of the walk through
      that edge: at n, or inside that edge. */
  lemma LocatedBack(t0: AdjacencyList, w0: seq<real>, t: AdjacencyList, w: seq<real>, x0: real, x1: real, x: real,
                    n: int, tx: int, i: int, p: int, path: seq<(int, int)>)
    requires 0 <= n < |t0| && 0 <= tx < |t0[n]| && 0 <= t0[n][tx].lbl < |w0|
    requires Path(t0, |w0|, path, t0[n][tx].to, i) && x1 == x0 - Length(t0, w0, path)
    requires |t| == |t0| ==> p == n && x == x1 - w0[t0[n][tx].lbl]
    requires |t| != |t0| ==> |w| > |w0| && w[|w0|] == x1
    ensures Located(t0, w0, t, w, x0, x, n, i, p, [(n, tx)] + path, 0, n, tx)
  {
    var path' := [(n, tx)] + path;
    assert path'[1..] == path && path'[0..] == path';
  }

  // ---------------------------------------------------------------- the builder

  /** The state of one construction: the matrix, the growing adjacency list t with its
      edge weights, the distance x still to cover on the way back from the search, and
      the search's visited set. The ghost fields count the attached leaves and witness
      that the tree is connected. */
  class Builder {
    const d: Matrix
    var t: AdjacencyList
    var edgeWts: seq<real>
    var x: real
    var vis: set<int>
    ghost var attached: int
    ghost var upx: seq<int>
    ghost var rank: seq<nat>

    /** t is an undirected, simple, connected tree over the attached leaves and the
        internal nodes, with one weight per edge. */
    ghost predicate Valid()
      reads this`t, this`edgeWts, this`attached, this`upx, this`rank
    {
      IsSquare(d) && |d| >= 2 &&
      Shaped(|d|, attached, t, |edgeWts|) && Ranked(|d|, attached, t, upx, rank)
    }

    /** No leaf is attached yet: |d| nodes without half-edges, no weights. */
    ghost predicate Blank()
      reads this`t, this`edgeWts
    {
      IsSquare(d) && |d| >= 2 && |t| == |d| && edgeWts == [] &&
      forall u :: 0 <= u < |t| ==> t[u] == []
    }

    constructor (d: Matrix)
      requires IsSquare(d) && |d| >= 2
      ensures this.d == d && Blank()
    {
      this.d := d;
      t := seq(|d|, _ => []);
      edgeWts := [];
      x := 0.0;
      vis := {};
      attached := 0;
      upx, rank := [], [];
    }

    /** The nodes the search has not visited. */
    ghost function Unvisited(): set<int>
      reads this`t, this`vis
    {
      set u | 0 <= u < |t| && u !in vis
    }

    /** The depth-first search from node n for node i. Returns -1 when i is not reached
        through unvisited nodes; nothing but the visited set has then changed, and every
        node the search visited has all its neighbours visited. Otherwise, on the way back
        out of the edge to the node that led to i, the distance x is consumed: when it is
        already 0 the node found is returned; when it is below the edge's weight the edge
        is split at distance x from that node by a new node, which is returned, and x
        becomes 0; otherwise x loses the edge's weight and n is returned. A split appends
        one node and one weight and divides the old weight w into w - x and x. */
    method Find(n: int, i: int)
      returns (p: int, ghost su: int, ghost sa: int, ghost sb: int, ghost path: seq<(int, int)>, ghost j: int)
      requires Valid() && 0 <= n < |t| && InTree(|d|, attached, |t|, n) && InTree(|d|, attached, |t|, i)
      requires n == i || n !in vis
      requires i !in vis && forall u :: u in vis ==> 0 <= u < |t|
      modifies this`t, this`edgeWts, this`x, this`upx, this`rank, this`vis
      decreases Unvisited(), 0
      ensures Valid()
      ensures p == -1 ==>
        t == old(t) && edgeWts == old(edgeWts) && x == old(x) && upx == old(upx) && rank == old(rank) &&
        Searched(t, old(vis), vis, n, i)
      ensures p != -1 ==> Reached(|d|, attached, old(t), old(edgeWts), t, edgeWts, x, p, su, sa, sb)
      ensures p != -1 ==> Located(old(t), old(edgeWts), t, edgeWts, old(x), x, n, i, p, path, j, su, sa)
    {
      su, sa, sb, path, j := 0, 0, 0, [], 0;
      if n == i {
        return n, su, sa, sb, path, j;
      }
      vis := vis + {n};
      var tn := t[n];
      for tx := 0 to |tn|
        invariant Valid()
        invariant t == old(t) && edgeWts == old(edgeWts) && x == old(x) && upx == old(upx) && rank == old(rank)
        invariant old(vis) + {n} <= vis && i !in vis && forall u :: u in vis ==> 0 <= u < |t|
        invariant Spans(t, vis - old(vis) - {n}, vis)
        invariant forall a :: 0 <= a < tx ==> tn[a].to in vis
      {
        var to := tn[tx];
        if to.to in vis {
          continue;
        }
        assert n in old(Unvisited()) && n !in Unvisited();
        ghost var vis0 := vis;
        var q;
        q, su, sa, sb, path, j := Descend(n, tx, i);
        if q < 0 {
          SpansGrow(t, old(vis), n, vis0, vis);
          continue;
        }
        return q, su, sa, sb, path, j;
      }
      SpansAdd(t, vis - old(vis), n, vis);
      return -1, su, sa, sb, path, j;
    }

    /** The search along the edge at position tx of node n's list, into an unvisited
        node, and the consumption of x on the way back when i was found there. */
    method Descend(n: int, tx: int, i: int)
      returns (q: int, ghost su: int, ghost sa: int, ghost sb: int, ghost path: seq<(int, int)>, ghost j: int)
      requires Valid() && 0 <= n < |t| && InTree(|d|, attached, |t|, n) && 0 <= tx < |t[n]|
      requires t[n][tx].to !in vis && InTree(|d|, attached, |t|, i)
      requires i !in vis && forall u :: u in vis ==> 0 <= u < |t|
      modifies this`t, this`edgeWts, this`x, this`upx, this`rank, this`vis
      decreases Unvisited(), 1
      ensures Valid()
      ensures q == -1 ==>
        t == old(t) && edgeWts == old(edgeWts) && x == old(x) && upx == old(upx) && rank == old(rank) &&
        Searched(t, old(vis), vis, old(t)[n][tx].to, i)
      ensures q != -1 ==> Reached(|d|, attached, old(t), old(edgeWts), t, edgeWts, x, q, su, sa, sb)
      ensures q != -1 ==> Located(old(t), old(edgeWts), t, edgeWts, old(x), x, n, i, q, path, j, su, sa)
    {
      assert HalfShaped(|d|, attached, t, |edgeWts|, n, tx);
      ghost var below;
      q, su, sa, sb, below, j := Find(t[n][tx].to, i);
      path := [(n, tx)] + below;
      if q == -1 {
        return;
      }
      if x == 0.0 {
        LocatedExtend(old(t), old(edgeWts), t, edgeWts, old(x), x, n, tx, i, q, below, j, su, sa);
        j := j + 1;
        return;
      }
      ghost var x1 := x;
      q, sb := Consume(n, tx);
      su, sa, j := n, tx, 0;
      LocatedBack(old(t), old(edgeWts), t, edgeWts, old(x), x1, x, n, tx, i, q, below);
    }

    /** The search's way back over the edge at position tx of node n's list, with the
        distance x still to go: when x is below the edge's weight the edge is split at
        distance x from n and the new node is returned; otherwise x loses the edge's
        weight and n is returned. */
    method Consume(n: int, tx: int) returns (p: int, ghost fx: int)
      requires Valid() && 0 <= n < |t| && InTree(|d|, attached, |t|, n) && 0 <= tx < |t[n]|
      requires HalfShaped(|d|, attached, t, |edgeWts|, n, tx)
      modifies this`t, this`edgeWts, this`x, this`upx, this`rank
      ensures Valid() && Reached(|d|, attached, old(t), old(edgeWts), t, edgeWts, x, p, n, tx, fx)
      ensures |t| == old(|t|) ==> p == n && x == old(x) - old(edgeWts)[old(t)[n][tx].lbl]
      ensures |t| != old(|t|) ==> edgeWts[old(|edgeWts|)] == old(x)
    {
      var w := edgeWts[t[n][tx].lbl];
      if x < w {
        p, fx := SplitEdge(n, tx);
        return;
      }
      x := x - w;
      return n, 0;
    }

    /** The split of the edge at position tx of node n's list: a new node v = |t| takes
        that half-edge, keeping its label with the weight reduced by x, and the reciprocal
        half-edge, found as the first at the other end that leads back to n, with a new
        label of weight x; v's own list leads back to both ends. */
    method SplitEdge(n: int, tx: int) returns (v: int, ghost fx: int)
      requires Valid() && 0 <= n < |t| && InTree(|d|, attached, |t|, n) && 0 <= tx < |t[n]|
      requires HalfShaped(|d|, attached, t, |edgeWts|, n, tx)
      requires x < edgeWts[t[n][tx].lbl]
      modifies this`t, this`edgeWts, this`x, this`upx, this`rank
      ensures Valid() && v == old(|t|) && x == 0.0
      ensures SplitOf(old(t), t, n, tx, fx, old(|edgeWts|))
      ensures WeightSplit(old(edgeWts), edgeWts, old(t)[n][tx].lbl) && edgeWts[old(|edgeWts|)] == old(x)
    {
      var t0: AdjacencyList, w0: seq<real> := t, edgeWts;
      var to: Half := t0[n][tx];
      var w := to.to;
      v := |t0|;
      var t1 := t0[n := t0[n][tx := Half(v, to.lbl)]];
      var w1 := w0[to.lbl := w0[to.lbl] - x];
      var y := |w1|;
      w1 := w1 + [x];
      var f := FirstTo(t1[w], n);
      fx := f;
      SplitFound(|d|, attached, t0, |w0|, n, tx, f);
      if f < |t1[w]| {
        t1 := t1[w := t1[w][f := Half(v, y)]];
      }
      t1 := t1 + [[Half(n, to.lbl), Half(w, y)]];
      assert t1 == SplitTree(t0, n, tx, f, y);
      var ur := SplitRanks(t0, upx, rank, n, tx, f);
      SplitKeeps(|d|, attached, t0, |w0|, upx, rank, n, tx, f, t1, |w1|, ur);
      t, edgeWts, x, upx, rank := t1, w1, 0.0, ur.0, ur.1;
    }

    /** Builds the tree for the leaves 0 .. n from a blank start: for n = 1 the single
        edge between leaves 0 and 1; otherwise the tree for the leaves 0 .. n-1, then leaf
        n joined, by a new edge with its limb weight, to the point at distance
        d[i][n] - limb from leaf i on the path from leaf k = n-1 to leaf i, where i is the
        limb's argmin. The point is found by the search, which splits an edge when the
        point falls inside it; no search can miss leaf i, as the tree is connected. */
    method Ap(n: int)
      returns (ghost t1: AdjacencyList, ghost w1: seq<real>, ghost i: int, ghost ts: AdjacencyList, ghost ws: seq<real>,
               ghost v: int, ghost path: seq<(int, int)>, ghost j: int, ghost su: int, ghost sa: int, ghost sb: int)
      requires Blank() && 1 <= n < |d|
      modifies this
      decreases n
      ensures Valid() && attached == n + 1 && |t| - |d| <= n - 1 && Branching(|d|, t)
      ensures |t[n]| == 1 && t[n][0].lbl == |edgeWts| - 1 && LimbOf(d, n, edgeWts[|edgeWts| - 1])
      ensures n >= 2 ==>
        Shaped(|d|, n, t1, |w1|) && 0 <= i < n - 1 && 2.0 * edgeWts[|edgeWts| - 1] == LimbScore(d, n, n - 1, i) &&
        Reached(|d|, n, t1, w1, ts, ws, x, v, su, sa, sb) &&
        Located(t1, w1, ts, ws, d[i][n] - edgeWts[|edgeWts| - 1], x, n - 1, i, v, path, j, su, sa) &&
        |ts| == |t| && 0 <= v < |t| && t == AttachTree(ts, n, v, |ws|) && edgeWts == ws + [edgeWts[|edgeWts| - 1]]
    {
      t1, w1, i, ts, ws, v, path, j, su, sa, sb := [], [], 0, [], [], 0, [], 0, 0, 0, 0;
      if n == 1 {
        JoinFirst();
        return;
      }
      var nLen, li, k := LimbWeightSubMatrix(d, n);
      assert LimbOf(d, n, nLen);
      var xn := d[li][n] - nLen;
      t1, w1, i, ts, ws, v, path, j, su, sa, sb := Ap(n - 1);
      t1, w1, i := t, edgeWts, li;
      ts, ws, v, path, j, su, sa, sb := Grow(n, li, k, xn, nLen);
    }

    /** With leaves 0 .. n-1 attached: the search from leaf k for leaf i, consuming xn,
        then leaf n hung on the node found by a new edge of weight nLen. */
    method Grow(n: int, i: int, k: int, xn: real, nLen: real)
      returns (ghost ts: AdjacencyList, ghost ws: seq<real>, ghost v: int, ghost path: seq<(int, int)>,
               ghost j: int, ghost su: int, ghost sa: int, ghost sb: int)
      requires Valid() && attached == n < |d| && |t| - |d| <= n - 2 && Branching(|d|, t)
      requires 0 <= i < n && 0 <= k < n
      modifies this`t, this`edgeWts, this`x, this`upx, this`rank, this`vis, this`attached
      ensures Valid() && attached == n + 1 && |t| - |d| <= n - 1 && Branching(|d|, t)
      ensures |t[n]| == 1 && t[n][0].lbl == |edgeWts| - 1 && edgeWts[|edgeWts| - 1] == nLen
      ensures Reached(|d|, n, old(t), old(edgeWts), ts, ws, x, v, su, sa, sb)
      ensures Located(old(t), old(edgeWts), ts, ws, xn, x, k, i, v, path, j, su, sa)
      ensures t == AttachTree(ts, n, v, |ws|) && edgeWts == ws + [nLen]
    {
      ghost var t0 := t;
      var at;
      at, su, sa, sb, path, j := Connect(k, i, xn);
      ts, ws, v := t, edgeWts, at;
      AttachBranching(|d|, t0, t, n, at, |edgeWts|, su, sa, sb, |edgeWts| - 1);
      Attach(n, at, nLen);
    }

    /** The search, with nothing visited yet, from tree node k for tree node i, which
        consumes the distance xn on the way back from i. It cannot miss i, as the tree
        is connected, so it returns the point at distance xn from i on the walk it took
        from k, a new node when that point falls inside an edge. */
    method Connect(k: int, i: int, xn: real)
      returns (v: int, ghost su: int, ghost sa: int, ghost sb: int, ghost path: seq<(int, int)>, ghost j: int)
      requires Valid() && 0 <= k < |t| && InTree(|d|, attached, |t|, k) && InTree(|d|, attached, |t|, i)
      modifies this`t, this`edgeWts, this`x, this`upx, this`rank, this`vis
      ensures Valid() && Reached(|d|, attached, old(t), old(edgeWts), t, edgeWts, x, v, su, sa, sb)
      ensures Located(old(t), old(edgeWts), t, edgeWts, xn, x, k, i, v, path, j, su, sa)
    {
      x, vis := xn, {};
      v, su, sa, sb, path, j := Find(k, i);
      if v == -1 {
        assert vis - {} == vis;
        ClosedHoldsAll(|d|, attached, t, |edgeWts|, upx, rank, vis, k, i);
        assert false;
      }
    }

    /** The tree of leaves 0 and 1: one edge between them, weighing d[0][1]. */
    method JoinFirst()
      requires Blank()
      modifies this`t, this`edgeWts, this`attached, this`upx, this`rank
      ensures Valid() && attached == 2 && |t| == |d| && Branching(|d|, t)
      ensures t[1] == [Half(0, 0)] && edgeWts == [d[0][1]]
    {
      edgeWts := [d[0][1]];
      t := t[0 := [Half(1, 0)]];
      t := t[1 := [Half(0, 0)]];
      attached := 2;
      upx := seq(|t|, _ => 0);
      rank := seq(|t|, u => if u == 0 then 0 else 1);
      assert HalfShaped(|d|, 2, t, 1, 0, 0) && HalfShaped(|d|, 2, t, 1, 1, 0);
    }

    /** Leaf n joins node v by a new edge of weight w, whose label is the next one. */
    method Attach(n: int, v: int, w: real)
      requires Valid() && attached == n < |d| && 0 <= v < |t| && InTree(|d|, attached, |t|, v)
      modifies this`t, this`edgeWts, this`attached, this`upx, this`rank
      ensures Valid() && attached == n + 1
      ensures t == AttachTree(old(t), n, v, old(|edgeWts|)) && edgeWts == old(edgeWts) + [w]
    {
      var y := |edgeWts|;
      var w1 := edgeWts + [w];
      var t1 := t[n := [Half(v, y)]];
      t1 := t1[v := t1[v] + [Half(n, y)]];
      assert t1 == AttachTree(t, n, v, y);
      var upx', rank' := upx[n := 0], rank[n := rank[v] + 1];
      AttachKeeps(|d|, attached, t, y, upx, rank, v, t1, n + 1, |w1|, upx', rank');
      t, edgeWts, attached, upx, rank := t1, w1, n + 1, upx', rank';
    }
  }

  /** The limb weight of leaf n as the tree is built: the distance d[0][1] for leaf 1,
      otherwise half the least limb score over i < n-1, with k = n-1. */
  ghost predicate LimbOf(d: Matrix, n: int, w: real)
    requires IsSquare(d) && 1 <= n < |d|
  {
    if n == 1 then w == d[0][1]
    else
      var k := n - 1;
      (forall i :: 0 <= i < k ==> 2.0 * w <= LimbScore(d, n, k, i)) &&
      exists i :: 0 <= i < k && 2.0 * w == LimbScore(d, n, k, i)
  }

  /** The unrooted tree of an additive distance matrix: leaves 0 .. |d|-1 first, internal
      nodes after them, an undirected, simple and connected graph in which every internal
      node has at least three neighbours, with one weight per edge. */
  method AdditiveTree(d: Matrix) returns (t: AdjacencyList, edgeWts: seq<real>, panicked: bool)
    requires IsSquare(d)
    ensures panicked <==> |d| < 2
    ensures !panicked ==>
      Undirected(t, |edgeWts|) && Simple(t) && Connected(t) && Branching(|d|, t) &&
      |d| <= |t| <= 2 * |d| - 2 && |edgeWts| == |t| - 1
    ensures !panicked ==>
      |t[|d| - 1]| == 1 && t[|d| - 1][0].lbl == |edgeWts| - 1 && LimbOf(d, |d| - 1, edgeWts[|edgeWts| - 1])
  {
    if |d| < 2 {
      // ap(len(d) - 1) indexes row k = len(d) - 2 < 0 of d
      t, edgeWts, panicked := [], [], true;
      return;
    }
    panicked := false;
    var b := new Builder(d);
    ghost var t1, w1, li, ts, ws, v, path, j, su, sa, sb := b.Ap(|d| - 1);
    t, edgeWts := b.t, b.edgeWts;
    ShapedGraph(|d|, |d|, t, |edgeWts|);
    ShapedConnected(|d|, t, |edgeWts|, b.upx, b.rank);
  }
}
