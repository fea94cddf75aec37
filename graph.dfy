/** The pieces of the graph library that the tree builders produce, as plain values:
    a labelled adjacency list whose labels index a shared list of edge weights, and the
    properties of such a list that make it a tree. */
module Graph {

  datatype Option<T> = None | Some(value: T)

  /** One half of an undirected edge as stored at one endpoint: the other endpoint and
      the edge label (lbl), an index into the weight list. */
  datatype Half = Half(to: int, lbl: int)

  /** Node u's incident half-edges are t[u]. */
  type AdjacencyList = seq<seq<Half>>

  /** Every half-edge names a node of the list and a label below nLabels, and every
      half-edge u -> v labelled y has its reciprocal v -> u with the same label y. */
  ghost predicate Undirected(t: AdjacencyList, nLabels: int)
  {
    (forall u, a :: 0 <= u < |t| && 0 <= a < |t[u]| ==>
        0 <= t[u][a].to < |t| && 0 <= t[u][a].lbl < nLabels) &&
    (forall u, a {:trigger Reciprocated(t, u, a)} :: 0 <= u < |t| && 0 <= a < |t[u]| ==> Reciprocated(t, u, a))
  }

  /** The half-edge at position a of node u's list has its reciprocal at the other end.
      (Undirected names this predicate as its trigger, so that the existential inside is
      opened only where a proof asks for it.) */
  ghost predicate Reciprocated(t: AdjacencyList, u: int, a: int)
    requires 0 <= u < |t| && 0 <= a < |t[u]|
  {
    0 <= t[u][a].to < |t| && Half(u, t[u][a].lbl) in t[t[u][a].to]
  }

  /** No node lists itself, and no node lists the same neighbour twice. */
  ghost predicate Simple(t: AdjacencyList)
  {
    (forall u, a :: 0 <= u < |t| && 0 <= a < |t[u]| ==> t[u][a].to != u) &&
    (forall u, a, b :: 0 <= u < |t| && 0 <= a < b < |t[u]| ==> t[u][a].to != t[u][b].to)
  }

  /** The sum of a list of weights, accumulated from the left. */
  function Sum(s: seq<real>): real
  {
    if s == [] then 0.0 else Sum(s[..|s| - 1]) + s[|s| - 1]
  }

  /** Every member of node set s is a node, and each of its neighbours is in c. */
  ghost predicate Spans(t: AdjacencyList, s: set<int>, c: set<int>)
  {
    forall u {:trigger Explored(t, u, c)} :: u in s ==> Explored(t, u, c)
  }

  /** u is a node and every neighbour of u is in c. (Spans names this predicate as its
      trigger, so that its facts are drawn only where a proof asks for them.) */
  ghost predicate Explored(t: AdjacencyList, u: int, c: set<int>)
  {
    0 <= u < |t| && forall a :: 0 <= a < |t[u]| ==> t[u][a].to in c
  }

  /** Node set c is closed: every neighbour of a member is a member. */
  ghost predicate Closed(t: AdjacencyList, c: set<int>)
  {
    Spans(t, c, c)
  }

  /** Every node of t is reachable from node 0: a node set that holds 0 and is closed
      under neighbours holds every node. */
  ghost predicate Connected(t: AdjacencyList)
  {
    forall c :: Closed(t, c) && 0 in c ==> forall u :: 0 <= u < |t| ==> u in c
  }
}
