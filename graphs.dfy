/** Weighted directed graphs as the search engine receives them: a dictionary from
    node name to its adjacency list of (neighbour, edge cost) pairs, and the walks
    through such a graph. */
module Graphs {

  /** Node identifiers are strings in the source. */
  type Node = string

  /** One entry of an adjacency list: the neighbour and the cost of the edge to it. */
  datatype Edge = Edge(neighbour: Node, cost: int)

  type Graph = map<Node, seq<Edge>>

  /** The out-edges of u; a node that is not a key has none. */
  function Neighbours(g: Graph, u: Node): seq<Edge>
  {
    if u in g then g[u] else []
  }

  function Last(w: seq<Node>): Node
    requires |w| > 0
  {
    w[|w| - 1]
  }

  /** w is a walk through g whose edge costs add up to c. Because parallel edges may
      carry different costs, one node sequence may be a walk at several costs. */
  ghost predicate IsWalk(g: Graph, w: seq<Node>, c: int)
    decreases |w|
  {
    if |w| <= 1 then |w| == 1 && c == 0
    else
      exists e :: e in Neighbours(g, w[|w| - 2]) && e.neighbour == w[|w| - 1] && IsWalk(g, w[..|w| - 1], c - e.cost)
  }

  ghost predicate WalkBetween(g: Graph, w: seq<Node>, c: int, s: Node, t: Node)
  {
    |w| > 0 && IsWalk(g, w, c) && w[0] == s && Last(w) == t
  }

  ghost predicate Reachable(g: Graph, s: Node, t: Node)
  {
    exists w, c :: WalkBetween(g, w, c, s, t)
  }

  /** The engine's correctness rests on this: no edge has a negative cost. */
  ghost predicate NonNegative(g: Graph)
  {
    forall u, e :: u in g && e in g[u] ==> e.cost >= 0
  }

  /** Every neighbour named in an adjacency list is itself a key of the graph. */
  ghost predicate Closed(g: Graph)
  {
    forall u, e :: u in g && e in g[u] ==> e.neighbour in g
  }

  /** No edge leaves the node set s. */
  ghost predicate ClosedUnder(g: Graph, s: set<Node>)
  {
    forall u, e :: u in s && e in Neighbours(g, u) ==> e.neighbour in s
  }

  predicate Distinct(w: seq<Node>)
  {
    forall i, j :: 0 <= i < j < |w| ==> w[i] != w[j]
  }

  /** Appending an out-edge of the last node extends a walk by that edge's cost. */
  lemma WalkExtend(g: Graph, w: seq<Node>, c: int, e: Edge)
    requires |w| > 0 && IsWalk(g, w, c) && e in Neighbours(g, Last(w))
    ensures IsWalk(g, w + [e.neighbour], c + e.cost)
    ensures (w + [e.neighbour])[0] == w[0]
  {
    var w' := w + [e.neighbour];
    assert w'[..|w'| - 1] == w;
  }

  /** The last edge of a walk of two nodes or more, and the walk before it. */
  lemma LastEdge(g: Graph, w: seq<Node>, c: int) returns (e: Edge)
    requires |w| >= 2 && IsWalk(g, w, c)
    ensures e in Neighbours(g, w[|w| - 2]) && e.neighbour == Last(w)
    ensures IsWalk(g, w[..|w| - 1], c - e.cost)
  {
    e :| e in Neighbours(g, w[|w| - 2]) && e.neighbour == w[|w| - 1] && IsWalk(g, w[..|w| - 1], c - e.cost);
  }

  /** With non-negative edge costs every walk costs at least zero. */
  lemma {:induction false} WalkCostNonNegative(g: Graph, w: seq<Node>, c: int)
    requires NonNegative(g) && IsWalk(g, w, c)
    ensures c >= 0
    decreases |w|
  {
    if |w| > 1 {
      var e :| e in Neighbours(g, w[|w| - 2]) && e.neighbour == w[|w| - 1] && IsWalk(g, w[..|w| - 1], c - e.cost);
      WalkCostNonNegative(g, w[..|w| - 1], c - e.cost);
    }
  }

  /** With non-negative edge costs every prefix of a walk is a walk that costs no more. */
  lemma {:induction false} WalkPrefix(g: Graph, w: seq<Node>, c: int, k: nat) returns (c': int)
    requires NonNegative(g) && IsWalk(g, w, c) && 0 < k <= |w|
    ensures c' <= c && IsWalk(g, w[..k], c')
    decreases |w|
  {
    if k == |w| {
      assert w[..k] == w;
      c' := c;
    } else {
      var e :| e in Neighbours(g, w[|w| - 2]) && e.neighbour == w[|w| - 1] && IsWalk(g, w[..|w| - 1], c - e.cost);
      c' := WalkPrefix(g, w[..|w| - 1], c - e.cost, k);
      assert w[..|w| - 1][..k] == w[..k];
    }
  }

  /** With non-negative edge costs, the edge by which a walk enters w[j] follows a
      prefix walk to w[j - 1], and the two together cost no more than the whole walk. */
  lemma WalkStep(g: Graph, w: seq<Node>, c: int, j: nat) returns (c0: int, e: Edge)
    requires NonNegative(g) && IsWalk(g, w, c) && 0 < j < |w|
    ensures IsWalk(g, w[..j], c0) && c0 + e.cost <= c
    ensures e in Neighbours(g, w[j - 1]) && e.neighbour == w[j]
  {
    var c' := WalkPrefix(g, w, c, j + 1);
    var prefix := w[..j + 1];
    e := LastEdge(g, prefix, c');
    assert prefix[..j] == w[..j];
    c0 := c' - e.cost;
  }

  /** A walk that starts inside a node set no edge leaves also ends inside it. */
  lemma {:induction false} WalkStaysInside(g: Graph, s: set<Node>, w: seq<Node>, c: int)
    requires ClosedUnder(g, s) && |w| > 0 && IsWalk(g, w, c) && w[0] in s
    ensures Last(w) in s
    decreases |w|
  {
    if |w| > 1 {
      var e :| e in Neighbours(g, w[|w| - 2]) && e.neighbour == w[|w| - 1] && IsWalk(g, w[..|w| - 1], c - e.cost);
      WalkStaysInside(g, s, w[..|w| - 1], c - e.cost);
    }
  }

  /** In a graph whose adjacency lists name only keys, whatever a key reaches is a key. */
  lemma ReachableFromKeyIsKey(g: Graph, s: Node, t: Node)
    requires Closed(g) && s in g && Reachable(g, s, t)
    ensures t in g
  {
    var w, c :| WalkBetween(g, w, c, s, t);
    WalkStaysInside(g, g.Keys, w, c);
  }

  /** pot is a feasible potential of g: along no edge does pot rise by more than the
      edge costs. */
  ghost predicate Feasible(g: Graph, pot: Node -> int)
  {
    forall u, e :: u in g && e in g[u] ==> pot(e.neighbour) <= pot(u) + e.cost
  }

  /** Every edge along which pot rises by exactly its cost is a step of the route ch. */
  ghost predicate TightOnlyAlong(g: Graph, pot: Node -> int, ch: seq<Node>)
  {
    forall u, e :: u in g && e in g[u] && pot(e.neighbour) == pot(u) + e.cost ==>
      exists i :: 0 <= i < |ch| - 1 && u == ch[i] && e.neighbour == ch[i + 1]
  }

  /** A feasible potential bounds the cost of every walk from below: the certificate
      that a route is a shortest one. */
  lemma {:induction false} PotentialBound(g: Graph, pot: Node -> int, w: seq<Node>, c: int)
    requires Feasible(g, pot) && |w| > 0 && IsWalk(g, w, c)
    ensures c >= pot(Last(w)) - pot(w[0])
    decreases |w|
  {
    if |w| > 1 {
      var e := LastEdge(g, w, c);
      PotentialBound(g, pot, w[..|w| - 1], c - e.cost);
    }
  }

  /** A walk that starts where ch starts and meets the potential bound exactly is a
      prefix of ch, when the tight edges are all steps of ch and ch repeats no node. */
  lemma {:induction false} TightWalkFollows(g: Graph, pot: Node -> int, ch: seq<Node>, w: seq<Node>, c: int)
    requires Feasible(g, pot) && TightOnlyAlong(g, pot, ch) && Distinct(ch) && |ch| > 0
    requires |w| > 0 && IsWalk(g, w, c) && w[0] == ch[0] && c == pot(Last(w)) - pot(w[0])
    ensures |w| <= |ch| && w == ch[..|w|]
    decreases |w|
  {
    if |w| > 1 {
      var e := LastEdge(g, w, c);
      var before := w[..|w| - 1];
      PotentialBound(g, pot, before, c - e.cost);
      TightWalkFollows(g, pot, ch, before, c - e.cost);
      var i :| 0 <= i < |ch| - 1 && Last(before) == ch[i] && e.neighbour == ch[i + 1];
      assert Last(before) == ch[|before| - 1];
      assert i == |before| - 1;
      assert w == before + [ch[i + 1]];
    }
  }

  /** The total length of the adjacency lists of the nodes in s. */
  ghost function DegreeSum(g: Graph, s: set<Node>): nat
  {
    if s == {} then 0
    else
      var u :| u in s;
      |Neighbours(g, u)| + DegreeSum(g, s - {u})
  }

  lemma {:induction false} DegreeSumRemove(g: Graph, s: set<Node>, x: Node)
    requires x in s
    ensures DegreeSum(g, s) == |Neighbours(g, x)| + DegreeSum(g, s - {x})
    decreases s
  {
    var u :| u in s && DegreeSum(g, s) == |Neighbours(g, u)| + DegreeSum(g, s - {u});
    if u != x {
      DegreeSumRemove(g, s - {u}, x);
      DegreeSumRemove(g, s - {x}, u);
      assert s - {u} - {x} == s - {x} - {u};
    }
  }

  lemma {:induction false} DegreeSumMonotonic(g: Graph, s: set<Node>, t: set<Node>)
    requires s <= t
    ensures DegreeSum(g, s) <= DegreeSum(g, t)
    decreases t
  {
    if s != t {
      assert exists y :: y in t && y !in s;
      var x :| x in t && x !in s;
      DegreeSumRemove(g, t, x);
      DegreeSumMonotonic(g, s, t - {x});
    }
  }
}
