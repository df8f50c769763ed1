/** The demonstration graph of revised_code.py:86-94 and what shortest_path answers on
    it, derived from the contracts of the search alone. */
module Demo {
  import opened Graphs
  import opened ShortestPaths

  /** The graph of the demonstration. */
  const Sample: Graph := map[
    "A" := [Edge("B", 1), Edge("C", 4)],
    "B" := [Edge("C", 2), Edge("D", 5)],
    "C" := [Edge("D", 1)],
    "D" := [Edge("E", 3)],
    "E" := []
  ]

  /** The route the demonstration prints, at cost 7. */
  const Chain: seq<Node> := ["A", "B", "C", "D", "E"]

  /** The cost of the cheapest walk from A to each node of Sample. */
  function DistanceFromA(v: Node): int
  {
    if v == "B" then 1
    else if v == "C" then 3
    else if v == "D" then 4
    else if v == "E" then 7
    else 0
  }

  lemma SampleIsWellFormed()
    ensures Closed(Sample) && NonNegative(Sample)
  {
  }

  /** No edge of Sample makes a walk from A cheaper than DistanceFromA. */
  lemma DistanceFromAIsFeasible()
    ensures Feasible(Sample, DistanceFromA)
  {
    forall u, e | u in Sample && e in Sample[u]
      ensures DistanceFromA(e.neighbour) <= DistanceFromA(u) + e.cost
    {
      var _ := EdgeOfSample(u, e);
    }
  }

  /** The edges that keep DistanceFromA exact are the four steps of Chain. */
  lemma OnlyChainIsTight()
    ensures TightOnlyAlong(Sample, DistanceFromA, Chain)
  {
    forall u, e | u in Sample && e in Sample[u] && DistanceFromA(e.neighbour) == DistanceFromA(u) + e.cost
      ensures exists i :: 0 <= i < |Chain| - 1 && u == Chain[i] && e.neighbour == Chain[i + 1]
    {
      var i := EdgeOfSample(u, e);
      assert u == Chain[i] && e.neighbour == Chain[i + 1];
    }
  }

  /** The adjacency lists of Sample, edge by edge: each respects DistanceFromA, and
      the tight ones lead from Chain[i] to Chain[i + 1]. */
  lemma EdgeOfSample(u: Node, e: Edge) returns (i: nat)
    requires u in Sample && e in Sample[u]
    ensures DistanceFromA(e.neighbour) <= DistanceFromA(u) + e.cost
    ensures DistanceFromA(e.neighbour) == DistanceFromA(u) + e.cost ==>
      i < |Chain| - 1 && u == Chain[i] && e.neighbour == Chain[i + 1]
  {
    if u == "A" {
      assert e == Edge("B", 1) || e == Edge("C", 4);
      i := 0;
    } else if u == "B" {
      assert e == Edge("C", 2) || e == Edge("D", 5);
      i := 1;
    } else if u == "C" {
      assert e == Edge("D", 1);
      i := 2;
    } else if u == "D" {
      assert e == Edge("E", 3);
      i := 3;
    } else {
      assert false;
    }
  }

  /** Chain names each node once. */
  lemma ChainIsDistinct()
    ensures Distinct(Chain)
  {
  }

  /** Chain is a walk through Sample from A to E costing 7. */
  lemma ChainIsRoute()
    ensures WalkBetween(Sample, Chain, 7, "A", "E")
  {
    assert IsWalk(Sample, Chain[..4], 4) by {
      assert IsWalk(Sample, Chain[..3], 3) by {
        assert IsWalk(Sample, Chain[..2], 1) by {
          assert Chain[..2][..1] == ["A"];
        }
        assert Chain[..3][..2] == Chain[..2];
      }
      assert Chain[..4][..3] == Chain[..3];
    }
    assert Chain[..4] == Chain[..|Chain| - 1];
  }

  /** The only answer a search of Sample from A to E that returns a path can give. */
  lemma AnswerFromAToE(r: Outcome)
    requires r.Result? && SearchOutcome(Sample, "A", "E", r)
    ensures r == Result(7, Chain)
  {
    assert DistanceFromA("E") - DistanceFromA("A") == 7;
    SampleIsWellFormed();
    ChainIsRoute();
    DistanceFromAIsFeasible();
    OnlyChainIsTight();
    ChainIsDistinct();
    CertifiedAnswer(Sample, "A", "E", DistanceFromA, Chain, 7, r);
  }

  /** shortest_path(graph, 'A', 'E') of the demonstration: (7, ['A', 'B', 'C', 'D', 'E']). */
  method ShortestFromAToE() returns (r: Outcome)
    ensures r == Result(7, Chain)
  {
    ghost var pops;
    r, pops := ShortestPath(Sample, "A", "E");
    SampleIsWellFormed();
    AnswerFromAToE(r);
  }

  /** A search from a node to itself answers that node at cost 0. */
  method ShortestFromAToA() returns (r: Outcome)
    ensures r == Result(0, ["A"])
  {
    ghost var pops;
    r, pops := ShortestPath(Sample, "A", "A");
  }

  /** E has no out-edges, so nothing but E is reachable from it. */
  lemma OnlyEFromE(v: Node)
    requires Reachable(Sample, "E", v)
    ensures v == "E"
  {
    var w, c :| WalkBetween(Sample, w, c, "E", v);
    WalkStaysInside(Sample, {"E"}, w, c);
  }

  /** Edges run one way only: from E back to A there is no path. */
  method ShortestFromEToA() returns (r: Outcome)
    ensures r == Result(-1, [])
  {
    ghost var pops;
    r, pops := ShortestPath(Sample, "E", "A");
    SampleIsWellFormed();
    if Reachable(Sample, "E", "A") {
      OnlyEFromE("A");
    }
  }

  /** A node that is not a key of the graph is refused before any search. */
  method ShortestToMissingNode() returns (r: Outcome)
    ensures r == Result(-1, [])
  {
    ghost var pops;
    r, pops := ShortestPath(Sample, "A", "Z");
  }

  /** A graph whose adjacency list names a node that is not a key. */
  const Dangling: Graph := map["A" := [Edge("Z", 1)], "B" := []]

  /** From A only Z is reachable besides A itself. */
  lemma FromAInDangling(v: Node)
    requires Reachable(Dangling, "A", v)
    ensures v == "A" || v == "Z"
  {
    var w, c :| WalkBetween(Dangling, w, c, "A", v);
    WalkStaysInside(Dangling, {"A", "Z"}, w, c);
  }

  /** Searching Dangling from A for B expands Z, which has no adjacency list:
      graph[current] raises KeyError('Z'). */
  method SearchThroughMissingKey() returns (r: Outcome)
    ensures r == KeyError("Z")
  {
    ghost var pops;
    r, pops := ShortestPath(Dangling, "A", "B");
    assert Reachable(Dangling, "A", "Z") by {
      assert WalkBetween(Dangling, ["A", "Z"], 1, "A", "Z") by {
        assert ["A", "Z"][..1] == ["A"];
      }
    }
    if Reachable(Dangling, "A", "B") {
      FromAInDangling("B");
    }
    if r.KeyError? {
      FromAInDangling(r.key);
    }
  }

  /** A graph where B is reachable from A, but only after the non-key Z. */
  const Detour: Graph := map["A" := [Edge("Z", 1), Edge("B", 5)], "B" := []]

  /** The cost of the cheapest walk from A to each node of Detour. */
  function DetourDistance(v: Node): int
  {
    if v == "Z" then 1 else if v == "B" then 5 else 0
  }

  /** Detour's edges are not negative, DetourDistance is a feasible potential of it,
      B is reachable from A by the edge of cost 5, and Z, which is not a key, by the
      edge of cost 1. */
  lemma DetourFacts()
    ensures NonNegative(Detour) && Feasible(Detour, DetourDistance)
    ensures WalkBetween(Detour, ["A", "B"], 5, "A", "B")
    ensures |["A", "Z"]| > 0 && IsWalk(Detour, ["A", "Z"], 1) && ["A", "Z"][0] == "A" && Last(["A", "Z"]) !in Detour
  {
    assert ["A", "B"][..1] == ["A"];
    assert ["A", "Z"][..1] == ["A"];
  }

  /** From A in Detour only A, Z and B are reachable. */
  lemma FromAInDetour(v: Node)
    requires Reachable(Detour, "A", v)
    ensures v == "A" || v == "Z" || v == "B"
  {
    var w, c :| WalkBetween(Detour, w, c, "A", v);
    WalkStaysInside(Detour, {"A", "Z", "B"}, w, c);
  }

  /** Searching Detour from A for B pops Z at cost 1 before B at cost 5, and expanding
      Z raises KeyError('Z'), although B is reachable. */
  method DetourThroughMissingKey() returns (r: Outcome)
    ensures r == KeyError("Z")
  {
    ghost var pops;
    r, pops := ShortestPath(Detour, "A", "B");
    DetourFacts();
    if r.Result? && r.path != [] {
      PotentialBound(Detour, DetourDistance, r.path, r.cost);
      assert false;
    }
    if r.KeyError? {
      FromAInDetour(r.key);
    }
  }

  /** A graph where A's edge to the non-key Z costs more than its edge to B. */
  const Shortcut: Graph := map["A" := [Edge("Z", 5), Edge("B", 1)], "B" := []]

  /** A lower bound on the cost of walks from A in Shortcut, under which only the edge
      from A to B is tight. */
  function ShortcutBound(v: Node): int
  {
    if v == "B" then 1 else if v == "Z" then 4 else 0
  }

  /** The adjacency lists of Shortcut, edge by edge: no cost is negative, each edge
      respects ShortcutBound, and the only tight one leads from A to B. */
  lemma EdgeOfShortcut(u: Node, e: Edge)
    requires u in Shortcut && e in Shortcut[u]
    ensures e.cost >= 0 && ShortcutBound(e.neighbour) <= ShortcutBound(u) + e.cost
    ensures ShortcutBound(e.neighbour) == ShortcutBound(u) + e.cost ==> u == "A" && e.neighbour == "B"
  {
    if u == "A" {
      assert e == Edge("Z", 5) || e == Edge("B", 1);
    } else {
      assert false;
    }
  }

  /** Shortcut's edges are not negative, and ShortcutBound is a feasible potential of
      it whose only tight edge is the step A, B. */
  lemma ShortcutIsCertified()
    ensures NonNegative(Shortcut) && Feasible(Shortcut, ShortcutBound)
    ensures TightOnlyAlong(Shortcut, ShortcutBound, ["A", "B"]) && Distinct(["A", "B"])
  {
    forall u, e | u in Shortcut && e in Shortcut[u]
      ensures e.cost >= 0 && ShortcutBound(e.neighbour) <= ShortcutBound(u) + e.cost
    {
      EdgeOfShortcut(u, e);
    }
    forall u, e | u in Shortcut && e in Shortcut[u] && ShortcutBound(e.neighbour) == ShortcutBound(u) + e.cost
      ensures exists i :: 0 <= i < |["A", "B"]| - 1 && u == ["A", "B"][i] && e.neighbour == ["A", "B"][i + 1]
    {
      EdgeOfShortcut(u, e);
      assert u == ["A", "B"][0] && e.neighbour == ["A", "B"][1];
    }
  }

  /** The step A, B is a walk through Shortcut costing 1, the rise of ShortcutBound. */
  lemma ShortcutRoute()
    ensures IsWalk(Shortcut, ["A", "B"], 1) && WalkBetween(Shortcut, ["A", "B"], 1, "A", "B")
    ensures ShortcutBound("B") - ShortcutBound("A") == 1
  {
    assert ["A", "B"][..1] == ["A"];
  }

  /** From A in Shortcut only A, Z and B are reachable. */
  lemma FromAInShortcut(v: Node)
    requires Reachable(Shortcut, "A", v)
    ensures v == "A" || v == "Z" || v == "B"
  {
    var w, c :| WalkBetween(Shortcut, w, c, "A", v);
    WalkStaysInside(Shortcut, {"A", "Z", "B"}, w, c);
  }

  /** Every walk from A to Z in Shortcut costs at least 4. */
  lemma ReachingZCostsFour(w: seq<Node>, c: int)
    requires WalkBetween(Shortcut, w, c, "A", "Z")
    ensures c >= 4
  {
    ShortcutIsCertified();
    PotentialBound(Shortcut, ShortcutBound, w, c);
  }

  /** No search of Shortcut from A to B can end in KeyError: Z costs at least 4 to
      reach, and B only 1, so B is popped first. */
  lemma ShortcutNotKeyError(r: Outcome)
    requires SearchOutcome(Shortcut, "A", "B", r)
    ensures r.Result?
  {
    if r.KeyError? {
      FromAInShortcut(r.key);
      assert r.key == "Z";
      ShortcutIsCertified();
      ShortcutRoute();
      var c :| ReachedFirst(Shortcut, "A", "B", r.key, c);
      var w :| WalkBetween(Shortcut, w, c, "A", r.key);
      ReachingZCostsFour(w, c);
      assert false;
    }
  }

  /** Searching Shortcut from A for B pops B at cost 1 before Z at cost 5 and returns
      (1, ['A', 'B']); graph['Z'] is never evaluated. */
  method ShortestThroughShortcut() returns (r: Outcome)
    ensures r == Result(1, ["A", "B"])
  {
    ghost var pops;
    r, pops := ShortestPath(Shortcut, "A", "B");
    ShortcutNotKeyError(r);
    ShortcutIsCertified();
    ShortcutRoute();
    CertifiedAnswer(Shortcut, "A", "B", ShortcutBound, ["A", "B"], 1, r);
  }
}
