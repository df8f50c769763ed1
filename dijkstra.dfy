/** The single-pair shortest-path search (dijkstra and shortest_path,
    revised_code.py:45-83): a lazy-deletion Dijkstra search over a PriorityQueue of
    (cost, (node, path)) entries and a set of visited nodes. */
module ShortestPaths {
  import opened Graphs
  import opened PriorityQueues

  /** The payload the search queues: the node reached and the nodes before it. */
  datatype Candidate = Candidate(node: Node, path: seq<Node>)

  /** What the source's functions can do: return the tuple (cost, path), where
      (-1, []) means "no path", or raise KeyError when a node that is not a key of
      the graph is expanded (graph[current], revised_code.py:66). */
  datatype Outcome = Result(cost: int, path: seq<Node>) | KeyError(key: Node)

  /** The nodes of a candidate's route, the candidate itself included. */
  function Route(q: Entry<Candidate>): seq<Node>
  {
    q.item.path + [q.item.node]
  }

  /** A queued candidate: its route is a walk from start costing its priority, and
      the nodes before it are distinct and already visited. */
  ghost predicate WellFormedEntry(g: Graph, start: Node, visited: set<Node>, q: Entry<Candidate>)
  {
    && WalkBetween(g, Route(q), q.priority, start, q.item.node)
    && Distinct(q.item.path)
    && (forall x :: x in q.item.path ==> x in visited)
  }

  /** Some queued candidate reaches v at a cost of at most bound. */
  ghost predicate Queued(queue: multiset<Entry<Candidate>>, v: Node, bound: int)
  {
    exists q :: q in queue && q.item.node == v && q.priority <= bound
  }

  /** Every edge out of a visited node u leads to a visited node or has been queued
      at u's distance plus the edge's cost. */
  ghost predicate Frontier(g: Graph, dist: map<Node, int>, queue: multiset<Entry<Candidate>>)
  {
    forall u, e :: u in dist && e in Neighbours(g, u) ==>
      e.neighbour in dist || Queued(queue, e.neighbour, dist[u] + e.cost)
  }

  /** The distance recorded for a visited node is no more than any walk to it. */
  ghost predicate Settled(g: Graph, start: Node, dist: map<Node, int>)
  {
    forall w, c :: IsWalk(g, w, c) && |w| > 0 && w[0] == start && Last(w) in dist ==> dist[Last(w)] <= c
  }

  /** The loop invariant of the search. dist maps every visited node to the cost at
      which it was popped first; the visited set of the source is dist.Keys. */
  ghost predicate SearchInvariant(g: Graph, start: Node, end: Node, dist: map<Node, int>, queue: multiset<Entry<Candidate>>)
  {
    && dist.Keys <= g.Keys
    && end !in dist
    && (dist != map[] ==> start in dist)
    && (dist == map[] ==> queue == multiset{Entry(0, Candidate(start, []))})
    && (forall q :: q in queue ==> WellFormedEntry(g, start, dist.Keys, q))
    && Frontier(g, dist, queue)
    && (NonNegative(g) ==> Settled(g, start, dist))
  }

  ghost predicate IsMinimum(e: Entry<Candidate>, queue: multiset<Entry<Candidate>>)
  {
    e in queue && forall q :: q in queue ==> e.priority <= q.priority
  }

  /** The adjacency list of a node, turned into the entries the search pushes for it. */
  function Expansions(edges: seq<Edge>, cost: int, path: seq<Node>): seq<Entry<Candidate>>
  {
    seq(|edges|, k requires 0 <= k < |edges| => Entry(cost + edges[k].cost, Candidate(edges[k].neighbour, path)))
  }

  /** The first node of a walk that lies outside s. */
  lemma FirstOutside(w: seq<Node>, s: set<Node>) returns (j: nat)
    requires |w| > 0 && Last(w) !in s
    ensures j < |w| && w[j] !in s
    ensures forall i :: 0 <= i < j ==> w[i] in s
  {
    j := 0;
    while w[j] in s
      invariant j < |w|
      invariant forall i :: 0 <= i < j ==> w[i] in s
      decreases |w| - j
    {
      j := j + 1;
    }
  }

  /** Where a walk from start first leaves the visited nodes, at w[j], the edge it
      leaves by has been queued at a cost no more than the whole walk's. */
  lemma CrossingIsQueued(g: Graph, start: Node, dist: map<Node, int>, queue: multiset<Entry<Candidate>>, w: seq<Node>, c: int, j: nat)
    requires NonNegative(g) && Frontier(g, dist, queue) && Settled(g, start, dist)
    requires |w| > 0 && IsWalk(g, w, c) && w[0] == start
    requires 0 < j < |w| && w[j - 1] in dist && w[j] !in dist
    ensures Queued(queue, w[j], c)
  {
    var c0, ed := WalkStep(g, w, c, j);
    var before := w[..j];
    assert before[0] == start && Last(before) == w[j - 1];
    assert dist[w[j - 1]] <= c0;
    assert Queued(queue, w[j], dist[w[j - 1]] + ed.cost);
  }

  /** No walk from start that ends outside the node set s costs less than bound. */
  ghost predicate NoCheaperWalkOutside(g: Graph, start: Node, s: set<Node>, bound: int)
  {
    forall w, c :: |w| > 0 && IsWalk(g, w, c) && w[0] == start && Last(w) !in s ==> bound <= c
  }

  /** The greedy argument: with non-negative costs, the smallest queued entry costs no
      more than any walk from start to an unvisited node. Any such walk leaves the
      visited set somewhere; the edge that leaves it was queued at a cost no smaller
      than the popped entry's. */
  lemma PoppedIsShortest(g: Graph, start: Node, end: Node, dist: map<Node, int>, queue: multiset<Entry<Candidate>>, e: Entry<Candidate>)
    requires NonNegative(g) && SearchInvariant(g, start, end, dist, queue)
    requires IsMinimum(e, queue)
    ensures NoCheaperWalkOutside(g, start, dist.Keys, e.priority)
  {
    forall w, c | |w| > 0 && IsWalk(g, w, c) && w[0] == start && Last(w) !in dist.Keys
      ensures e.priority <= c
    {
      var j := FirstOutside(w, dist.Keys);
      if j == 0 {
        assert e == Entry(0, Candidate(start, []));
        WalkCostNonNegative(g, w, c);
      } else {
        CrossingIsQueued(g, start, dist, queue, w, c, j);
      }
    }
  }

  /** What popping an unvisited node tells: its route is a shortest walk to it made of
      distinct nodes, and if it is start itself, it is the seed entry. */
  lemma PoppedUnvisited(g: Graph, start: Node, end: Node, dist: map<Node, int>, queue: multiset<Entry<Candidate>>, e: Entry<Candidate>)
    requires SearchInvariant(g, start, end, dist, queue)
    requires IsMinimum(e, queue) && e.item.node !in dist
    ensures WalkBetween(g, Route(e), e.priority, start, e.item.node)
    ensures Distinct(Route(e))
    ensures NonNegative(g) ==> forall w, c :: WalkBetween(g, w, c, start, e.item.node) ==> e.priority <= c
    ensures NonNegative(g) ==> NoCheaperWalkOutside(g, start, g.Keys, e.priority)
    ensures e.item.node == start ==> e == Entry(0, Candidate(start, []))
  {
    assert WellFormedEntry(g, start, dist.Keys, e);
    if NonNegative(g) {
      PoppedIsShortest(g, start, end, dist, queue, e);
      forall w, c | WalkBetween(g, w, c, start, e.item.node)
        ensures e.priority <= c
      {
        assert Last(w) !in dist.Keys;
      }
    }
  }

  /** An entry pushed for an out-edge of a node just visited is well formed. */
  lemma PushedWellFormed(g: Graph, start: Node, visited: set<Node>, e: Entry<Candidate>, ed: Edge)
    requires WalkBetween(g, Route(e), e.priority, start, e.item.node) && Distinct(Route(e))
    requires forall x :: x in Route(e) ==> x in visited
    requires ed in Neighbours(g, e.item.node)
    ensures WellFormedEntry(g, start, visited, Entry(e.priority + ed.cost, Candidate(ed.neighbour, Route(e))))
  {
    WalkExtend(g, Route(e), e.priority, ed);
  }

  /** After the popped node is visited, every entry left or pushed is well formed. */
  lemma ExpandEntries(g: Graph, start: Node, visited: set<Node>, queue: multiset<Entry<Candidate>>, e: Entry<Candidate>)
    requires forall q :: q in queue ==> WellFormedEntry(g, start, visited, q)
    requires e in queue && e.item.node in g && Distinct(Route(e))
    ensures forall q :: q in queue - multiset{e} + multiset(Expansions(g[e.item.node], e.priority, Route(e))) ==>
      WellFormedEntry(g, start, visited + {e.item.node}, q)
  {
    var u := e.item.node;
    var visited' := visited + {u};
    var pushed := Expansions(g[u], e.priority, Route(e));
    assert WellFormedEntry(g, start, visited, e);
    assert forall x :: x in Route(e) ==> x in visited';
    forall q | q in multiset(pushed)
      ensures WellFormedEntry(g, start, visited', q)
    {
      var k :| 0 <= k < |pushed| && pushed[k] == q;
      assert g[u][k] in Neighbours(g, u);
      PushedWellFormed(g, start, visited', e, g[u][k]);
    }
    forall q | q in queue - multiset{e}
      ensures WellFormedEntry(g, start, visited', q)
    {
      assert WellFormedEntry(g, start, visited, q);
    }
  }

  /** After the popped node is visited, every edge out of a visited node is covered. */
  lemma ExpandFrontier(g: Graph, start: Node, end: Node, dist: map<Node, int>, queue: multiset<Entry<Candidate>>, e: Entry<Candidate>)
    requires Frontier(g, dist, queue)
    requires e in queue && e.item.node in g
    ensures Frontier(g, dist[e.item.node := e.priority],
              queue - multiset{e} + multiset(Expansions(g[e.item.node], e.priority, Route(e))))
  {
    var u := e.item.node;
    var dist' := dist[u := e.priority];
    var pushed := Expansions(g[u], e.priority, Route(e));
    var queue' := queue - multiset{e} + multiset(pushed);
    forall v, ed | v in dist' && ed in Neighbours(g, v) && ed.neighbour !in dist'
      ensures Queued(queue', ed.neighbour, dist'[v] + ed.cost)
    {
      if v == u {
        var k :| 0 <= k < |g[u]| && g[u][k] == ed;
        assert pushed[k] in queue';
      } else {
        var q :| q in queue && q.item.node == ed.neighbour && q.priority <= dist[v] + ed.cost;
        assert q in queue';
      }
    }
  }

  /** Recording the popped cost as the new node's distance keeps every distance minimal. */
  lemma ExpandSettled(g: Graph, start: Node, end: Node, dist: map<Node, int>, queue: multiset<Entry<Candidate>>, e: Entry<Candidate>)
    requires NonNegative(g) && SearchInvariant(g, start, end, dist, queue)
    requires IsMinimum(e, queue) && e.item.node !in dist
    ensures Settled(g, start, dist[e.item.node := e.priority])
  {
    PoppedIsShortest(g, start, end, dist, queue, e);
    var dist' := dist[e.item.node := e.priority];
    forall w, c | IsWalk(g, w, c) && |w| > 0 && w[0] == start && Last(w) in dist'
      ensures dist'[Last(w)] <= c
    {
      if Last(w) == e.item.node {
        assert Last(w) !in dist.Keys;
      }
    }
  }

  /** Visiting the popped node and pushing one entry per out-edge keeps the invariant. */
  lemma Expand(g: Graph, start: Node, end: Node, dist: map<Node, int>, queue: multiset<Entry<Candidate>>, e: Entry<Candidate>)
    requires SearchInvariant(g, start, end, dist, queue)
    requires IsMinimum(e, queue) && e.item.node !in dist
    requires e.item.node != end && e.item.node in g
    ensures SearchInvariant(g, start, end, dist[e.item.node := e.priority],
              queue - multiset{e} + multiset(Expansions(g[e.item.node], e.priority, Route(e))))
  {
    var dist' := dist[e.item.node := e.priority];
    PoppedUnvisited(g, start, end, dist, queue, e);
    ExpandEntries(g, start, dist.Keys, queue, e);
    assert dist'.Keys == dist.Keys + {e.item.node};
    ExpandFrontier(g, start, end, dist, queue, e);
    if NonNegative(g) {
      ExpandSettled(g, start, end, dist, queue, e);
    }
  }

  /** A walk from start reaches v at cost c, and c is no more than any walk from start
      to end or to a node that is not a key: v is popped, at cost c, before any of them. */
  ghost predicate ReachedFirst(g: Graph, start: Node, end: Node, v: Node, c: int)
  {
    && (exists w :: WalkBetween(g, w, c, start, v))
    && (forall w, c' :: WalkBetween(g, w, c', start, end) ==> c <= c')
    && NoCheaperWalkOutside(g, start, g.Keys, c)
  }

  /** What the search promises about its outcome r. */
  ghost predicate SearchOutcome(g: Graph, start: Node, end: Node, r: Outcome)
  {
    // a path returned is a walk of distinct nodes from start to end costing the returned cost
    && (r.Result? && r.path != [] ==> WalkBetween(g, r.path, r.cost, start, end) && Distinct(r.path))
    // with non-negative edge costs, no walk from start to end is cheaper, and no walk
    // from start to a node that is not a key is either (that node would be popped
    // first and its expansion would raise KeyError)
    && (r.Result? && r.path != [] && NonNegative(g) ==>
          && (forall w, c :: WalkBetween(g, w, c, start, end) ==> r.cost <= c)
          && NoCheaperWalkOutside(g, start, g.Keys, r.cost))
    // an empty path comes only as (-1, []), and only when end is unreachable and every
    // node reachable from start is a key (the search expanded them all)
    && (r.Result? && r.path == [] ==>
          r.cost == -1 && !Reachable(g, start, end) && forall v :: Reachable(g, start, v) ==> v in g)
    // KeyError names a node, reachable from start, that is not a key of the graph
    && (r.KeyError? ==> r.key !in g && r.key != end && Reachable(g, start, r.key))
    // with non-negative edge costs, the key is reached no later than end or any other
    // node that is not a key
    && (r.KeyError? && NonNegative(g) ==> exists c :: ReachedFirst(g, start, end, r.key, c))
    // a search from a node to itself stops at the first pop
    && (start == end ==> r == Result(0, [start]))
  }

  /** Popping end unvisited: its route is the answer. */
  lemma ArriveAtEnd(g: Graph, start: Node, end: Node, dist: map<Node, int>, queue: multiset<Entry<Candidate>>, e: Entry<Candidate>)
    requires SearchInvariant(g, start, end, dist, queue)
    requires IsMinimum(e, queue) && e.item.node == end
    ensures SearchOutcome(g, start, end, Result(e.priority, Route(e)))
  {
    PoppedUnvisited(g, start, end, dist, queue, e);
  }

  /** Popping an unvisited node that is not a key: graph[current] raises KeyError. */
  lemma ExpandMissingKey(g: Graph, start: Node, end: Node, dist: map<Node, int>, queue: multiset<Entry<Candidate>>, e: Entry<Candidate>)
    requires SearchInvariant(g, start, end, dist, queue)
    requires IsMinimum(e, queue) && e.item.node !in dist && e.item.node != end && e.item.node !in g
    ensures SearchOutcome(g, start, end, KeyError(e.item.node))
  {
    PoppedUnvisited(g, start, end, dist, queue, e);
    if NonNegative(g) {
      PoppedIsShortest(g, start, end, dist, queue, e);
      forall w, c | WalkBetween(g, w, c, start, end)
        ensures e.priority <= c
      {
        assert Last(w) !in dist.Keys;
      }
      assert ReachedFirst(g, start, end, e.item.node, e.priority);
    }
  }

  /** When the queue runs dry, the visited nodes are closed under the edges and
      contain start but not end, so end is unreachable. */
  lemma Exhausted(g: Graph, start: Node, end: Node, dist: map<Node, int>)
    requires SearchInvariant(g, start, end, dist, multiset{})
    ensures SearchOutcome(g, start, end, Result(-1, []))
  {
    assert ClosedUnder(g, dist.Keys);
    forall v | Reachable(g, start, v)
      ensures v in dist
    {
      var w, c :| WalkBetween(g, w, c, start, v);
      WalkStaysInside(g, dist.Keys, w, c);
    }
  }

  /** On a graph whose edge costs are not negative, a route ch certified by a feasible
      potential (it meets the potential's bound, only its steps are tight, and it
      repeats no node) is the one path a search from its first node to its last can
      return. */
  lemma CertifiedAnswer(g: Graph, start: Node, end: Node, pot: Node -> int, ch: seq<Node>, cost: int, r: Outcome)
    requires NonNegative(g) && |ch| > 0 && ch[0] == start && Last(ch) == end
    requires Feasible(g, pot) && TightOnlyAlong(g, pot, ch) && Distinct(ch)
    requires IsWalk(g, ch, cost) && cost == pot(end) - pot(start)
    requires r.Result? && SearchOutcome(g, start, end, r)
    ensures r == Result(cost, ch)
  {
    assert WalkBetween(g, ch, cost, start, end);
    assert r.path != [];
    PotentialBound(g, pot, r.path, r.cost);
    TightWalkFollows(g, pot, ch, r.path, r.cost);
    assert ch[|r.path| - 1] == ch[|ch| - 1];
  }

  /** The state the loop of dijkstra keeps between rounds: the search invariant over
      the visited set and the queue, and the count of pops so far, which together with
      the entries still queued accounts for the seed and one entry per out-edge of a
      visited node. */
  ghost predicate Searching(g: Graph, start: Node, end: Node, visited: set<Node>, dist: map<Node, int>,
                            queue: multiset<Entry<Candidate>>, pops: nat)
  {
    && visited == dist.Keys
    && SearchInvariant(g, start, end, dist, queue)
    && pops + |queue| == 1 + DegreeSum(g, visited)
  }

  /** The seed entry alone satisfies the loop state. */
  lemma Seeded(g: Graph, start: Node, end: Node)
    ensures Searching(g, start, end, {}, map[], multiset{Entry(0, Candidate(start, []))}, 0)
  {
    assert IsWalk(g, Route(Entry(0, Candidate(start, []))), 0);
  }

  /** Popping an entry whose node is visited and skipping it keeps the loop state. */
  lemma SkipStale(g: Graph, start: Node, end: Node, visited: set<Node>, dist: map<Node, int>,
                  queue: multiset<Entry<Candidate>>, pops: nat, e: Entry<Candidate>)
    requires Searching(g, start, end, visited, dist, queue, pops)
    requires e in queue && e.item.node in visited
    ensures Searching(g, start, end, visited, dist, queue - multiset{e}, pops + 1)
  {
    var rest := queue - multiset{e};
    forall u, ed | u in dist && ed in Neighbours(g, u) && ed.neighbour !in dist
      ensures Queued(rest, ed.neighbour, dist[u] + ed.cost)
    {
      var q :| q in queue && q.item.node == ed.neighbour && q.priority <= dist[u] + ed.cost;
      assert q != e && q in rest;
    }
  }

  /** Popping end unvisited ends the search with its route. */
  lemma ReachEnd(g: Graph, start: Node, end: Node, visited: set<Node>, dist: map<Node, int>,
                 queue: multiset<Entry<Candidate>>, pops: nat, e: Entry<Candidate>)
    requires Searching(g, start, end, visited, dist, queue, pops)
    requires IsMinimum(e, queue) && e.item.node == end
    ensures SearchOutcome(g, start, end, Result(e.priority, Route(e)))
    ensures pops + 1 <= 1 + DegreeSum(g, g.Keys)
  {
    ArriveAtEnd(g, start, end, dist, queue, e);
    DegreeSumMonotonic(g, visited, g.Keys);
  }

  /** Popping an unvisited node that is not a key ends the search with KeyError. */
  lemma ReachMissingKey(g: Graph, start: Node, end: Node, visited: set<Node>, dist: map<Node, int>,
                        queue: multiset<Entry<Candidate>>, pops: nat, e: Entry<Candidate>)
    requires Searching(g, start, end, visited, dist, queue, pops)
    requires IsMinimum(e, queue) && e.item.node !in visited && e.item.node != end && e.item.node !in g
    ensures SearchOutcome(g, start, end, KeyError(e.item.node))
    ensures pops + 1 <= 1 + DegreeSum(g, g.Keys)
  {
    ExpandMissingKey(g, start, end, dist, queue, e);
    DegreeSumMonotonic(g, visited, g.Keys);
  }

  /** Visiting an unvisited key other than end and queueing its out-edges keeps the loop
      state, and the set of unvisited keys shrinks. */
  lemma VisitKey(g: Graph, start: Node, end: Node, visited: set<Node>, dist: map<Node, int>,
                 queue: multiset<Entry<Candidate>>, pops: nat, e: Entry<Candidate>)
    requires Searching(g, start, end, visited, dist, queue, pops)
    requires IsMinimum(e, queue) && e.item.node !in visited && e.item.node != end && e.item.node in g
    ensures Searching(g, start, end, visited + {e.item.node}, dist[e.item.node := e.priority],
                      queue - multiset{e} + multiset(Expansions(g[e.item.node], e.priority, Route(e))), pops + 1)
    ensures g.Keys - (visited + {e.item.node}) < g.Keys - visited
  {
    var u := e.item.node;
    Expand(g, start, end, dist, queue, e);
    DegreeSumRemove(g, visited + {u}, u);
    assert visited + {u} - {u} == visited;
    assert u in g.Keys - visited;
  }

  /** Popping an unvisited node: the three ways the round can go. */
  lemma VisitNode(g: Graph, start: Node, end: Node, visited: set<Node>, dist: map<Node, int>,
                  queue: multiset<Entry<Candidate>>, pops: nat, e: Entry<Candidate>)
    requires Searching(g, start, end, visited, dist, queue, pops)
    requires IsMinimum(e, queue) && e.item.node !in visited
    ensures e.item.node == end ==>
      SearchOutcome(g, start, end, Result(e.priority, Route(e))) && pops + 1 <= 1 + DegreeSum(g, g.Keys)
    ensures e.item.node != end && e.item.node !in g ==>
      SearchOutcome(g, start, end, KeyError(e.item.node)) && pops + 1 <= 1 + DegreeSum(g, g.Keys)
    ensures e.item.node != end && e.item.node in g ==>
      && Searching(g, start, end, visited + {e.item.node}, dist[e.item.node := e.priority],
                   queue - multiset{e} + multiset(Expansions(g[e.item.node], e.priority, Route(e))), pops + 1)
      && g.Keys - (visited + {e.item.node}) < g.Keys - visited
  {
    if e.item.node == end {
      ReachEnd(g, start, end, visited, dist, queue, pops, e);
    } else if e.item.node !in g {
      ReachMissingKey(g, start, end, visited, dist, queue, pops, e);
    } else {
      VisitKey(g, start, end, visited, dist, queue, pops, e);
    }
  }

  /** Pushes one entry per adjacency-list entry, at the popped cost plus the edge's
      cost, carrying the route so far. */
  method PushNeighbours(pq: PriorityQueue<Candidate>, edges: seq<Edge>, cost: int, path: seq<Node>)
    requires pq.Valid()
    modifies pq
    ensures pq.Valid()
    ensures pq.Contents() == old(pq.Contents()) + multiset(Expansions(edges, cost, path))
  {
    ghost var pushed := Expansions(edges, cost, path);
    for i := 0 to |edges|
      invariant pq.Valid()
      invariant pq.Contents() == old(pq.Contents()) + multiset(pushed[..i])
    {
      assert pushed[i] == Entry(cost + edges[i].cost, Candidate(edges[i].neighbour, path));
      assert pushed[..i + 1] == pushed[..i] + [pushed[i]];
      pq.Push(Candidate(edges[i].neighbour, path), cost + edges[i].cost);
    }
    assert pushed[..|edges|] == pushed;
  }

  /** The search of revised_code.py:45-69. pops counts the entries taken off the queue: each
      node is expanded at most once, so there are at most as many as the seed entry
      plus one entry per edge. */
  method Dijkstra(g: Graph, start: Node, end: Node) returns (r: Outcome, ghost pops: nat)
    ensures SearchOutcome(g, start, end, r)
    ensures pops <= 1 + DegreeSum(g, g.Keys)
  {
    var pq := new PriorityQueue<Candidate>();
    pq.Push(Candidate(start, []), 0);
    var visited: set<Node> := {};
    ghost var dist: map<Node, int> := map[];
    ghost var queue := multiset{Entry(0, Candidate(start, []))};
    pops := 0;
    Seeded(g, start, end);
    while !pq.IsEmpty()
      invariant pq.Valid() && pq.Contents() == queue
      invariant Searching(g, start, end, visited, dist, queue, pops)
      decreases g.Keys - visited, |queue|
    {
      var popped := pq.Pop();
      var entry := popped.value;
      var cost, current, path := entry.priority, entry.item.node, entry.item.path;
      if current in visited {
        SkipStale(g, start, end, visited, dist, queue, pops, entry);
        queue, pops := queue - multiset{entry}, pops + 1;
        continue;
      }
      VisitNode(g, start, end, visited, dist, queue, pops, entry);
      visited := visited + {current};
      path := path + [current];
      if current == end {
        return Result(cost, path), pops + 1;
      }
      if current !in g {
        return KeyError(current), pops + 1;
      }
      dist := dist[current := cost];
      PushNeighbours(pq, g[current], cost, path);
      queue, pops := queue - multiset{entry} + multiset(Expansions(g[current], cost, path)), pops + 1;
    }
    Exhausted(g, start, end, dist);
    DegreeSumMonotonic(g, visited, g.Keys);
    return Result(-1, []), pops;
  }

  /** The entry point of revised_code.py:71-83: the guard against an empty graph and
      unknown endpoints, then the search. On a graph whose adjacency lists name only keys the search cannot fail,
      and it answers (-1, []) exactly when end is unreachable. */
  method ShortestPath(g: Graph, start: Node, end: Node) returns (r: Outcome, ghost pops: nat)
    ensures g == map[] || start !in g || end !in g ==> r == Result(-1, []) && pops == 0
    ensures start in g && end in g ==> SearchOutcome(g, start, end, r) && pops <= 1 + DegreeSum(g, g.Keys)
    ensures Closed(g) ==> r.Result?
    ensures Closed(g) && start in g && end in g ==> (r == Result(-1, []) <==> !Reachable(g, start, end))
  {
    if g == map[] || start !in g || end !in g {
      return Result(-1, []), 0;
    }
    r, pops := Dijkstra(g, start, end);
    if r.KeyError? && Closed(g) {
      ReachableFromKeyIsKey(g, start, r.key);
    }
  }
}
