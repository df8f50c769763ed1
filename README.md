# Single-pair shortest paths over a heap-backed priority queue

This project models `revised_code.py`, a small shortest-path engine. A graph is a
dictionary from node name to its adjacency list of `(neighbour, cost)` pairs.

- `dijkstra` runs a lazy-deletion Dijkstra search. It keeps a `PriorityQueue` of
  `(cost, (node, path))` entries and a set of visited nodes.
- `shortest_path` guards against an empty graph and unknown endpoints, then runs the
  search.
- The `PriorityQueue` class wraps Python's `heapq` min-heap of `(priority, item)`
  tuples.

The model has four modules:

- `Graphs` (`graphs.dfy`): graphs, walks and reachability. It defines walks as a
  relation `IsWalk(g, w, c)`, because parallel edges may give one node sequence
  several costs. It also has the potential (dual) certificate that bounds walk costs
  from below.
- `PriorityQueues` (`priority_queue.dfy`): the class `PriorityQueue` with its `heap`
  list as a `seq` field.
  - It writes out the two heap sift loops that `heapq` performs, and proves them to
    keep the heap property and the multiset of entries.
  - `Push` and `Pop` are specified by the multiset `Contents()`.
  - `Pop` also states that it returns an entry of minimum priority.
- `ShortestPaths` (`dijkstra.dfy`): `Dijkstra` and `ShortestPath` as imperative
  methods over that class.
  - The loop is proved against the invariant `Searching`, which includes the greedy
    "first pop is shortest" argument.
  - It is also proved against the outcome predicate `SearchOutcome`, which covers:
    - a returned path is a walk of distinct nodes from start to end at the returned
      cost;
    - with non-negative costs, that path is a cheapest walk, and no walk from start to
      a node that is not a key is cheaper (that node would be popped first);
    - `(-1, [])` comes only when end is unreachable;
    - `KeyError` names a reachable node that is not a key, and with non-negative
      costs that node is reached no later than end or any other non-key (it is
      popped before them);
    - a search from a node to itself answers `(0, [start])`.
  - A ghost counter bounds the number of pops by one plus the total length of all
    adjacency lists.
- `Demo` (`demo.dfy`): the demonstration graph of the source's main block. It derives
  the printed answer `(7, ['A', 'B', 'C', 'D', 'E'])` from the contracts alone, plus
  the other concrete scenarios: E to A, an unknown end node, and a neighbour that is
  not a key, both with end unreachable and with end reachable only at a higher cost.

A neighbour that is not a key of the graph is not a dead end: when it is popped, the
search evaluates `graph[current]` (revised_code.py:66), which raises `KeyError`. The
model returns `KeyError(node)` in that case. `Demo.SearchThroughMissingKey` and
`Demo.DetourThroughMissingKey` show it happening, the second one although end is
reachable. Conversely `Demo.ShortestThroughShortcut` shows a path returned although a
dangling neighbour exists, because end is popped before it. On a graph whose adjacency
lists name only keys (`Closed`), `ShortestPath` proves that no `KeyError` occurs.

## Model

| member | source | states |
|---|---|---|
| PriorityQueues.PriorityQueue.constructor | revised_code.py:5-9 | a new queue is a valid heap holding no entries |
| PriorityQueues.PriorityQueue.Push | revised_code.py:11-18 | the heap property is kept and the entries become the old entries plus (priority, item) |
| PriorityQueues.PriorityQueue.Pop | revised_code.py:20-26 | on an empty queue nothing is returned and nothing changes (IndexError); otherwise it returns an entry held whose priority is no larger than any held, removes exactly that one entry, and keeps the heap property |
| PriorityQueues.PriorityQueue.IsEmpty | revised_code.py:28-34 | true exactly when the queue holds no entries |
| PriorityQueues.SiftUp | revised_code.py:18 | a heap with one too-small element at i becomes a heap with the same multiset of entries (heappush's sift) |
| PriorityQueues.SiftDown | revised_code.py:26 | a heap with one too-large element at i becomes a heap with the same multiset of entries (heappop's sift) |
| PriorityQueues.RiseStep | revised_code.py:18 | swapping a too-small element with its parent moves the heap defect one level up and keeps the entries |
| PriorityQueues.SinkStep | revised_code.py:26 | swapping a too-large element with its smaller child moves the heap defect one level down and keeps the entries |
| PriorityQueues.RootIsMinimal | revised_code.py:26 | the root of a heap has the smallest priority, so heappop returns a minimum |
| Graphs.WalkExtend | revised_code.py:63-67 | a route followed by an out-edge of its last node is a walk costing the route's cost plus the edge cost, as pushed at cost + edge_cost |
| Graphs.WalkCostNonNegative | revised_code.py:55 | with non-negative edge costs every walk costs at least the seed cost 0 |
| Graphs.WalkStaysInside | revised_code.py:58-69 | a walk starting in a node set that no edge leaves ends in that set |
| Graphs.ReachableFromKeyIsKey | revised_code.py:66 | when adjacency lists name only keys, every node reachable from a key is a key, so graph[current] cannot fail |
| Graphs.PotentialBound | revised_code.py:94 | a feasible potential bounds the cost of every walk from below |
| Graphs.TightWalkFollows | revised_code.py:94 | a walk meeting the potential bound exactly is a prefix of the route along which the tight edges lie |
| ShortestPaths.CrossingIsQueued | revised_code.py:66-67 | where a walk from start first leaves the visited set, the edge it leaves by is queued at no more than the walk's cost |
| ShortestPaths.PoppedIsShortest | revised_code.py:59-64 | with non-negative costs, a minimum entry of the queue costs no more than any walk from start to a node not yet visited |
| ShortestPaths.PoppedUnvisited | revised_code.py:59-65 | the route of a popped unvisited node is a walk of distinct nodes from start at the popped cost; under non-negative costs it is shortest, and no walk to a non-key is cheaper |
| ShortestPaths.ExpandEntries | revised_code.py:62-67 | after visiting the popped node, every remaining or pushed entry is a walk from start through visited nodes only |
| ShortestPaths.ExpandFrontier | revised_code.py:66-67 | after the pushes, every edge out of a visited node leads to a visited node or is queued at the tail's distance plus its cost |
| ShortestPaths.ExpandSettled | revised_code.py:62 | recording the popped cost for a newly visited node keeps every recorded distance minimal |
| ShortestPaths.Expand | revised_code.py:62-67 | visiting the popped key and pushing its out-edges keeps the search invariant |
| ShortestPaths.ArriveAtEnd | revised_code.py:63-65 | popping end unvisited makes (cost, path + [end]) a correct answer, cheaper than or as cheap as any walk to end or to a non-key |
| ShortestPaths.ExpandMissingKey | revised_code.py:59-66 | popping an unvisited node that is not a key makes KeyError(node) the correct outcome; with non-negative costs that node's cost is no more than any walk to end or to another non-key |
| ShortestPaths.Exhausted | revised_code.py:58-69 | when the queue runs dry, end is unreachable and every node reachable from start is a key, so (-1, []) is correct |
| ShortestPaths.CertifiedAnswer | revised_code.py:71-83 | with non-negative costs, a route certified by a feasible potential is the only path the search can return |
| ShortestPaths.Seeded | revised_code.py:54-56 | the queue holding only (0, (start, [])) and an empty visited set satisfy the loop state |
| ShortestPaths.SkipStale | revised_code.py:60-61 | discarding a popped entry whose node is visited keeps the loop state |
| ShortestPaths.ReachEnd | revised_code.py:64-65 | popping end unvisited yields a correct answer within the pop bound |
| ShortestPaths.ReachMissingKey | revised_code.py:66 | popping an unvisited non-key yields KeyError(node) within the pop bound |
| ShortestPaths.VisitKey | revised_code.py:62-67 | visiting an unvisited key keeps the loop state and shrinks the set of unvisited keys |
| ShortestPaths.VisitNode | revised_code.py:59-67 | popping an unvisited node ends with end's route, ends with KeyError, or keeps the loop state with fewer unvisited keys |
| ShortestPaths.PushNeighbours | revised_code.py:66-67 | the queue gains exactly one entry (cost + edge_cost, (neighbour, path)) per adjacency-list entry, and the heap stays valid |
| ShortestPaths.Dijkstra | revised_code.py:45-69 | the outcome satisfies SearchOutcome (a distinct-node walk at its cost, shortest under non-negative costs and no dearer than any walk to a non-key (which would have raised KeyError first), (-1, []) only when end is unreachable, KeyError only on a reachable non-key reached no later than end or any other non-key, (0, [start]) when start is end) and the pops are at most 1 + the total adjacency-list length |
| ShortestPaths.ShortestPath | revised_code.py:71-83 | an empty graph or an unknown endpoint gives (-1, []) without searching; otherwise the search's outcome; on a closed graph never KeyError, and (-1, []) exactly when end is unreachable |
| Demo.SampleIsWellFormed | revised_code.py:86-92 | the demonstration graph names only keys and has non-negative costs |
| Demo.EdgeOfSample | revised_code.py:86-92 | each edge of the demonstration graph respects the distances from A, and each tight one is a step of A, B, C, D, E |
| Demo.DistanceFromAIsFeasible | revised_code.py:86-92 | the distances from A are a feasible potential of the demonstration graph |
| Demo.OnlyChainIsTight | revised_code.py:86-92 | the only tight edges of the demonstration graph are the steps of A, B, C, D, E |
| Demo.ChainIsRoute | revised_code.py:94 | A, B, C, D, E is a walk from A to E costing 7 |
| Demo.AnswerFromAToE | revised_code.py:94 | any path outcome that satisfies the search's contract from A to E is (7, [A, B, C, D, E]) |
| Demo.ShortestFromAToE | revised_code.py:94 | shortest_path(graph, 'A', 'E') returns (7, ['A', 'B', 'C', 'D', 'E']) |
| Demo.ShortestFromAToA | revised_code.py:64-65 | a search from A to A returns (0, ['A']) |
| Demo.ShortestFromEToA | revised_code.py:69 | from E, which has no out-edges, A is unreachable: (-1, []) |
| Demo.ShortestToMissingNode | revised_code.py:80-81 | an end node that is not a key gives (-1, []) |
| Demo.SearchThroughMissingKey | revised_code.py:66 | on a graph whose only edge leads from A to a non-key Z, searching A to B raises KeyError('Z') |
| Demo.DetourFacts | revised_code.py:58-67 | the detour graph has non-negative costs and a feasible potential, B is reachable at cost 5 and the non-key Z at cost 1 |
| Demo.FromAInDetour | revised_code.py:58-67 | from A in the detour graph only A, Z and B are reachable |
| Demo.EdgeOfShortcut | revised_code.py:58-67 | each edge of the shortcut graph has a non-negative cost and respects the bound, and only A to B is tight |
| Demo.ShortcutIsCertified | revised_code.py:58-67 | the shortcut graph has non-negative costs and a feasible potential whose only tight edge is A to B |
| Demo.ShortcutRoute | revised_code.py:63-65 | A, B is a walk of cost 1 in the shortcut graph |
| Demo.FromAInShortcut | revised_code.py:58-67 | from A in the shortcut graph only A, Z and B are reachable |
| Demo.ReachingZCostsFour | revised_code.py:66-67 | every walk from A to the non-key Z in the shortcut graph costs at least 4 |
| Demo.ShortcutNotKeyError | revised_code.py:59-66 | no outcome meeting the search's contract from A to B in the shortcut graph is KeyError |
| Demo.ShortestThroughShortcut | revised_code.py:59-67 | with A: [(Z, 5), (B, 1)] and B a key, searching A to B pops B first and returns (1, ['A', 'B']) without evaluating graph['Z'] |
| Demo.DetourThroughMissingKey | revised_code.py:59-66 | with A: [(Z, 1), (B, 5)] and B a key, searching A to B pops Z first and raises KeyError('Z'), although B is reachable |

## Left out

- `PriorityQueue.__repr__` (revised_code.py:36-42) only formats text. The print in the main block, the imports and the type annotations are left out for the same reason.
- PriorityQueues.SiftUp: heapq compares whole `(priority, item)` tuples, so equal priorities are ordered by the item. The model compares priorities only, so ties may pop in a different order. Every contract is stated up to that order.
- PriorityQueues.SiftDown: heapq's pop-side sift first moves the hole to a leaf and then sifts up. The model uses the textbook swap-with-smaller-child loop. Both give a heap with the same entries.
- PriorityQueues.PriorityQueue: the heap list is a `seq` field that each operation reassigns as a whole, not a list changed in place. Another reference to the same list, which Python would let a caller hold, is not modelled.
- PriorityQueues.PriorityQueue.Pop: on an empty queue heappop raises IndexError. The model returns `None` instead. The search never pops an empty queue.
- ShortestPaths.Dijkstra: Python raises `KeyError` as an exception. The model returns it as the value `KeyError(node)`.
- ShortestPaths.Dijkstra: minimality is stated only under non-negative edge costs, because the search promises nothing otherwise. With negative costs a route may cost -1. Only its non-empty path then tells it apart from the `(-1, [])` "no path" sentinel.
- ShortestPaths.Dijkstra: `pops`, the number of entries taken off the queue, is a ghost counter that the source does not have. It serves only to state the bound on the work done.
- ShortestPaths.Dijkstra: determinism (two calls give the same answer) is not stated in general. The tie-break among equal priorities is not modelled. Where the shortest route is unique, `ShortestPaths.CertifiedAnswer` pins the answer down.
- Python's dynamic typing is not modelled: nodes are strings and costs are unbounded integers.
