# Friend-of-friend graph analysis, modelled in Dafny

The system collects a two-hop friendship structure
`{root: {friend: [friends_of_friend]}}` for a few root users. From it, it builds
an undirected adjacency map and scores every node by closeness and betweenness
centrality.

This project models the analysis core:

- `build_full_graph` (part1.py) turns the structure into a graph by four passes:
  1. root and friend;
  2. friend and each entry of its list;
  3. two friends of one root when the later one is in the earlier one's list;
  4. every pair of entries of one friend's list.

  Each pass inserts every edge in both directions.
- `build_central_graph` (part2.py) builds the graph on the roots alone. Two roots
  are linked when their friend dictionaries share a key.
- `bfs_distance` and `closeness_centrality` (part2.py) run one breadth-first
  search per node. They score `v` by `(n - 1) / total_dist`, or 0 when nothing
  else is reachable.
- `betweenness_centrality` (part2.py) runs Brandes' algorithm. A forward
  breadth-first search counts shortest walks (`sigma`) and records predecessors
  (`pred`). Popping the visit stack then accumulates dependencies (`delta`).

Files:

- `graph.dfy` (module `Graphs`): the adjacency map `map<int, set<int>>` and the
  dictionary operations the source uses.
- `full_graph.dfy` (module `FullGraph`): the builder, with one method per loop
  and a declarative description `IsFullGraph` of its result.
- `central_graph.dfy` (module `CentralGraph`): the root graph.
- `walks.dfy` (module `Walks`): walks and shortest distances, defined without any
  search order. A levelling certificate shows that a search's levels are those
  distances.
- `sums.dfy` (module `Sums`): sums over finite sets, which do not depend on
  iteration order.
- `closeness.dfy` (module `Closeness`): the breadth-first search with its loop
  invariants, and closeness against the reference `ClosenessOf`.
- `betweenness.dfy` (module `Betweenness`): both passes of Brandes' algorithm.
  They are proved against reference definitions stated on distances alone:
  - `Sigma`, the predecessor recurrence for the number of shortest walks. It
    equals the size of `ShortestWalks`, the set of all shortest walks
    (`ShortestWalksIff`, `ShortestWalksCount`);
  - `Dependency`, Brandes' recurrence over shortest-walk successors;
  - `BetweennessOf`, the sum of dependencies over all other sources.

The code loops over dictionaries, and the model keeps those loops. Every loop is
a method, and its invariants tie the partial state to these reference
definitions.

How the source's state is modelled:

- The dictionaries and lists the source mutates are local values passed
  between these methods; no object holds them.
- Dictionary and set iteration is an arbitrary choice (`Graphs.Pick`).
- The results are proved not to depend on that choice.

## Model

| member | source | states |
|---|---|---|
| Graphs.SetDefault | part1.py:51 | the node becomes a key; an existing key keeps its neighbours and no arc changes |
| Graphs.AddArc | part1.py:56 | exactly the arc `a -> b` is added and the keys are unchanged |
| Graphs.Link | part1.py:56-57 | exactly the arcs `a -> b` and `b -> a` are added: the two statements insert an edge both ways |
| FullGraph.LinkFoafs | part1.py:60-63 | the keys gain exactly the friend's list, and the arcs gain exactly the edges between the friend and each list entry, both ways |
| FullGraph.LinkFriends | part1.py:54-63 | the keys gain exactly the friends and their lists, and the arcs gain exactly the rule 1 and 2 edges of one root, both ways |
| FullGraph.CrossLinkRow | part1.py:69-76 | row `i` of rule 3 adds exactly the edges from friend `i` to each later friend found in its list, and no key |
| FullGraph.CrossLink | part1.py:67-76 | rule 3 adds exactly the edges between two friends, the later found in the earlier's list, and no key |
| FullGraph.CliqueRow | part1.py:83-89 | row `i` of rule 4 adds entry `i` and the later entries as keys, and exactly the edges from entry `i` to each later entry |
| FullGraph.CliqueOne | part1.py:81-89 | a list of two or more entries becomes a clique on its entries; a shorter list adds nothing |
| FullGraph.Cliques | part1.py:80-89 | rule 4 over all friends' lists adds exactly the clique keys and edges |
| FullGraph.AddRoot | part1.py:50-89 | one root's iteration adds exactly the ids it mentions as keys, and exactly the arcs its four rules derive, both ways |
| FullGraph.BuildFullGraph | part1.py:42-91 | the result has as keys exactly the mentioned ids and as arcs exactly the derived edges; it is symmetric, and every neighbour is a key |
| FullGraph.FullGraphUnique | part1.py:42-91 | building twice from one structure gives the same graph |
| FullGraph.AdjacentMentioned | part1.py:50-89 | both ends of every edge are registered as keys |
| FullGraph.RootFriendAdjacent | part1.py:56-57 | every root is adjacent to each of its friends |
| FullGraph.FriendFoafAdjacent | part1.py:62-63 | every friend is adjacent to each entry of its list |
| FullGraph.CliqueAdjacent | part1.py:83-89 | any two positions of one friend's list are adjacent |
| FullGraph.CrossArcIsStarArc | part1.py:74-76 | every rule 3 edge is already a rule 2 edge, so rule 3 never changes the graph |
| FullGraph.SelfLoopIff | part1.py:53-89 | a node lists itself exactly when a root lists itself as a friend, a friend lists itself, or an id occurs twice in one list |
| CentralGraph.FriendKeys | part2.py:9-11 | `set(graph[a].keys())` holds exactly the friend ids listed under root `a` |
| CentralGraph.Roots | part2.py:5 | `list(graph.keys())` covers exactly the roots of the structure |
| CentralGraph.ShareFriendIff | part2.py:12 | `friends_a & friends_b` is non-empty exactly when the two roots share a friend key |
| CentralGraph.ToList | part2.py:15 | `list(v)` holds exactly the elements of `v`, each once |
| CentralGraph.CentralRow | part2.py:8-14 | row `i` adds exactly the edges from root `i` to each later root sharing a friend, both ways, and no key |
| CentralGraph.LinkSharing | part2.py:5-14 | the keys are the roots, and the arcs are exactly the pairs found by the pair loop, both ways |
| CentralGraph.ToLists | part2.py:15 | each adjacency set becomes a list of the same elements without repeats |
| CentralGraph.CentralArcIff | part2.py:8-14 | with distinct roots, two roots are linked exactly when they are different and share a friend; the relation is symmetric and has no self-loops |
| CentralGraph.BuildCentralGraph | part2.py:4-15 | the keys are the roots; root `j` is listed by root `i` exactly when `i != j` and they share a friend; lists are symmetric, free of self-loops and repeats |
| Walks.LevellingIsDistance | part2.py:19-29 | levels that start at 0 at the source, follow walks, and grow by at most 1 per edge are exactly the shortest distances (unreachable nodes get none) |
| Walks.DistanceZero | part2.py:21 | the distance is 0 exactly at the source |
| Walks.EdgeDistance | part2.py:25-27 | a neighbour of a reachable node is reachable and at most one step farther |
| Closeness.VisitNeighbours | part2.py:25-28 | scanning `v` levels each unseen neighbour at `d + 1` and queues it; it keeps every earlier level; afterwards every neighbour of `v` is levelled at most `d + 1` |
| Closeness.AfterScan | part2.py:23-28 | one dequeue-and-scan round keeps the search invariant, and decreases the unseen count, or the queue length |
| Closeness.BfsDistance | part2.py:19-29 | `dist` has the graph's keys and maps each node to its shortest distance from `start`, or to none (`inf`) when unreachable; the ghost dequeue order `done` holds exactly the reachable nodes, in non-decreasing distance |
| Closeness.TotalOf | part2.py:38 | `total_dist` is the sum of the finite positive distances (`Summand` reads an unreachable node as 0), whatever the iteration order |
| Closeness.ClosenessCentrality | part2.py:33-40 | every node gets exactly `ClosenessOf`: `(n - 1) / total` over its shortest distances, or 0 when the total is 0 |
| Closeness.TotalDistanceZeroIff | part2.py:38 | the total distance is non-negative, and 0 exactly when no other node is reachable |
| Closeness.ClosenessZeroIff | part2.py:39 | closeness is non-negative, and 0 exactly when no other node is reachable |
| Closeness.IsolatedClosenessZero | part2.py:39 | a node without neighbours scores 0 |
| Closeness.NeighbourDistance | part2.py:25-27 | a neighbour is at distance 1 |
| Closeness.AdjacentToAllCloseness | part2.py:33-40 | in a three-node graph, a node adjacent to both others scores 1 |
| Closeness.TriangleCloseness | part2.py:33-40 | every node of a triangle scores 1 |
| Betweenness.SigmaPositive | part2.py:61-62 | shortest-walk counts are non-negative, and at least 1 at every reachable node, so the division at line 68 never divides by zero |
| Betweenness.ShortestWalksIff | part2.py:61-63 | `ShortestWalks(g, s, w)` holds a walk exactly when it leads from `s` to `w` with as many edges as the distance |
| Betweenness.ShortestWalksCount | part2.py:61-63 | the predecessor recurrence `Sigma` equals the number of shortest walks; walks through different predecessors differ in their last-but-one node |
| Betweenness.DependencyNonneg | part2.py:67-68 | dependencies are never negative |
| Betweenness.BetweennessNonneg | part2.py:70 | betweenness is never negative |
| Betweenness.CountNeighbours | part2.py:57-63 | scanning `v`: unseen neighbours are levelled and queued; every neighbour one level beyond gets `v` appended to `pred` and `sigma[v]` added to `sigma` |
| Betweenness.Dequeue | part2.py:55-63 | one forward round pushes the dequeued node on the stack and keeps the search and count invariants; the search measure decreases |
| Betweenness.FinalSigma | part2.py:61-63 | once `pred` lists exactly the shortest-walk predecessors, `sigma[w]` is `Sigma`, the predecessor recurrence for the shortest-walk count |
| Betweenness.ForwardPass | part2.py:47-63 | the stack holds every reachable node once, in non-decreasing distance; `pred[w]` lists each shortest-walk predecessor of `w` once; `sigma[w]` is the number of shortest walks to `w`, the size of `ShortestWalks`; the seed is `Base`: 1 at `s`, 0 elsewhere (lines 49 and 51) |
| Betweenness.AddShares | part2.py:67-68 | each predecessor `v` of `w` gains exactly `Share`, `sigma[v] / sigma[w] * (1 + delta[w])`; nothing else changes |
| Betweenness.ShareMatches | part2.py:68 | at a stacked node, `sigma[w] >= 1`, and each computed share equals the reference share |
| Betweenness.Credit | part2.py:69-70 | `delta[w]` is added to `w`'s centrality unless `w` is the source |
| Betweenness.Accumulate | part2.py:66-70 | one pop keeps the backward invariant: each `delta[v]` sums the shares of the popped successors, and every popped node's `delta` is its dependency |
| Betweenness.BackwardPass | part2.py:64-70 | popping the whole stack adds to every node other than the source exactly its dependency on the source |
| Betweenness.SourceStep | part2.py:46-70 | one source's two passes add to each node exactly what that source contributes to its betweenness |
| Betweenness.AddSource | part2.py:46 | one more source extends the partial sum over sources by its contribution |
| Betweenness.BetweennessCentrality | part2.py:44-71 | every node gets exactly `BetweennessOf`: the sum, over every other source, of the node's dependency |
| Betweenness.LeafNoSuccs | part2.py:57-63 | in a symmetric graph, a node with at most one neighbour, other than the source, has no shortest-walk successor |
| Betweenness.LeafBetweennessZero | part2.py:44-71 | in a symmetric graph, a node with at most one neighbour has betweenness 0 |
| Betweenness.CompleteNoSuccs | part2.py:57-63 | in a complete graph, a node other than the source has no shortest-walk successor |
| Betweenness.CompleteBetweennessZero | part2.py:44-71 | in a complete graph every node has betweenness 0 |
| Betweenness.TriangleBetweenness | part2.py:44-71 | every node of a triangle has betweenness 0 |
| Betweenness.PathEndDependency | part2.py:64-70 | on the path `a - b - c`, the source `a` depends on `b` by exactly 1 |
| Betweenness.PathMiddleBetweenness | part2.py:44-71 | the middle of a three-node path scores 2, once from each end (the undirected score is not halved) |
| Betweenness.PathEndsBetweenness | part2.py:44-71 | the ends of a three-node path score 0 |
| Betweenness.StarCentreDependency | part2.py:64-70 | from a leaf of a star with `k` leaves, the centre's dependency is `k - 1` |
| Betweenness.StarBetweenness | part2.py:44-71 | the centre of a star with `k` leaves scores `k * (k - 1)`, and every leaf scores 0 |

## Left out

- `get_friends`, `build_friends_structure`, `main` (part1.py) and all printing and
  drawing (visualize.py) are left out. They are network access, the environment
  and output. The structure they produce is the input of `BuildFullGraph`.
- `eigenvector_centrality` (part2.py:75-91) is left out. It is a floating-point
  power iteration with a tolerance test, and it divides by `n` and by a norm
  without a guard (part2.py:77 and part2.py:86).
- Floating-point arithmetic is modelled as exact real arithmetic.
  - The closeness ratio, the shares `sigma[v] / sigma[w] * (1 + delta[w])` and
    the betweenness sums are reals, so rounding and its dependence on summation
    order are not modelled.
  - Betweenness.ForwardPass: the source keeps `sigma` as floats; the model counts
    shortest walks with exact integers, so overflow to inaccurate floats on huge
    counts is not modelled.
- The sentinels are modelled as `None`: `float('inf')` in `bfs_distance` and
  `-1` in the betweenness search (part2.py:20 and part2.py:50).
- Python dictionary and set iteration order is not modelled. Each loop over a
  set picks an arbitrary element (`Graphs.Pick`), and every contract holds for
  any choice.
  - CentralGraph.ToList: the contract states the elements and their uniqueness,
    not the order CPython's set iteration yields.
  - The root structure is a sequence in dictionary order. `build_full_graph`'s
    passes 3 and 4 depend on that order only through which of two entries comes
    first, and every edge is inserted both ways.
- CentralGraph.BuildCentralGraph requires distinct roots. The roots are the keys
  of a Python dictionary, so the source gets them distinct for free.
- The centralities run on `map<int, set<int>>`.
  - The source runs them on `build_full_graph`'s output (part1.py:105-110).
  - `BuildFullGraph` proves that output symmetric and closed (every neighbour is
    a key). `Closed` is exactly what the centrality methods require.
  - Without it, the source raises `KeyError` at part2.py:26 or part2.py:58.
- Self-loops are kept. One might expect an id listed as its own neighbour to
  be suppressed, but `build_full_graph` suppresses none, and
  `FullGraph.SelfLoopIff` states exactly when a loop arises.
  - The breadth-first searches ignore a loop: the node is already levelled.
  - So the distances and both centralities are unaffected.
