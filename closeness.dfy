/**
  `bfs_distance` and `closeness_centrality` of part2.py. The infinity
  sentinel `float('inf')` is `None`; a finite distance `d` is `Some(d)`.
 */
module Closeness {
  import opened Graphs
  import opened Walks
  import opened Sums

  type Distances = map<int, Option<nat>>

  /** The queue holds levelled nodes in non-decreasing level, spanning at most two levels. */
  ghost predicate QueueShape(dist: Distances, queue: seq<int>)
  {
    && (forall i :: 0 <= i < |queue| ==> queue[i] in dist && dist[queue[i]].Some?)
    && (forall i, j :: 0 <= i <= j < |queue| ==>
          dist[queue[i]].value <= dist[queue[j]].value <= dist[queue[i]].value + 1)
  }

  /** Nodes at a finite distance carry the length of some walk from the source to them. */
  ghost predicate Sound(g: Graph, start: int, dist: Distances)
  {
    && dist.Keys == g.Keys && start in dist && dist[start] == Some(0)
    && forall v :: v in dist && dist[v].Some? ==> Reaches(g, start, v, dist[v].value)
  }

  /** The nodes still at infinity. */
  ghost function Unseen(dist: Distances): set<int>
  {
    set x | x in dist && dist[x].None?
  }

  /**
    What holds while the neighbours of `v`, at distance `d`, are scanned,
    relative to the distances `dist0` and queue `queue0` before the scan.
   */
  ghost predicate ScanState(g: Graph, start: int, dist0: Distances, queue0: seq<int>, d: nat,
                            dist: Distances, queue: seq<int>)
  {
    ScanLevels(g, start, dist0, d, dist, queue) && ScanQueued(dist0, queue0, d, dist, queue)
  }

  /** The levels: sound, finite ones kept, none beyond `d + 1`, every queued one at least `d`. */
  ghost predicate ScanLevels(g: Graph, start: int, dist0: Distances, d: nat, dist: Distances, queue: seq<int>)
  {
    && Sound(g, start, dist) && QueueShape(dist, queue)
    && dist0.Keys == dist.Keys
    && (forall x :: x in dist0 && dist0[x].Some? ==> dist[x] == dist0[x])
    && (forall x :: x in dist && dist[x].Some? ==> dist[x].value <= d + 1)
    && (forall i :: 0 <= i < |queue| ==> d <= dist[queue[i]].value)
  }

  /** The queue: `queue0` followed by distinct newly levelled nodes at `d + 1`, each one fewer unseen. */
  ghost predicate ScanQueued(dist0: Distances, queue0: seq<int>, d: nat, dist: Distances, queue: seq<int>)
    requires dist0.Keys == dist.Keys
  {
    && |queue0| <= |queue| && queue[..|queue0|] == queue0
    && (forall i :: |queue0| <= i < |queue| ==> queue[i] in dist && dist0[queue[i]].None? && dist[queue[i]] == Some(d + 1))
    && (forall i, j :: |queue0| <= i < j < |queue| ==> queue[i] != queue[j])
    && (forall x :: x in dist && dist[x].Some? ==> dist0[x].Some? || x in queue[|queue0|..])
    && Unseen(dist) <= Unseen(dist0)
    && (|queue| > |queue0| ==> Unseen(dist) < Unseen(dist0))
  }

  /** Giving an unseen neighbour `w` of `v` the distance `d + 1` and queueing it keeps the scan state. */
  lemma DiscoverStep(g: Graph, start: int, dist0: Distances, queue0: seq<int>, v: int, d: nat,
                     dist: Distances, queue: seq<int>, w: int)
    requires ScanState(g, start, dist0, queue0, d, dist, queue)
    requires v in dist0 && dist0[v] == Some(d) && Has(g, v, w) && w in dist && dist[w].None?
    ensures ScanState(g, start, dist0, queue0, d, dist[w := Some(d + 1)], queue + [w])
  {
    DiscoverLevels(g, start, dist0, v, d, dist, queue, w);
    DiscoverQueued(dist0, queue0, d, dist, queue, w);
  }

  lemma DiscoverLevels(g: Graph, start: int, dist0: Distances, v: int, d: nat,
                       dist: Distances, queue: seq<int>, w: int)
    requires ScanLevels(g, start, dist0, d, dist, queue)
    requires v in dist0 && dist0[v] == Some(d) && Has(g, v, w) && w in dist && dist[w].None?
    ensures ScanLevels(g, start, dist0, d, dist[w := Some(d + 1)], queue + [w])
    ensures forall i :: 0 <= i < |queue| ==> queue[i] != w
  {
    ExtendWalk(g, start, v, w, d);
    forall i | 0 <= i < |queue|
      ensures d <= dist[queue[i]].value <= d + 1
    {
      var x := queue[i];
      assert x in dist && dist[x].Some?;
    }
    QueueAppend(dist, queue, d, w);
  }

  lemma DiscoverQueued(dist0: Distances, queue0: seq<int>, d: nat, dist: Distances, queue: seq<int>, w: int)
    requires dist0.Keys == dist.Keys && ScanQueued(dist0, queue0, d, dist, queue)
    requires w in dist && dist[w].None? && forall i :: 0 <= i < |queue| ==> queue[i] != w
    requires forall x :: x in dist0 && dist0[x].Some? ==> dist[x] == dist0[x]
    ensures ScanQueued(dist0, queue0, d, dist[w := Some(d + 1)], queue + [w])
  {
    var dist', queue' := dist[w := Some(d + 1)], queue + [w];
    UnseenLevel(dist, w, d + 1);
    assert queue'[|queue0|..] == queue[|queue0|..] + [w];
    assert queue'[..|queue0|] == queue[..|queue0|];
  }

  /** Levelling an unseen node takes exactly it out of the unseen ones. */
  lemma UnseenLevel(dist: Distances, w: int, l: nat)
    requires w in dist && dist[w].None?
    ensures Unseen(dist[w := Some(l)]) == Unseen(dist) - {w}
    ensures w in Unseen(dist)
  {
  }

  /** Queueing an unseen node at level `d + 1` behind nodes at levels `d` and `d + 1` keeps the queue's shape. */
  lemma QueueAppend(dist: Distances, queue: seq<int>, d: nat, w: int)
    requires QueueShape(dist, queue) && w in dist && dist[w].None?
    requires forall i :: 0 <= i < |queue| ==> d <= dist[queue[i]].value <= d + 1
    ensures QueueShape(dist[w := Some(d + 1)], queue + [w])
    ensures forall i :: 0 <= i < |queue| ==> queue[i] != w
  {
  }

  /**
    part2.py:25-28 — the scan of the neighbours of a dequeued node `v` at
    distance `d`: each neighbour still at infinity gets `d + 1` and is
    appended to the queue.
   */
  method VisitNeighbours(g: Graph, start: int, dist0: Distances, queue0: seq<int>, v: int, d: nat)
    returns (dist: Distances, queue: seq<int>)
    requires Closed(g) && v in g
    requires Sound(g, start, dist0) && dist0[v] == Some(d)
    requires QueueShape(dist0, queue0)
    requires forall i :: 0 <= i < |queue0| ==> d <= dist0[queue0[i]].value
    requires forall x :: x in dist0 && dist0[x].Some? ==> dist0[x].value <= d + 1
    ensures ScanState(g, start, dist0, queue0, d, dist, queue)
    ensures forall w :: Has(g, v, w) ==> w in dist && dist[w].Some? && dist[w].value <= d + 1
  {
    dist, queue := dist0, queue0;
    var rest := g[v];
    while rest != {}
      invariant rest <= g[v]
      invariant ScanState(g, start, dist0, queue0, d, dist, queue)
      invariant forall w :: Has(g, v, w) && w !in rest ==> w in dist && dist[w].Some?
      decreases rest
    {
      var w := Pick(rest);
      rest := rest - {w};
      assert Has(g, v, w);
      if dist[w].None? {
        DiscoverStep(g, start, dist0, queue0, v, d, dist, queue, w);
        dist := dist[w := Some(d + 1)];
        queue := queue + [w];
      }
    }
  }

  /**
    The state between two dequeues: `done` lists the dequeued nodes in
    order, and every node at a finite distance is done or queued.
   */
  ghost predicate BfsState(g: Graph, start: int, dist: Distances, queue: seq<int>, done: seq<int>)
  {
    && Sound(g, start, dist) && QueueShape(dist, queue)
    && (forall i :: 0 <= i < |done| ==> done[i] in dist && dist[done[i]].Some?)
    // nodes leave the queue in non-decreasing distance, and before every queued node
    && (forall i, j :: 0 <= i < j < |done| ==> dist[done[i]].value <= dist[done[j]].value)
    && (forall i, j :: 0 <= i < |done| && 0 <= j < |queue| ==> dist[done[i]].value <= dist[queue[j]].value)
    // every neighbour of a dequeued node is levelled, at most one further
    && (forall u, w :: u in done && Has(g, u, w) ==>
          w in dist && dist[w].Some? && dist[w].value <= dist[u].value + 1)
    && (forall x :: x in dist && dist[x].Some? ==> x in done || x in queue)
  }

  /** When `v` is dequeued at distance `d`, nothing finite lies beyond `d + 1`. */
  lemma BeforeScan(g: Graph, start: int, dist: Distances, queue: seq<int>, done: seq<int>)
    requires BfsState(g, start, dist, queue, done) && queue != []
    ensures forall i :: 0 <= i < |queue| - 1 ==> dist[queue[0]].value <= dist[queue[1..][i]].value
    ensures forall x :: x in dist && dist[x].Some? ==> dist[x].value <= dist[queue[0]].value + 1
  {
    forall x | x in dist && dist[x].Some?
      ensures dist[x].value <= dist[queue[0]].value + 1
    {
      if x in queue {
        var j :| 0 <= j < |queue| && queue[j] == x;
      } else {
        var i :| 0 <= i < |done| && done[i] == x;
      }
    }
  }

  /** The scan changes no finite distance, so the done nodes keep theirs. */
  lemma ScanKeepsDone(g: Graph, start: int, dist0: Distances, queue0: seq<int>, done: seq<int>,
                      dist: Distances, queue: seq<int>)
    requires BfsState(g, start, dist0, queue0, done) && queue0 != []
    requires ScanState(g, start, dist0, queue0[1..], dist0[queue0[0]].value, dist, queue)
    ensures forall i :: 0 <= i < |done + [queue0[0]]| ==>
      (done + [queue0[0]])[i] in dist && dist[(done + [queue0[0]])[i]] == dist0[(done + [queue0[0]])[i]]
    ensures forall i, j :: 0 <= i < j < |done + [queue0[0]]| ==>
      dist[(done + [queue0[0]])[i]].value <= dist[(done + [queue0[0]])[j]].value
  {
    var done' := done + [queue0[0]];
    forall i | 0 <= i < |done'|
      ensures done'[i] in dist && dist[done'[i]] == dist0[done'[i]]
    {
      if i < |done| {
        assert done'[i] == done[i];
      } else {
        assert done'[i] == queue0[0] && queue0[0] in dist0 && dist0[queue0[0]].Some?;
      }
    }
  }

  /** After the scan every finite node is done or queued, and done nodes precede queued ones. */
  lemma ScanCovers(g: Graph, start: int, dist0: Distances, queue0: seq<int>, done: seq<int>,
                   dist: Distances, queue: seq<int>)
    requires BfsState(g, start, dist0, queue0, done) && queue0 != []
    requires ScanState(g, start, dist0, queue0[1..], dist0[queue0[0]].value, dist, queue)
    requires forall i :: 0 <= i < |done + [queue0[0]]| ==>
      (done + [queue0[0]])[i] in dist && dist[(done + [queue0[0]])[i]] == dist0[(done + [queue0[0]])[i]]
    ensures forall x :: x in dist && dist[x].Some? ==> x in done + [queue0[0]] || x in queue
  {
    var v := queue0[0];
    var rest0 := queue0[1..];
    var done' := done + [v];
    forall x | x in dist && dist[x].Some?
      ensures x in done' || x in queue
    {
      if dist0[x].Some? {
        if x != v && x !in done {
          var j :| 0 <= j < |queue0| && queue0[j] == x;
          assert rest0[j - 1] == x;
          assert queue[j - 1] == x;
        }
      } else {
        var j :| 0 <= j < |queue[|rest0|..]| && queue[|rest0|..][j] == x;
        assert queue[|rest0| + j] == x;
      }
    }
  }

  /** Done nodes, the dequeued one included, precede every queued node. */
  lemma ScanOrders(g: Graph, start: int, dist0: Distances, queue0: seq<int>, done: seq<int>,
                   dist: Distances, queue: seq<int>)
    requires BfsState(g, start, dist0, queue0, done) && queue0 != []
    requires ScanState(g, start, dist0, queue0[1..], dist0[queue0[0]].value, dist, queue)
    requires forall i :: 0 <= i < |done + [queue0[0]]| ==>
      (done + [queue0[0]])[i] in dist && dist[(done + [queue0[0]])[i]] == dist0[(done + [queue0[0]])[i]]
    ensures forall i, j :: 0 <= i < |done + [queue0[0]]| && 0 <= j < |queue| ==>
      dist[(done + [queue0[0]])[i]].value <= dist[queue[j]].value
  {
    var rest0 := queue0[1..];
    var done' := done + [queue0[0]];
    forall i, j | 0 <= i < |done'| && 0 <= j < |queue|
      ensures dist[done'[i]].value <= dist[queue[j]].value
    {
      if j < |rest0| {
        assert queue[j] == rest0[j] == queue0[j + 1];
        assert dist0[queue0[j + 1]].Some?;
      }
    }
  }

  /** After the scan of `queue0[0]`'s neighbours the state holds again with it done. */
  lemma AfterScan(g: Graph, start: int, dist0: Distances, queue0: seq<int>, done: seq<int>,
                  dist: Distances, queue: seq<int>)
    requires BfsState(g, start, dist0, queue0, done) && queue0 != []
    requires ScanState(g, start, dist0, queue0[1..], dist0[queue0[0]].value, dist, queue)
    requires forall w :: Has(g, queue0[0], w) ==>
      w in dist && dist[w].Some? && dist[w].value <= dist0[queue0[0]].value + 1
    ensures BfsState(g, start, dist, queue, done + [queue0[0]])
    ensures |Unseen(dist)| < |Unseen(dist0)| || (|Unseen(dist)| == |Unseen(dist0)| && |queue| < |queue0|)
  {
    ScanKeepsDone(g, start, dist0, queue0, done, dist, queue);
    ScanCovers(g, start, dist0, queue0, done, dist, queue);
    ScanOrders(g, start, dist0, queue0, done, dist, queue);
    SubsetCard(Unseen(dist), Unseen(dist0));
  }

  /** part2.py:19-29 — `bfs_distance`. */
  method BfsDistance(g: Graph, start: int) returns (dist: Distances, ghost done: seq<int>)
    requires start in g && Closed(g)
    ensures dist.Keys == g.Keys
    ensures forall v :: v in g ==> dist[v] == Distance(g, start, v)
    // `done` is the dequeue order: exactly the reachable nodes, nearest first
    ensures forall x :: x in done <==> x in g && Reachable(g, start, x)
    ensures forall i, j :: 0 <= i < j < |done| ==>
              Distance(g, start, done[i]).value <= Distance(g, start, done[j]).value
  {
    dist := map v | v in g :: None;
    dist := dist[start := Some(0)];
    assert IsWalk(g, [start]);
    var queue := [start];
    done := [];
    while queue != []
      invariant BfsState(g, start, dist, queue, done)
      decreases |Unseen(dist)|, |queue|
    {
      var v := queue[0];
      var d := dist[v].value;
      ghost var dist0, queue0 := dist, queue;
      BeforeScan(g, start, dist, queue, done);
      dist, queue := VisitNeighbours(g, start, dist, queue[1..], v, d);
      AfterScan(g, start, dist0, queue0, done, dist, queue);
      done := done + [v];
    }
    LevellingIsDistance(g, start, dist);
  }

  lemma SubsetCard<T>(a: set<T>, b: set<T>)
    requires a <= b
    ensures |a| <= |b| && (a < b ==> |a| < |b|)
  {
    assert b == a + (b - a);
  }

  /** What a distance adds to `total_dist`: only finite, positive distances count. */
  function Summand(d: Option<nat>): nat
  {
    if d.Some? then d.value else 0
  }

  /** The summand `u => Summand(Distance(g, v, u))` of the total distance from `v`. */
  ghost function DistanceSummands(g: Graph, v: int): int -> int
  {
    (u: int) => Summand(Distance(g, v, u))
  }

  /** The summand of `total_dist` for a computed `dist` map. */
  function SummandOf(dist: Distances): int -> int
  {
    (u: int) => if u in dist then Summand(dist[u]) else 0
  }

  /** The sum of the finite distances from `v` to the nodes of `g`. */
  ghost function TotalDistance(g: Graph, v: int): int
  {
    SumInt(g.Keys, DistanceSummands(g, v))
  }

  /** Closeness of `v`: the number of other nodes over the total distance, or 0 when that is 0. */
  ghost function ClosenessOf(g: Graph, v: int): real
  {
    var total := TotalDistance(g, v);
    if total > 0 then (|g| - 1) as real / total as real else 0.0
  }

  /** part2.py:38 — the sum of the finite positive values of `dist`, in the map's iteration order. */
  method TotalOf(dist: Distances) returns (total: int)
    ensures total == SumInt(dist.Keys, SummandOf(dist))
  {
    var f := SummandOf(dist);
    total := 0;
    var rest := dist.Keys;
    while rest != {}
      invariant rest <= dist.Keys
      invariant total == SumInt(dist.Keys - rest, f)
      decreases rest
    {
      var u := Pick(rest);
      SumIntRemove(dist.Keys - (rest - {u}), f, u);
      assert dist.Keys - (rest - {u}) - {u} == dist.Keys - rest;
      total := total + Summand(dist[u]);
      rest := rest - {u};
    }
    assert dist.Keys - rest == dist.Keys;
  }

  /** part2.py:33-40 — `closeness_centrality`, one breadth-first search per node. */
  method ClosenessCentrality(g: Graph) returns (c: map<int, real>)
    requires Closed(g)
    ensures c.Keys == g.Keys
    ensures forall v :: v in g ==> c[v] == ClosenessOf(g, v)
  {
    c := map[];
    var n := |g|;
    var rest := g.Keys;
    while rest != {}
      invariant rest <= g.Keys
      invariant c.Keys == g.Keys - rest
      invariant forall v :: v in c ==> c[v] == ClosenessOf(g, v)
      decreases rest
    {
      var v := Pick(rest);
      var dist, done := BfsDistance(g, v);
      var total := TotalOf(dist);
      SumIntAgree(g.Keys, SummandOf(dist), DistanceSummands(g, v));
      c := c[v := if total > 0 then (n - 1) as real / total as real else 0.0];
      rest := rest - {v};
    }
  }

  /** The total distance is never negative, and it is 0 exactly when no other node can be reached. */
  lemma TotalDistanceZeroIff(g: Graph, v: int)
    requires v in g
    ensures TotalDistance(g, v) >= 0
    ensures TotalDistance(g, v) == 0 <==> forall u :: u in g && u != v ==> !Reachable(g, v, u)
  {
    var f := DistanceSummands(g, v);
    SumIntZero(g.Keys, f);
    forall u | u in g
      ensures f(u) == 0 <==> u == v || !Reachable(g, v, u)
    {
      DistanceZero(g, v, u);
    }
  }

  /** A positive count over a positive total is positive. */
  lemma RatioPositive(n: int, t: int)
    requires n > 0 && t > 0
    ensures n as real / t as real > 0.0
  {
  }

  /**
    Closeness is never negative, and it is 0 exactly when no other node can
    be reached: an isolated node, or a graph of one node.
   */
  lemma ClosenessZeroIff(g: Graph, v: int)
    requires v in g
    ensures ClosenessOf(g, v) >= 0.0
    ensures ClosenessOf(g, v) == 0.0 <==> forall u :: u in g && u != v ==> !Reachable(g, v, u)
  {
    TotalDistanceZeroIff(g, v);
    var total := TotalDistance(g, v);
    if total > 0 {
      var u :| u in g && u != v && Reachable(g, v, u);
      SubsetCard({u, v}, g.Keys);
      RatioPositive(|g| - 1, total);
    }
  }

  /** A node with no neighbours reaches no other node, so its closeness is 0. */
  lemma IsolatedClosenessZero(g: Graph, v: int)
    requires v in g && g[v] == {}
    ensures ClosenessOf(g, v) == 0.0
  {
    var level := map x | x in g :: if x == v then Some(0) else None;
    assert IsWalk(g, [v]);
    assert IsLevelling(g, v, level);
    LevellingIsDistance(g, v, level);
    ClosenessZeroIff(g, v);
  }

  /** A neighbour other than the node itself is at distance exactly 1. */
  lemma NeighbourDistance(g: Graph, v: int, u: int)
    requires Has(g, v, u) && u != v
    ensures Distance(g, v, u) == Some(1)
  {
    assert IsWalk(g, [v, u]);
    assert Reaches(g, v, u, 1);
    assert !Reaches(g, v, u, 0);
    ShortestUnique(g, v, u, 1);
  }

  /** A node adjacent to both other nodes of a three-node graph has closeness 1. */
  lemma AdjacentToAllCloseness(g: Graph, v: int, x: int, y: int)
    requires v != x && x != y && v != y
    requires g.Keys == {v, x, y} && Has(g, v, x) && Has(g, v, y)
    ensures ClosenessOf(g, v) == 1.0
  {
    var f := DistanceSummands(g, v);
    DistanceZero(g, v, v);
    NeighbourDistance(g, v, x);
    NeighbourDistance(g, v, y);
    assert g.Keys - {v} == {x, y} && {x, y} - {x} == {y} && {y} - {y} == {};
    SumIntRemove(g.Keys, f, v);
    SumIntRemove({x, y}, f, x);
    SumIntRemove({y}, f, y);
    assert TotalDistance(g, v) == 2;
    assert |g.Keys| == 3;
  }

  /** In a triangle every node is at distance 1 from the other two, so every closeness is 1. */
  lemma TriangleCloseness(g: Graph, a: int, b: int, c: int, v: int)
    requires a != b && b != c && a != c
    requires g == map[a := {b, c}, b := {a, c}, c := {a, b}]
    requires v in g
    ensures ClosenessOf(g, v) == 1.0
  {
    assert g.Keys == {a, b, c};
    if v == a {
      AdjacentToAllCloseness(g, a, b, c);
    } else if v == b {
      AdjacentToAllCloseness(g, b, a, c);
    } else {
      AdjacentToAllCloseness(g, c, a, b);
    }
  }
}
