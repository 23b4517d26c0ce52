/**
  `betweenness_centrality` of part2.py: Brandes' algorithm. For each source
  a breadth-first search counts shortest walks (`sigma`) and records
  shortest-walk predecessors (`pred`); popping the visit stack then
  accumulates dependencies (`delta`) from the farthest nodes inwards.

  The yardstick is stated on distances alone: `Sigma` is the number of
  shortest walks given by the predecessor recurrence, and `Dependency` is
  Brandes' recurrence over shortest-walk successors.
 */
module Betweenness {
  import opened Graphs
  import opened Walks
  import opened Sums
  import opened Closeness

  /** `w` is exactly one step farther from `s` than `u`. */
  ghost predicate OneFarther(g: Graph, s: int, u: int, w: int)
  {
    Distance(g, s, u).Some? && Distance(g, s, w).Some? &&
    Distance(g, s, w).value == Distance(g, s, u).value + 1
  }

  /** The predecessors of `w` on shortest walks from `s`. */
  ghost function Preds(g: Graph, s: int, w: int): set<int>
  {
    set u | u in g && Has(g, u, w) && OneFarther(g, s, u, w)
  }

  /** The successors of `v` on shortest walks from `s`. */
  ghost function Succs(g: Graph, s: int, v: int): set<int>
  {
    set w | w in g && Has(g, v, w) && OneFarther(g, s, v, w)
  }

  /** How far `w` is, as a termination measure (0 when unreachable). */
  ghost function Depth(g: Graph, s: int, w: int): nat
  {
    if Distance(g, s, w).Some? then Distance(g, s, w).value else 0
  }

  /** The predecessor recurrence for the number of shortest walks from `s` to `w`: 1 at `s`, the sum over predecessors elsewhere (it is the size of `ShortestWalks`, by `ShortestWalksCount`). */
  ghost function Sigma(g: Graph, s: int, w: int): int
    decreases Depth(g, s, w), 1
  {
    if Distance(g, s, w).None? then 0
    else if w == s then 1
    else SumInt(Preds(g, s, w), SigmaTerms(g, s, w))
  }

  /** The summand of `Sigma(g, s, w)`. */
  ghost function SigmaTerms(g: Graph, s: int, w: int): int -> int
    decreases Depth(g, s, w), 0
  {
    (u: int) => if u in Preds(g, s, w) then Sigma(g, s, u) else 0
  }

  /** The reachable nodes farther from `s` than `v`. */
  ghost function Farther(g: Graph, s: int, v: int): set<int>
  {
    set u | u in g && Distance(g, s, u).Some? && Distance(g, s, v).Some? &&
            Distance(g, s, u).value > Distance(g, s, v).value
  }

  /**
    The dependency of `s` on `v`: the sum over successors `w` of
    `Sigma(v) / Sigma(w) * (1 + Dependency(w))`, and 0 when `v` is unreachable.
   */
  ghost function Dependency(g: Graph, s: int, v: int): real
    decreases Farther(g, s, v), 1
  {
    if Distance(g, s, v).None? then 0.0 else SumReal(Succs(g, s, v), Shares(g, s, v))
  }

  /** `(sigma[v] / sigma[w]) * (1 + delta[w])`: what `w` passes back to a predecessor `v`. */
  function Share(sv: int, sw: int, dw: real): real
    requires sw > 0
  {
    sv as real / sw as real * (1.0 + dw)
  }

  /** The summand of `Dependency(g, s, v)`; the guard on `Sigma` never fails at a successor (SigmaPositive). */
  ghost function Shares(g: Graph, s: int, v: int): int -> real
    decreases Farther(g, s, v), 0
  {
    (w: int) =>
      if w in Succs(g, s, v) && Sigma(g, s, w) > 0 then
        FartherShrinks(g, s, v, w);
        Share(Sigma(g, s, v), Sigma(g, s, w), Dependency(g, s, w))
      else 0.0
  }

  /** A successor has strictly fewer nodes beyond it. */
  lemma FartherShrinks(g: Graph, s: int, v: int, w: int)
    requires w in Succs(g, s, v)
    ensures Farther(g, s, w) < Farther(g, s, v)
  {
    assert w in Farther(g, s, v) && w !in Farther(g, s, w);
  }

  /** What source `s` adds to the betweenness of `v`. */
  ghost function Contributions(g: Graph, v: int): int -> real
  {
    (s: int) => if s != v then Dependency(g, s, v) else 0.0
  }

  /** The betweenness of `v`: its dependencies summed over every other source. */
  ghost function BetweennessOf(g: Graph, v: int): real
  {
    SumReal(g.Keys, Contributions(g, v))
  }

  /** Shortest-walk counts are never negative, and at least 1 at every reachable node. */
  lemma {:induction false} SigmaPositive(g: Graph, s: int, w: int)
    ensures Sigma(g, s, w) >= 0
    ensures Reachable(g, s, w) ==> Sigma(g, s, w) >= 1
    decreases Depth(g, s, w)
  {
    if Distance(g, s, w).Some? && w != s {
      var terms := SigmaTerms(g, s, w);
      forall u | u in Preds(g, s, w)
        ensures terms(u) >= 1
      {
        SigmaPositive(g, s, u);
      }
      DistanceZero(g, s, w);
      var k: nat := Distance(g, s, w).value - 1;
      var u := LastStep(g, s, w, k);
      EdgeDistance(g, s, u, w);
      assert u in Preds(g, s, w);
      SumIntAtLeast(Preds(g, s, w), terms, u);
    }
  }

  /** `p` is a shortest walk from `s` to `w`. */
  ghost predicate IsShortestWalk(g: Graph, s: int, w: int, p: seq<int>)
  {
    IsWalk(g, p) && p[0] == s && p[|p| - 1] == w && Distance(g, s, w) == Some(|p| - 1)
  }

  /** The shortest walks from `s` to `w`, gathered along the predecessor recurrence of `Sigma`. */
  ghost function ShortestWalks(g: Graph, s: int, w: int): set<seq<int>>
    decreases Depth(g, s, w), 1
  {
    if Distance(g, s, w).None? then {}
    else if w == s then {[s]}
    else WalksThrough(g, s, w, Preds(g, s, w))
  }

  /** The shortest walks to the predecessors in `us`, each extended by the step to `w`. */
  ghost function WalksThrough(g: Graph, s: int, w: int, us: set<int>): set<seq<int>>
    requires us <= Preds(g, s, w)
    decreases Depth(g, s, w), 0
  {
    set u, p | u in us && p in ShortestWalks(g, s, u) :: p + [w]
  }

  /** `ShortestWalks(g, s, w)` holds every shortest walk from `s` to `w` and nothing else. */
  lemma {:induction false} ShortestWalksIff(g: Graph, s: int, w: int, p: seq<int>)
    ensures p in ShortestWalks(g, s, w) <==> IsShortestWalk(g, s, w, p)
    decreases Depth(g, s, w)
  {
    DistanceZero(g, s, w);
    if Distance(g, s, w).Some? && w == s {
      assert IsWalk(g, [s]);
      if IsShortestWalk(g, s, w, p) {
        assert p == [s];
      }
    } else if Distance(g, s, w).Some? {
      var d := Distance(g, s, w).value;
      if p in ShortestWalks(g, s, w) {
        assert p in WalksThrough(g, s, w, Preds(g, s, w));
        var u, q :| u in Preds(g, s, w) && q in ShortestWalks(g, s, u) && p == q + [w];
        ShortestWalksIff(g, s, u, q);
        forall i | 0 <= i < |p| - 1
          ensures Has(g, p[i], p[i + 1])
        {
          if i < |q| - 1 {
            assert Has(g, q[i], q[i + 1]);
          }
        }
      }
      if IsShortestWalk(g, s, w, p) {
        var q := p[..|p| - 1];
        var u := q[|q| - 1];
        assert forall i :: 0 <= i < |q| - 1 ==> Has(g, q[i], q[i + 1]);
        assert Reaches(g, s, u, d - 1) by {
          assert IsWalk(g, q) && |q| == d && q[0] == s && q[d - 1] == u;
        }
        assert Has(g, u, w) by {
          assert p[|p| - 2] == u && p[|p| - 1] == w;
        }
        EdgeDistance(g, s, u, w);
        assert u in Preds(g, s, w);
        ShortestWalksIff(g, s, u, q);
        assert p == q + [w];
      }
    }
  }

  /** Each walk of `ws` extended by the step to `w`. */
  ghost function Extended(ws: set<seq<int>>, w: int): set<seq<int>>
  {
    set p | p in ws :: p + [w]
  }

  /** Appending one node to each walk of a set keeps the walks apart. */
  lemma {:induction false} ExtendedCard(ws: set<seq<int>>, w: int)
    ensures |Extended(ws, w)| == |ws|
    decreases |ws|
  {
    if ws != {} {
      var x := Choose(ws);
      ExtendedCard(ws - {x}, w);
      forall p | p in ws - {x}
        ensures p + [w] != x + [w]
      {
        assert (p + [w])[..|p|] == p;
        assert (x + [w])[..|x|] == x;
      }
      assert Extended(ws, w) == Extended(ws - {x}, w) + {x + [w]};
    }
  }

  /** Taking one predecessor `x` out: its walks are apart from the others', which all end with another node before `w`. */
  lemma WalksThroughSplit(g: Graph, s: int, w: int, us: set<int>, x: int)
    requires us <= Preds(g, s, w) && x in us
    ensures WalksThrough(g, s, w, us) == WalksThrough(g, s, w, us - {x}) + Extended(ShortestWalks(g, s, x), w)
    ensures WalksThrough(g, s, w, us - {x}) * Extended(ShortestWalks(g, s, x), w) == {}
  {
    var rest := us - {x};
    var ext := Extended(ShortestWalks(g, s, x), w);
    forall q | q in WalksThrough(g, s, w, rest)
      ensures |q| >= 2 && q[|q| - 2] in rest
    {
      var u, p :| u in rest && p in ShortestWalks(g, s, u) && q == p + [w];
      ShortestWalksIff(g, s, u, p);
    }
    forall q | q in ext
      ensures |q| >= 2 && q[|q| - 2] == x
    {
      var p :| p in ShortestWalks(g, s, x) && q == p + [w];
      ShortestWalksIff(g, s, x, p);
    }
    forall q | q in WalksThrough(g, s, w, us)
      ensures q in WalksThrough(g, s, w, rest) || q in ext
    {
      var u, p :| u in us && p in ShortestWalks(g, s, u) && q == p + [w];
      if u == x {
        assert q in ext;
      } else {
        assert q in WalksThrough(g, s, w, rest);
      }
    }
  }

  /** The walks through the predecessors in `us` number the sum of their counts. */
  lemma {:induction false} WalksThroughCard(g: Graph, s: int, w: int, us: set<int>)
    requires us <= Preds(g, s, w)
    requires forall u :: u in us ==> |ShortestWalks(g, s, u)| == Sigma(g, s, u)
    ensures |WalksThrough(g, s, w, us)| == SumInt(us, SigmaTerms(g, s, w))
    decreases |us|
  {
    if us == {} {
      assert WalksThrough(g, s, w, us) == {};
    } else {
      var x := Choose(us);
      WalksThroughCard(g, s, w, us - {x});
      ExtendedCard(ShortestWalks(g, s, x), w);
      WalksThroughSplit(g, s, w, us, x);
    }
  }

  /** `Sigma` counts the shortest walks: the recurrence and the walks agree. */
  lemma {:induction false} ShortestWalksCount(g: Graph, s: int, w: int)
    ensures |ShortestWalks(g, s, w)| == Sigma(g, s, w)
    decreases Depth(g, s, w)
  {
    if Distance(g, s, w).Some? && w != s {
      forall u | u in Preds(g, s, w)
        ensures |ShortestWalks(g, s, u)| == Sigma(g, s, u)
      {
        ShortestWalksCount(g, s, u);
      }
      WalksThroughCard(g, s, w, Preds(g, s, w));
    }
  }

  /** Dependencies are never negative. */
  lemma {:induction false} DependencyNonneg(g: Graph, s: int, v: int)
    ensures Dependency(g, s, v) >= 0.0
    decreases Farther(g, s, v)
  {
    if Distance(g, s, v).Some? {
      var shares := Shares(g, s, v);
      SigmaPositive(g, s, v);
      forall w | w in Succs(g, s, v)
        ensures shares(w) >= 0.0
      {
        FartherShrinks(g, s, v, w);
        DependencyNonneg(g, s, w);
        SigmaPositive(g, s, w);
        if Sigma(g, s, w) > 0 {
          ShareNonneg(Sigma(g, s, v), Sigma(g, s, w), Dependency(g, s, w));
        }
      }
      SumRealNonneg(Succs(g, s, v), shares);
    }
  }

  /** A share of non-negative counts and dependency is non-negative. */
  lemma ShareNonneg(sv: int, sw: int, dw: real)
    requires sv >= 0 && sw > 0 && dw >= 0.0
    ensures Share(sv, sw, dw) >= 0.0
  {
    var q := sv as real / sw as real;
    assert q >= 0.0;
    assert q * (1.0 + dw) >= 0.0;
  }

  /** Betweenness is never negative. */
  lemma BetweennessNonneg(g: Graph, v: int)
    ensures BetweennessOf(g, v) >= 0.0
  {
    forall s | s in g
      ensures Contributions(g, v)(s) >= 0.0
    {
      DependencyNonneg(g, s, v);
    }
    SumRealNonneg(g.Keys, Contributions(g, v));
  }

  // ----- The forward pass: counting shortest walks (part2.py:47-63) -----

  /** `sigma[s] = 1.0`: the source starts with one walk, every other node with none. */
  function Base(s: int, w: int): int
  {
    if w == s then 1 else 0
  }

  /** `u` was dequeued and has an edge to `w`, levelled one further: `pred[w]` should list `u`. */
  ghost predicate PredArc(g: Graph, dist: Distances, stack: seq<int>, u: int, w: int)
  {
    u in stack && Has(g, u, w) && u in dist && w in dist && dist[u].Some? && dist[w].Some? &&
    dist[w].value == dist[u].value + 1
  }

  /**
    The counts once the dequeued nodes `stack`, and the neighbours `scanned`
    of `v` at level `d`, have been processed: `pred[w]` lists each
    predecessor of `w` found so far once, and `sigma[w]` sums their counts.
   */
  ghost predicate CountState(g: Graph, s: int, dist: Distances, stack: seq<int>, v: int, scanned: set<int>,
                             d: nat, sigma: map<int, int>, pred: map<int, seq<int>>)
  {
    && sigma.Keys == g.Keys && pred.Keys == g.Keys
    && (forall w :: w in g ==> Distinct(pred[w]))
    && (forall w, u :: w in g ==>
          (u in pred[w] <==> PredArc(g, dist, stack, u, w) ||
                             (u == v && w in scanned && w in dist && dist[w] == Some(d + 1))))
    && (forall w :: w in g ==> sigma[w] == Base(s, w) + SumAt(sigma, pred[w]))
  }

  /** Levelling a node no dequeued node points to records no predecessor for it. */
  lemma DiscoverCount(g: Graph, s: int, dist: Distances, stack: seq<int>, v: int, scanned: set<int>,
                      d: nat, sigma: map<int, int>, pred: map<int, seq<int>>, w: int)
    requires CountState(g, s, dist, stack, v, scanned, d, sigma, pred)
    requires forall u :: u in stack ==> u in dist && dist[u].Some? && !Has(g, u, w)
    requires w in dist && dist[w].None? && w !in scanned
    ensures CountState(g, s, dist[w := Some(d + 1)], stack, v, scanned, d, sigma, pred)
  {
    var dist' := dist[w := Some(d + 1)];
    forall x, u | x in g
      ensures PredArc(g, dist', stack, u, x) <==> PredArc(g, dist, stack, u, x)
    {
    }
  }

  /** `sigma[w] += sigma[v]; pred[w].append(v)` for a neighbour `w` one level beyond `v`. */
  lemma AccumulateCount(g: Graph, s: int, dist: Distances, stack: seq<int>, v: int, scanned: set<int>,
                        d: nat, sigma: map<int, int>, pred: map<int, seq<int>>, w: int)
    requires CountState(g, s, dist, stack, v, scanned, d, sigma, pred)
    requires v !in stack && v in dist && dist[v] == Some(d)
    requires forall u :: u in stack ==> u in dist && dist[u].Some? && dist[u].value <= d
    requires Has(g, v, w) && w in g && w !in scanned && w in dist && dist[w] == Some(d + 1)
    ensures CountState(g, s, dist, stack, v, scanned + {w}, d,
                       sigma[w := sigma[w] + sigma[v]], pred[w := pred[w] + [v]])
  {
    forall x | x in g
      ensures w !in pred[x]
    {
    }
    assert v !in pred[w];
    AddPredecessor(g, s, sigma, pred, v, w, sigma[w := sigma[w] + sigma[v]], pred[w := pred[w] + [v]]);
  }

  /** Appending `v` to `pred[w]` and adding `sigma[v]` to `sigma[w]` keeps every count a sum over its list. */
  lemma AddPredecessor(g: Graph, s: int, sigma: map<int, int>, pred: map<int, seq<int>>, v: int, w: int,
                        sigma': map<int, int>, pred': map<int, seq<int>>)
    requires sigma.Keys == g.Keys && pred.Keys == g.Keys && v in g && w in g
    requires forall x :: x in g ==> sigma[x] == Base(s, x) + SumAt(sigma, pred[x])
    requires forall x :: x in g ==> w !in pred[x]
    requires v !in pred[w] && v != w
    requires sigma' == sigma[w := sigma[w] + sigma[v]] && pred' == pred[w := pred[w] + [v]]
    ensures forall x :: x in g ==> sigma'[x] == Base(s, x) + SumAt(sigma', pred'[x])
  {
    forall x | x in g && x != w
      ensures sigma'[x] == Base(s, x) + SumAt(sigma', pred'[x])
    {
      SumAtUpdate(sigma, pred[x], w, sigma[w] + sigma[v]);
    }
    var xs := pred[w] + [v];
    SumAtUpdate(sigma, pred[w], w, sigma[w] + sigma[v]);
    assert xs[..|xs| - 1] == pred[w] && xs[|xs| - 1] == v;
    assert SumAt(sigma', xs) == SumAt(sigma', pred[w]) + sigma[v];
  }

  /** A neighbour not one level beyond `v` changes no count. */
  lemma SkipCount(g: Graph, s: int, dist: Distances, stack: seq<int>, v: int, scanned: set<int>,
                  d: nat, sigma: map<int, int>, pred: map<int, seq<int>>, w: int)
    requires CountState(g, s, dist, stack, v, scanned, d, sigma, pred)
    requires w in dist && dist[w] != Some(d + 1)
    ensures CountState(g, s, dist, stack, v, scanned + {w}, d, sigma, pred)
  {
  }

  /** Once every neighbour of `v` is scanned, `v` counts as dequeued. */
  lemma ScanCounted(g: Graph, s: int, dist: Distances, stack: seq<int>, v: int,
                    d: nat, sigma: map<int, int>, pred: map<int, seq<int>>)
    requires v in g && v in dist && dist[v] == Some(d)
    requires CountState(g, s, dist, stack, v, g[v], d, sigma, pred)
    ensures CountState(g, s, dist, stack + [v], s, {}, 0, sigma, pred)
  {
    forall w, u | w in g
      ensures PredArc(g, dist, stack + [v], u, w) <==>
              PredArc(g, dist, stack, u, w) || (u == v && w in g[v] && w in dist && dist[w] == Some(d + 1))
    {
    }
  }

  /** What holds when `v`, at level `d`, has been dequeued after the nodes `stack`, leaving `queue0`. */
  ghost predicate ScanReady(g: Graph, s: int, dist0: Distances, queue0: seq<int>, stack: seq<int>, v: int, d: nat)
  {
    && Closed(g) && v in g && v !in stack
    && Sound(g, s, dist0) && dist0[v] == Some(d)
    && QueueShape(dist0, queue0)
    && (forall i :: 0 <= i < |queue0| ==> d <= dist0[queue0[i]].value)
    && (forall x :: x in dist0 && dist0[x].Some? ==> dist0[x].value <= d + 1)
    && (forall u :: u in stack ==> u in dist0 && dist0[u].Some? && dist0[u].value <= d)
    && (forall u, x :: u in stack && Has(g, u, x) ==> x in dist0 && dist0[x].Some?)
  }

  /** Dequeuing the head of the queue readies its scan. */
  lemma BeforeCount(g: Graph, s: int, dist: Distances, queue: seq<int>, stack: seq<int>,
                    sigma: map<int, int>, pred: map<int, seq<int>>)
    requires Closed(g) && BfsState(g, s, dist, queue, stack) && queue != []
    requires Distinct(stack + queue)
    requires CountState(g, s, dist, stack, s, {}, 0, sigma, pred)
    ensures ScanReady(g, s, dist, queue[1..], stack, queue[0], dist[queue[0]].value)
    ensures CountState(g, s, dist, stack, queue[0], {}, dist[queue[0]].value, sigma, pred)
  {
    BeforeScan(g, s, dist, queue, stack);
    assert (stack + queue)[|stack|] == queue[0];
    forall u | u in stack
      ensures u != queue[0] && u in dist && dist[u].Some? && dist[u].value <= dist[queue[0]].value
    {
      var i :| 0 <= i < |stack| && stack[i] == u;
      assert (stack + queue)[i] == u;
    }
  }

  /** The state of the scan of `v`'s neighbours once `scanned` have been processed. */
  ghost predicate CountScan(g: Graph, s: int, dist0: Distances, queue0: seq<int>, stack: seq<int>, v: int, d: nat,
                            scanned: set<int>, dist: Distances, queue: seq<int>,
                            sigma: map<int, int>, pred: map<int, seq<int>>)
  {
    && ScanReady(g, s, dist0, queue0, stack, v, d)
    && ScanState(g, s, dist0, queue0, d, dist, queue)
    && scanned <= g[v]
    && (forall w :: w in scanned ==> w in dist && dist[w].Some?)
    && CountState(g, s, dist, stack, v, scanned, d, sigma, pred)
  }

  /** A neighbour still at -1 is levelled `d + 1` and queued. */
  lemma DiscoverScan(g: Graph, s: int, dist0: Distances, queue0: seq<int>, stack: seq<int>, v: int, d: nat,
                     scanned: set<int>, dist: Distances, queue: seq<int>,
                     sigma: map<int, int>, pred: map<int, seq<int>>, w: int)
    requires CountScan(g, s, dist0, queue0, stack, v, d, scanned, dist, queue, sigma, pred)
    requires Has(g, v, w) && w !in scanned && dist[w].None?
    ensures CountScan(g, s, dist0, queue0, stack, v, d, scanned, dist[w := Some(d + 1)], queue + [w], sigma, pred)
  {
    DiscoverStep(g, s, dist0, queue0, v, d, dist, queue, w);
    assert dist0[w].None?;
    DiscoverCount(g, s, dist, stack, v, scanned, d, sigma, pred, w);
  }

  /** A levelled neighbour is counted if it lies one level beyond `v`, and skipped otherwise. */
  lemma AccumulateScan(g: Graph, s: int, dist0: Distances, queue0: seq<int>, stack: seq<int>, v: int, d: nat,
                       scanned: set<int>, dist: Distances, queue: seq<int>,
                       sigma: map<int, int>, pred: map<int, seq<int>>, w: int)
    requires CountScan(g, s, dist0, queue0, stack, v, d, scanned, dist, queue, sigma, pred)
    requires Has(g, v, w) && w !in scanned && dist[w].Some?
    ensures dist[w] == Some(d + 1) ==>
      CountScan(g, s, dist0, queue0, stack, v, d, scanned + {w}, dist, queue,
                sigma[w := sigma[w] + sigma[v]], pred[w := pred[w] + [v]])
    ensures dist[w] != Some(d + 1) ==>
      CountScan(g, s, dist0, queue0, stack, v, d, scanned + {w}, dist, queue, sigma, pred)
  {
    if dist[w] == Some(d + 1) {
      AccumulateCount(g, s, dist, stack, v, scanned, d, sigma, pred, w);
    } else {
      SkipCount(g, s, dist, stack, v, scanned, d, sigma, pred, w);
    }
  }

  /**
    part2.py:57-63 — the scan of the neighbours of the dequeued `v`, at
    level `d`, after the nodes `stack`: a neighbour at -1 (`None`) is
    levelled `d + 1` and queued, and a neighbour at `d + 1` adds `sigma[v]`
    to its count and `v` to its predecessors.
   */
  method CountNeighbours(g: Graph, s: int, dist0: Distances, queue0: seq<int>, ghost stack: seq<int>, v: int, d: nat,
                         sigma0: map<int, int>, pred0: map<int, seq<int>>)
    returns (dist: Distances, queue: seq<int>, sigma: map<int, int>, pred: map<int, seq<int>>)
    requires ScanReady(g, s, dist0, queue0, stack, v, d)
    requires CountState(g, s, dist0, stack, v, {}, d, sigma0, pred0)
    ensures ScanState(g, s, dist0, queue0, d, dist, queue)
    ensures forall w :: Has(g, v, w) ==> w in dist && dist[w].Some? && dist[w].value <= d + 1
    ensures CountState(g, s, dist, stack + [v], s, {}, 0, sigma, pred)
  {
    dist, queue, sigma, pred := dist0, queue0, sigma0, pred0;
    var rest := g[v];
    assert g[v] - rest == {};
    while rest != {}
      invariant rest <= g[v]
      invariant CountScan(g, s, dist0, queue0, stack, v, d, g[v] - rest, dist, queue, sigma, pred)
      decreases rest
    {
      var w := Pick(rest);
      ghost var scanned := g[v] - rest;
      rest := rest - {w};
      assert g[v] - rest == scanned + {w};
      assert Has(g, v, w) && w in dist;
      if dist[w].None? {
        DiscoverScan(g, s, dist0, queue0, stack, v, d, scanned, dist, queue, sigma, pred, w);
        dist := dist[w := Some(d + 1)];
        queue := queue + [w];
      }
      AccumulateScan(g, s, dist0, queue0, stack, v, d, scanned, dist, queue, sigma, pred, w);
      if dist[w] == Some(d + 1) {
        sigma := sigma[w := sigma[w] + sigma[v]];
        pred := pred[w := pred[w] + [v]];
      }
    }
    assert g[v] - rest == g[v];
    ScanCounted(g, s, dist, stack, v, d, sigma, pred);
  }

  /** The queue after a scan repeats nothing already dequeued or queued. */
  lemma ScanDistinct(g: Graph, s: int, dist0: Distances, queue0: seq<int>, stack: seq<int>,
                     dist: Distances, queue: seq<int>, d: nat)
    requires QueueShape(dist0, queue0) && queue0 != []
    requires forall i :: 0 <= i < |stack| ==> stack[i] in dist0 && dist0[stack[i]].Some?
    requires Distinct(stack + queue0)
    requires dist0.Keys == dist.Keys && ScanQueued(dist0, queue0[1..], d, dist, queue)
    ensures Distinct(stack + [queue0[0]] + queue)
  {
    var old', fresh' := stack + queue0, queue[|queue0| - 1..];
    assert stack + [queue0[0]] + queue == old' + fresh';
    forall i | 0 <= i < |old'|
      ensures old'[i] in dist0 && dist0[old'[i]].Some?
    {
      if i >= |stack| {
        assert old'[i] == queue0[i - |stack|];
      }
    }
    forall i | 0 <= i < |fresh'|
      ensures fresh'[i] in dist0 && dist0[fresh'[i]].None?
    {
      assert fresh'[i] == queue[|queue0| - 1 + i];
    }
    forall p, q | 0 <= p < q < |fresh'|
      ensures fresh'[p] != fresh'[q]
    {
      assert fresh'[p] == queue[|queue0| - 1 + p] && fresh'[q] == queue[|queue0| - 1 + q];
    }
    DistinctConcat(old', fresh');
  }

  /** After the scan of the head of the queue the loop state holds again, with the head dequeued. */
  lemma AfterCount(g: Graph, s: int, dist0: Distances, queue0: seq<int>, stack: seq<int>,
                   dist: Distances, queue: seq<int>)
    requires BfsState(g, s, dist0, queue0, stack) && queue0 != []
    requires Distinct(stack + queue0)
    requires ScanState(g, s, dist0, queue0[1..], dist0[queue0[0]].value, dist, queue)
    requires forall w :: Has(g, queue0[0], w) ==>
      w in dist && dist[w].Some? && dist[w].value <= dist0[queue0[0]].value + 1
    ensures BfsState(g, s, dist, queue, stack + [queue0[0]])
    ensures Distinct(stack + [queue0[0]] + queue)
    ensures |Unseen(dist)| < |Unseen(dist0)| || (|Unseen(dist)| == |Unseen(dist0)| && |queue| < |queue0|)
  {
    AfterScan(g, s, dist0, queue0, stack, dist, queue);
    ScanDistinct(g, s, dist0, queue0, stack, dist, queue, dist0[queue0[0]].value);
  }

  /**
    What the forward pass leaves for the backward one: the stack holds every
    reachable node once, in non-decreasing distance; `sigma` counts shortest
    walks and `pred` lists shortest-walk predecessors, once each.
   */
  ghost predicate Forward(g: Graph, s: int, stack: seq<int>, sigma: map<int, int>, pred: map<int, seq<int>>)
  {
    StackOrder(g, s, stack) && PredLists(g, s, pred) && Counts(g, s, sigma)
  }

  /** The stack holds every reachable node once, in non-decreasing distance. */
  ghost predicate StackOrder(g: Graph, s: int, stack: seq<int>)
  {
    && Distinct(stack)
    && (forall x :: x in stack <==> x in g && Reachable(g, s, x))
    && (forall i, j :: 0 <= i < j < |stack| ==>
          Distance(g, s, stack[i]).value <= Distance(g, s, stack[j]).value)
  }

  /** Each node's list holds its shortest-walk predecessors, once each. */
  ghost predicate PredLists(g: Graph, s: int, pred: map<int, seq<int>>)
  {
    && pred.Keys == g.Keys
    && (forall w :: w in g ==> Distinct(pred[w]) && forall u :: u in pred[w] <==> u in Preds(g, s, w))
  }

  /** Each node's count is its number of shortest walks. */
  ghost predicate Counts(g: Graph, s: int, sigma: map<int, int>)
  {
    sigma.Keys == g.Keys && forall w :: w in g ==> sigma[w] == Sigma(g, s, w)
  }

  /** Counts kept by the predecessor lists are the shortest-walk counts. */
  lemma {:induction false} FinalSigma(g: Graph, s: int, sigma: map<int, int>, pred: map<int, seq<int>>, w: int)
    requires sigma.Keys == g.Keys && pred.Keys == g.Keys
    requires forall x :: x in g ==> Distinct(pred[x])
    requires forall x, u :: x in g ==> (u in pred[x] <==> u in Preds(g, s, x))
    requires forall x :: x in g ==> sigma[x] == Base(s, x) + SumAt(sigma, pred[x])
    requires w in g
    ensures sigma[w] == Sigma(g, s, w)
    decreases Depth(g, s, w)
  {
    forall u | u in Preds(g, s, w)
      ensures At(sigma)(u) == SigmaTerms(g, s, w)(u)
    {
      FinalSigma(g, s, sigma, pred, u);
    }
    SumAtIsSumInt(sigma, pred[w]);
    assert (set x | x in pred[w]) == Preds(g, s, w);
    SumIntAgree(Preds(g, s, w), At(sigma), SigmaTerms(g, s, w));
    DistanceZero(g, s, w);
    if Distance(g, s, w).None? || w == s {
      assert Preds(g, s, w) == {};
    }
  }

  /** part2.py:55-63 — one round of the forward loop: dequeue `v`, push it on the stack, scan its neighbours. */
  method Dequeue(g: Graph, s: int, dist0: Distances, queue0: seq<int>, stack0: seq<int>,
                 sigma0: map<int, int>, pred0: map<int, seq<int>>)
    returns (dist: Distances, queue: seq<int>, stack: seq<int>, sigma: map<int, int>, pred: map<int, seq<int>>)
    requires Closed(g) && BfsState(g, s, dist0, queue0, stack0) && queue0 != []
    requires Distinct(stack0 + queue0)
    requires CountState(g, s, dist0, stack0, s, {}, 0, sigma0, pred0)
    ensures stack == stack0 + [queue0[0]]
    ensures BfsState(g, s, dist, queue, stack)
    ensures Distinct(stack + queue)
    ensures CountState(g, s, dist, stack, s, {}, 0, sigma, pred)
    ensures |Unseen(dist)| < |Unseen(dist0)| || (|Unseen(dist)| == |Unseen(dist0)| && |queue| < |queue0|)
  {
    var v := queue0[0];
    var d := dist0[v].value;
    BeforeCount(g, s, dist0, queue0, stack0, sigma0, pred0);
    stack := stack0 + [v];
    dist, queue, sigma, pred := CountNeighbours(g, s, dist0, queue0[1..], stack0, v, d, sigma0, pred0);
    AfterCount(g, s, dist0, queue0, stack0, dist, queue);
  }

  /** part2.py:47-63 — the forward pass of Brandes' algorithm from source `s`. */
  method ForwardPass(g: Graph, s: int) returns (stack: seq<int>, sigma: map<int, int>, pred: map<int, seq<int>>)
    requires s in g && Closed(g)
    ensures Forward(g, s, stack, sigma, pred)
    // and so `sigma[w]` is the number of shortest walks from `s` to `w`
    ensures forall w :: w in g ==> sigma[w] == |ShortestWalks(g, s, w)|
  {
    stack := [];
    pred := map w | w in g :: [];
    sigma := map w | w in g :: 0;
    var dist: Distances := map w | w in g :: None;
    sigma := sigma[s := 1];
    dist := dist[s := Some(0)];
    var queue := [s];
    ForwardInit(g, s, dist, sigma, pred);
    while queue != []
      invariant BfsState(g, s, dist, queue, stack)
      invariant Distinct(stack + queue)
      invariant CountState(g, s, dist, stack, s, {}, 0, sigma, pred)
      decreases |Unseen(dist)|, |queue|
    {
      dist, queue, stack, sigma, pred := Dequeue(g, s, dist, queue, stack, sigma, pred);
    }
    assert stack + queue == stack;
    LevellingIsDistance(g, s, dist);
    ForwardDone(g, s, dist, stack, sigma, pred);
    forall w | w in g
      ensures sigma[w] == |ShortestWalks(g, s, w)|
    {
      ShortestWalksCount(g, s, w);
    }
  }

  /** The seeded maps: only the source is levelled, with one walk and no predecessors. */
  lemma ForwardInit(g: Graph, s: int, dist: Distances, sigma: map<int, int>, pred: map<int, seq<int>>)
    requires s in g
    requires dist == (map w | w in g :: None)[s := Some(0)]
    requires sigma == (map w | w in g :: 0)[s := 1]
    requires pred == map w | w in g :: []
    ensures BfsState(g, s, dist, [s], [])
    ensures Distinct([] + [s])
    ensures CountState(g, s, dist, [], s, {}, 0, sigma, pred)
  {
    assert IsWalk(g, [s]);
  }

  /** When the queue runs dry the levels are the distances, and the counts are final. */
  lemma ForwardDone(g: Graph, s: int, dist: Distances, stack: seq<int>, sigma: map<int, int>, pred: map<int, seq<int>>)
    requires BfsState(g, s, dist, [], stack) && Distinct(stack)
    requires forall v :: v in g ==> dist[v] == Distance(g, s, v)
    requires CountState(g, s, dist, stack, s, {}, 0, sigma, pred)
    ensures Forward(g, s, stack, sigma, pred)
  {
    forall x, u | x in g
      ensures u in pred[x] <==> u in Preds(g, s, x)
    {
      assert PredArc(g, dist, stack, u, x) <==> u in Preds(g, s, x);
    }
    forall w | w in g
      ensures sigma[w] == Sigma(g, s, w)
    {
      FinalSigma(g, s, sigma, pred, w);
    }
  }

  // ----- The backward pass: accumulating dependencies (part2.py:64-70) -----

  /** The popped nodes `stack0[k..]` that list `v` as a predecessor. */
  ghost function PoppedSuccs(stack0: seq<int>, k: nat, pred: map<int, seq<int>>, v: int): set<int>
    requires k <= |stack0|
  {
    set x | x in stack0[k..] && x in pred && v in pred[x]
  }

  /**
    The state once `stack0[k..]` has been popped: `delta[v]` sums the shares
    of `v` in its popped successors, a popped node's `delta` is its whole
    dependency, and only popped nodes other than `s` have had it added to
    the centrality.
   */
  ghost predicate BackState(g: Graph, s: int, stack0: seq<int>, pred: map<int, seq<int>>, k: nat,
                            delta: map<int, real>, c0: map<int, real>, c: map<int, real>)
  {
    && k <= |stack0|
    && delta.Keys == g.Keys && c0.Keys == g.Keys && c.Keys == g.Keys
    && (forall v :: v in g ==> delta[v] == SumReal(PoppedSuccs(stack0, k, pred, v), Shares(g, s, v)))
    && (forall i :: k <= i < |stack0| ==> stack0[i] in delta && delta[stack0[i]] == Dependency(g, s, stack0[i]))
    && (forall w :: w in g ==> c[w] == c0[w] + (if w in stack0[k..] && w != s then Dependency(g, s, w) else 0.0))
  }

  /**
    part2.py:67-68 — the popped `w` hands each predecessor `v` the share
    `sigma[v] / sigma[w] * (1 + delta[w])`.
   */
  method AddShares(sigma: map<int, int>, pred: map<int, seq<int>>, w: int, delta0: map<int, real>)
    returns (delta: map<int, real>)
    requires w in sigma && sigma[w] > 0 && w in delta0
    requires w in pred && w !in pred[w] && Distinct(pred[w])
    requires forall v :: v in pred[w] ==> v in sigma && v in delta0
    ensures delta.Keys == delta0.Keys
    ensures forall v :: v in delta0 ==>
      delta[v] == delta0[v] + (if v in pred[w] then Share(sigma[v], sigma[w], delta0[w]) else 0.0)
  {
    delta := delta0;
    var preds := pred[w];
    var j := 0;
    while j < |preds|
      invariant 0 <= j <= |preds|
      invariant delta.Keys == delta0.Keys
      invariant forall v :: v in delta0 ==>
        delta[v] == delta0[v] + (if v in preds[..j] then Share(sigma[v], sigma[w], delta0[w]) else 0.0)
    {
      var v := preds[j];
      assert preds[..j + 1] == preds[..j] + [v] && v !in preds[..j];
      delta := delta[v := delta[v] + Share(sigma[v], sigma[w], delta[w])];
      j := j + 1;
    }
    assert preds[..j] == preds;
  }

  /**
    At a popped node `w` whose `delta` is its dependency, the share the
    code computes for each predecessor is its share in the dependency
    recurrence, and `sigma[w]` is at least 1, so the division is defined.
   */
  lemma ShareMatches(g: Graph, s: int, stack0: seq<int>, sigma: map<int, int>, pred: map<int, seq<int>>,
                     w: int, dw: real)
    requires Forward(g, s, stack0, sigma, pred)
    requires w in stack0 && dw == Dependency(g, s, w)
    ensures w in sigma && sigma[w] >= 1
    ensures w in pred && w !in pred[w] && Distinct(pred[w])
    ensures forall v :: v in pred[w] ==>
      v in g && v in sigma && Share(sigma[v], sigma[w], dw) == Shares(g, s, v)(w)
  {
    SigmaPositive(g, s, w);
    forall v | v in pred[w]
      ensures v in g && Share(sigma[v], sigma[w], dw) == Shares(g, s, v)(w)
    {
      assert v in Preds(g, s, w) && w in Succs(g, s, v);
    }
  }

  /** The node popped next is reachable, and every successor of it has been popped already. */
  lemma PoppedAll(g: Graph, s: int, stack0: seq<int>, pred: map<int, seq<int>>, k: nat)
    requires StackOrder(g, s, stack0) && PredLists(g, s, pred) && 0 < k <= |stack0|
    ensures stack0[k - 1] in g && Reachable(g, s, stack0[k - 1])
    ensures PoppedSuccs(stack0, k, pred, stack0[k - 1]) == Succs(g, s, stack0[k - 1])
  {
    var w := stack0[k - 1];
    assert forall i :: 0 <= i < k ==> Distance(g, s, stack0[i]).value <= Distance(g, s, w).value;
    forall x
      ensures x in PoppedSuccs(stack0, k, pred, w) <==> x in Succs(g, s, w)
    {
      if x in Succs(g, s, w) {
        var i :| 0 <= i < |stack0| && stack0[i] == x;
        assert stack0[k..][i - k] == x;
        assert w in Preds(g, s, x);
      }
    }
  }

  /** So its `delta`, summing the shares of its popped successors, is its whole dependency. */
  lemma PopFinal(g: Graph, s: int, stack0: seq<int>, pred: map<int, seq<int>>, k: nat, delta: map<int, real>)
    requires 0 < k <= |stack0| && Reachable(g, s, stack0[k - 1])
    requires PoppedSuccs(stack0, k, pred, stack0[k - 1]) == Succs(g, s, stack0[k - 1])
    requires stack0[k - 1] in delta
    requires delta[stack0[k - 1]] == SumReal(PoppedSuccs(stack0, k, pred, stack0[k - 1]), Shares(g, s, stack0[k - 1]))
    ensures delta[stack0[k - 1]] == Dependency(g, s, stack0[k - 1])
  {
  }

  /** Popping `w` adds it to the popped successors of exactly its predecessors. */
  lemma PopDelta(g: Graph, s: int, stack0: seq<int>, pred: map<int, seq<int>>, k: nat,
                 delta: map<int, real>, delta': map<int, real>)
    requires 0 < k <= |stack0| && stack0[k - 1] !in stack0[k..] && stack0[k - 1] in g
    requires pred.Keys == g.Keys && delta.Keys == g.Keys && delta'.Keys == g.Keys
    requires forall v :: v in g ==> delta[v] == SumReal(PoppedSuccs(stack0, k, pred, v), Shares(g, s, v))
    requires forall v :: v in g ==>
      delta'[v] == delta[v] + (if v in pred[stack0[k - 1]] then Shares(g, s, v)(stack0[k - 1]) else 0.0)
    ensures forall v :: v in g ==> delta'[v] == SumReal(PoppedSuccs(stack0, k - 1, pred, v), Shares(g, s, v))
  {
    var w := stack0[k - 1];
    assert stack0[k - 1..] == [w] + stack0[k..];
    forall v | v in g
      ensures delta'[v] == SumReal(PoppedSuccs(stack0, k - 1, pred, v), Shares(g, s, v))
    {
      var before, after := PoppedSuccs(stack0, k, pred, v), PoppedSuccs(stack0, k - 1, pred, v);
      if w in pred && v in pred[w] {
        assert after - {w} == before;
        SumRealRemove(after, Shares(g, s, v), w);
      } else {
        assert after == before;
      }
    }
  }

  /** `xs[k - 1..]` is `xs[k - 1]` followed by `xs[k..]`. */
  lemma SliceCons(xs: seq<int>, k: nat)
    requires 0 < k <= |xs|
    ensures xs[k - 1..] == [xs[k - 1]] + xs[k..]
    ensures forall x :: x in xs[k - 1..] <==> x == xs[k - 1] || x in xs[k..]
  {
    assert xs[k - 1..] == [xs[k - 1]] + xs[k..];
  }

  /** The node popped next is not popped yet, and no popped node is among its predecessors. */
  lemma PopOrder(g: Graph, s: int, stack0: seq<int>, pred: map<int, seq<int>>, k: nat)
    requires StackOrder(g, s, stack0) && PredLists(g, s, pred) && 0 < k <= |stack0|
    ensures stack0[k - 1] in g && stack0[k - 1] !in stack0[k..]
    ensures forall i :: k - 1 <= i < |stack0| ==> stack0[i] !in pred[stack0[k - 1]]
  {
    var w := stack0[k - 1];
    assert forall i :: k - 1 <= i < |stack0| ==> Distance(g, s, w).value <= Distance(g, s, stack0[i]).value;
    forall i | k - 1 <= i < |stack0|
      ensures stack0[i] !in pred[w]
    {
      assert stack0[i] !in Preds(g, s, w);
    }
  }

  /** Crediting the popped `w` with its dependency, unless it is the source. */
  lemma PopCredit(g: Graph, s: int, stack0: seq<int>, k: nat, dw: real,
                  c0: map<int, real>, c: map<int, real>, c': map<int, real>)
    requires 0 < k <= |stack0| && stack0[k - 1] in g && stack0[k - 1] !in stack0[k..]
    requires dw == Dependency(g, s, stack0[k - 1])
    requires c0.Keys == g.Keys && c.Keys == g.Keys
    requires forall x :: x in g ==> c[x] == c0[x] + (if x in stack0[k..] && x != s then Dependency(g, s, x) else 0.0)
    requires c'.Keys == g.Keys
    requires forall x :: x in g ==> c'[x] == c[x] + (if x == stack0[k - 1] && x != s then dw else 0.0)
    ensures forall x :: x in g ==> c'[x] == c0[x] + (if x in stack0[k - 1..] && x != s then Dependency(g, s, x) else 0.0)
  {
    SliceCons(stack0, k);
  }

  /** Popping `stack0[k - 1]`, once its shares are known to match the recurrence, keeps the state. */
  lemma PopKeep(g: Graph, s: int, stack0: seq<int>, sigma: map<int, int>, pred: map<int, seq<int>>, k: nat,
                delta: map<int, real>, c0: map<int, real>, c: map<int, real>,
                delta': map<int, real>, c': map<int, real>)
    requires BackState(g, s, stack0, pred, k, delta, c0, c) && 0 < k && pred.Keys == g.Keys
    requires stack0[k - 1] in g && stack0[k - 1] !in stack0[k..]
    requires forall i :: k - 1 <= i < |stack0| ==> stack0[i] !in pred[stack0[k - 1]]
    requires delta[stack0[k - 1]] == Dependency(g, s, stack0[k - 1])
    requires stack0[k - 1] in sigma && sigma[stack0[k - 1]] > 0
    requires forall v :: v in pred[stack0[k - 1]] ==>
      v in sigma && Share(sigma[v], sigma[stack0[k - 1]], delta[stack0[k - 1]]) == Shares(g, s, v)(stack0[k - 1])
    requires delta'.Keys == g.Keys
    requires forall v :: v in g ==> delta'[v] == delta[v] + (if v in pred[stack0[k - 1]] then
      Share(sigma[v], sigma[stack0[k - 1]], delta[stack0[k - 1]]) else 0.0)
    requires c'.Keys == g.Keys
    requires forall x :: x in g ==> c'[x] == c[x] + (if x == stack0[k - 1] && x != s then delta'[x] else 0.0)
    ensures BackState(g, s, stack0, pred, k - 1, delta', c0, c')
  {
    var w := stack0[k - 1];
    assert w !in pred[w];
    assert delta'[w] == delta[w];
    PopDelta(g, s, stack0, pred, k, delta, delta');
    PopCredit(g, s, stack0, k, delta'[w], c0, c, c');
  }

  /** The node popped next can share out its `delta`: its count is positive and its predecessors are listed once. */
  lemma PopReady(g: Graph, s: int, stack0: seq<int>, sigma: map<int, int>, pred: map<int, seq<int>>, k: nat,
                 delta: map<int, real>)
    requires Forward(g, s, stack0, sigma, pred) && 0 < k <= |stack0| && delta.Keys == g.Keys
    ensures stack0[k - 1] in sigma && sigma[stack0[k - 1]] > 0 && stack0[k - 1] in delta
    ensures stack0[k - 1] in pred && stack0[k - 1] !in pred[stack0[k - 1]] && Distinct(pred[stack0[k - 1]])
    ensures forall v :: v in pred[stack0[k - 1]] ==> v in sigma && v in delta
  {
    var w := stack0[k - 1];
    assert w in stack0;
    ShareMatches(g, s, stack0, sigma, pred, w, Dependency(g, s, w));
  }

  /** Popping `stack0[k - 1]`, sharing its `delta` out and crediting it keeps the state. */
  lemma PopStep(g: Graph, s: int, stack0: seq<int>, sigma: map<int, int>, pred: map<int, seq<int>>, k: nat,
                delta: map<int, real>, c0: map<int, real>, c: map<int, real>,
                delta': map<int, real>, c': map<int, real>)
    requires Forward(g, s, stack0, sigma, pred)
    requires BackState(g, s, stack0, pred, k, delta, c0, c) && 0 < k
    requires stack0[k - 1] in sigma && sigma[stack0[k - 1]] > 0 && stack0[k - 1] in delta && stack0[k - 1] in pred
    requires forall v :: v in pred[stack0[k - 1]] ==> v in sigma
    requires delta'.Keys == delta.Keys
    requires forall v :: v in delta ==> delta'[v] == delta[v] + (if v in pred[stack0[k - 1]] then
      Share(sigma[v], sigma[stack0[k - 1]], delta[stack0[k - 1]]) else 0.0)
    requires c'.Keys == c.Keys
    requires forall x :: x in c ==> c'[x] == c[x] + (if x == stack0[k - 1] && x != s then delta'[x] else 0.0)
    ensures BackState(g, s, stack0, pred, k - 1, delta', c0, c')
  {
    var w := stack0[k - 1];
    assert w in stack0;
    PoppedAll(g, s, stack0, pred, k);
    PopFinal(g, s, stack0, pred, k, delta);
    ShareMatches(g, s, stack0, sigma, pred, w, delta[w]);
    PopOrder(g, s, stack0, pred, k);
    PopKeep(g, s, stack0, sigma, pred, k, delta, c0, c, delta', c');
  }

  /** part2.py:69-70 — add `delta[w]` to the centrality of `w`, unless `w` is the source. */
  method Credit(c1: map<int, real>, s: int, w: int, delta: map<int, real>) returns (c: map<int, real>)
    requires w in c1 && w in delta
    ensures c.Keys == c1.Keys
    ensures forall x :: x in c1 ==> c[x] == c1[x] + (if x == w && x != s then delta[x] else 0.0)
  {
    c := c1;
    if w != s {
      c := c[w := c[w] + delta[w]];
    }
  }

  /**
    part2.py:66-70 — the body of the backward loop for the popped `w`: share
    its dependency out to its predecessors, then credit it unless it is the
    source.
   */
  method Accumulate(g: Graph, s: int, ghost stack0: seq<int>, sigma: map<int, int>, pred: map<int, seq<int>>,
                    w: int, ghost k: nat, delta0: map<int, real>, ghost c0: map<int, real>, c1: map<int, real>)
    returns (delta: map<int, real>, c: map<int, real>)
    requires Forward(g, s, stack0, sigma, pred)
    requires BackState(g, s, stack0, pred, k, delta0, c0, c1) && 0 < k && w == stack0[k - 1]
    ensures BackState(g, s, stack0, pred, k - 1, delta, c0, c)
  {
    PopReady(g, s, stack0, sigma, pred, k, delta0);
    delta := AddShares(sigma, pred, w, delta0);
    c := Credit(c1, s, w, delta);
    PopStep(g, s, stack0, sigma, pred, k, delta0, c0, c1, delta, c);
  }

  /** part2.py:64-70 — the backward pass from source `s`, adding each dependency on `s` to the centrality. */
  method BackwardPass(g: Graph, s: int, stack0: seq<int>, sigma: map<int, int>, pred: map<int, seq<int>>,
                      c0: map<int, real>) returns (c: map<int, real>)
    requires Forward(g, s, stack0, sigma, pred)
    requires c0.Keys == g.Keys
    ensures c.Keys == g.Keys
    ensures forall w :: w in g ==> c[w] == c0[w] + Contributions(g, w)(s)
  {
    var delta := map v | v in g :: 0.0;
    c := c0;
    var stack := stack0;
    BackInit(g, s, stack0, pred, delta, c0);
    while stack != []
      invariant stack == stack0[..|stack|]
      invariant BackState(g, s, stack0, pred, |stack|, delta, c0, c)
      decreases |stack|
    {
      ghost var k := |stack|;
      var w := stack[|stack| - 1];
      stack := stack[..|stack| - 1];
      assert stack == stack0[..k - 1];
      delta, c := Accumulate(g, s, stack0, sigma, pred, w, k, delta, c0, c);
    }
    BackDone(g, s, stack0, pred, delta, c0, c);
  }

  /** Before any pop nothing is shared out and nothing is credited. */
  lemma BackInit(g: Graph, s: int, stack0: seq<int>, pred: map<int, seq<int>>,
                 delta: map<int, real>, c0: map<int, real>)
    requires c0.Keys == g.Keys && delta == map v | v in g :: 0.0
    ensures BackState(g, s, stack0, pred, |stack0|, delta, c0, c0)
  {
    forall v | v in g
      ensures delta[v] == SumReal(PoppedSuccs(stack0, |stack0|, pred, v), Shares(g, s, v))
    {
      assert PoppedSuccs(stack0, |stack0|, pred, v) == {};
    }
  }

  /** Once the whole stack is popped, every node has been credited its dependency on `s`. */
  lemma BackDone(g: Graph, s: int, stack0: seq<int>, pred: map<int, seq<int>>,
                 delta: map<int, real>, c0: map<int, real>, c: map<int, real>)
    requires StackOrder(g, s, stack0)
    requires BackState(g, s, stack0, pred, 0, delta, c0, c)
    ensures c.Keys == g.Keys
    ensures forall w :: w in g ==> c[w] == c0[w] + Contributions(g, w)(s)
  {
    assert stack0[0..] == stack0;
  }

  /** part2.py:47-70 — one iteration of the loop over sources: both passes from `s`. */
  method SourceStep(g: Graph, s: int, c0: map<int, real>) returns (c: map<int, real>)
    requires s in g && Closed(g) && c0.Keys == g.Keys
    ensures c.Keys == g.Keys
    ensures forall v :: v in g ==> c[v] == c0[v] + Contributions(g, v)(s)
  {
    var stack, sigma, pred := ForwardPass(g, s);
    c := BackwardPass(g, s, stack, sigma, pred, c0);
  }

  /** Crediting one more source `s` extends the sum over sources by its contribution. */
  lemma AddSource(g: Graph, done: set<int>, s: int, c0: map<int, real>, c: map<int, real>)
    requires s !in done && c0.Keys == g.Keys && c.Keys == g.Keys
    requires forall v :: v in g ==> c0[v] == SumReal(done, Contributions(g, v))
    requires forall v :: v in g ==> c[v] == c0[v] + Contributions(g, v)(s)
    ensures forall v :: v in g ==> c[v] == SumReal(done + {s}, Contributions(g, v))
  {
    forall v | v in g
      ensures c[v] == SumReal(done + {s}, Contributions(g, v))
    {
      assert (done + {s}) - {s} == done;
      SumRealRemove(done + {s}, Contributions(g, v), s);
    }
  }

  /** part2.py:44-71 — `betweenness_centrality`: one forward and one backward pass per source. */
  method BetweennessCentrality(g: Graph) returns (c: map<int, real>)
    requires Closed(g)
    ensures c.Keys == g.Keys
    ensures forall v :: v in g ==> c[v] == BetweennessOf(g, v)
  {
    c := map v | v in g :: 0.0;
    var rest := g.Keys;
    assert g.Keys - rest == {};
    while rest != {}
      invariant rest <= g.Keys
      invariant c.Keys == g.Keys
      invariant forall v :: v in g ==> c[v] == SumReal(g.Keys - rest, Contributions(g, v))
      decreases rest
    {
      var s := Pick(rest);
      ghost var c0 := c;
      c := SourceStep(g, s, c);
      AddSource(g, g.Keys - rest, s, c0, c);
      assert g.Keys - (rest - {s}) == (g.Keys - rest) + {s};
      rest := rest - {s};
    }
    assert g.Keys - rest == g.Keys;
  }

  // ----- Consequences of the reference definitions -----

  /** In a symmetric graph a node with at most one neighbour `u` lies on no shortest walk from another source. */
  lemma LeafNoSuccs(g: Graph, s: int, v: int, u: int)
    requires Symmetric(g) && v in g && g[v] <= {u} && v != s
    ensures Succs(g, s, v) == {}
  {
    forall w | w in g && Has(g, v, w)
      ensures !OneFarther(g, s, v, w)
    {
      if Distance(g, s, v).Some? {
        var d := Distance(g, s, v).value;
        DistanceZero(g, s, v);
        var x := LastStep(g, s, v, d - 1);
        assert Has(g, v, x);
        LeastReach(g, s, x, d - 1);
        var e: nat :| e <= d - 1 && IsShortest(g, s, x, e);
        ShortestUnique(g, s, x, e);
      }
    }
  }

  /** Such a node has betweenness 0. */
  lemma LeafBetweennessZero(g: Graph, v: int, u: int)
    requires Symmetric(g) && v in g && g[v] <= {u}
    ensures BetweennessOf(g, v) == 0.0
  {
    forall s | s in g
      ensures Contributions(g, v)(s) == 0.0
    {
      if s != v {
        LeafNoSuccs(g, s, v, u);
      }
    }
    SumRealZero(g.Keys, Contributions(g, v));
  }

  /** Every two distinct nodes of `g` are neighbours. */
  ghost predicate Complete(g: Graph)
  {
    forall x, y :: x in g && y in g && x != y ==> Has(g, x, y)
  }

  /** In a complete graph no node other than the source has a successor. */
  lemma CompleteNoSuccs(g: Graph, s: int, v: int)
    requires Complete(g) && s in g && v in g && v != s
    ensures Succs(g, s, v) == {}
  {
    NeighbourDistance(g, s, v);
    forall w | w in g && Has(g, v, w)
      ensures !OneFarther(g, s, v, w)
    {
      DistanceZero(g, s, w);
      if w != s {
        NeighbourDistance(g, s, w);
      }
    }
  }

  /** In a complete graph every shortest walk is a single edge, so every betweenness is 0. */
  lemma CompleteBetweennessZero(g: Graph, v: int)
    requires Complete(g) && v in g
    ensures BetweennessOf(g, v) == 0.0
  {
    forall s | s in g
      ensures Contributions(g, v)(s) == 0.0
    {
      if s != v {
        CompleteNoSuccs(g, s, v);
      }
    }
    SumRealZero(g.Keys, Contributions(g, v));
  }

  /** The triangle: no node lies between the other two. */
  lemma TriangleBetweenness(g: Graph, a: int, b: int, c: int, v: int)
    requires g == map[a := {b, c}, b := {a, c}, c := {a, b}]
    requires v in g
    ensures BetweennessOf(g, v) == 0.0
  {
    assert Complete(g);
    CompleteBetweennessZero(g, v);
  }

  /** The path `a - b - c`. */
  ghost predicate IsPath3(g: Graph, a: int, b: int, c: int)
  {
    a != b && b != c && a != c &&
    g.Keys == {a, b, c} && g[a] == {b} && g[b] == {a, c} && g[c] == {b}
  }

  /** The distances from one end of the path. */
  lemma PathDistances(g: Graph, a: int, b: int, c: int)
    requires IsPath3(g, a, b, c)
    ensures Distance(g, a, a) == Some(0) && Distance(g, a, b) == Some(1) && Distance(g, a, c) == Some(2)
  {
    var level := map[a := Some(0), b := Some(1), c := Some(2)];
    assert IsWalk(g, [a]) && IsWalk(g, [a, b]) && IsWalk(g, [a, b, c]);
    assert Reaches(g, a, a, 0) && Reaches(g, a, b, 1) && Reaches(g, a, c, 2);
    assert IsLevelling(g, a, level);
    LevellingIsDistance(g, a, level);
  }

  /** From one end, the middle and the far end are each reached by exactly one shortest walk. */
  lemma PathSigmas(g: Graph, a: int, b: int, c: int)
    requires IsPath3(g, a, b, c)
    ensures Sigma(g, a, b) == 1 && Sigma(g, a, c) == 1
  {
    PathDistances(g, a, b, c);
    assert Preds(g, a, b) == {a};
    assert Preds(g, a, c) == {b};
    assert {a} - {a} == {} && {b} - {b} == {};
    assert Sigma(g, a, a) == 1;
    SumIntRemove({a}, SigmaTerms(g, a, b), a);
    assert SigmaTerms(g, a, b)(a) == 1;
    assert Sigma(g, a, b) == 1;
    SumIntRemove({b}, SigmaTerms(g, a, c), b);
    assert SigmaTerms(g, a, c)(b) == 1;
  }

  /** From one end of the path, the middle passes on a dependency of exactly 1: the one walk to the far end. */
  lemma PathEndDependency(g: Graph, a: int, b: int, c: int)
    requires IsPath3(g, a, b, c)
    ensures Dependency(g, a, b) == 1.0
  {
    assert Symmetric(g);
    PathDistances(g, a, b, c);
    PathSigmas(g, a, b, c);
    assert Succs(g, a, b) == {c};
    LeafNoSuccs(g, a, c, b);
    assert Dependency(g, a, c) == 0.0;
    assert {c} - {c} == {};
    SumRealRemove({c}, Shares(g, a, b), c);
    assert Shares(g, a, b)(c) == Share(1, 1, 0.0);
  }

  /**
    The middle of a three-node path has betweenness 2: each end counts the
    walk through it to the other end, so an unordered pair is counted once
    from each side, without the halving of the undirected definition.
   */
  lemma PathMiddleBetweenness(g: Graph, a: int, b: int, c: int)
    requires IsPath3(g, a, b, c)
    ensures BetweennessOf(g, b) == 2.0
  {
    PathEndDependency(g, a, b, c);
    assert IsPath3(g, c, b, a);
    PathEndDependency(g, c, b, a);
    var f := Contributions(g, b);
    assert {a, b, c} - {a} == {b, c} && {b, c} - {b} == {c} && {c} - {c} == {};
    SumRealRemove({a, b, c}, f, a);
    SumRealRemove({b, c}, f, b);
    SumRealRemove({c}, f, c);
  }

  /** The ends of a three-node path lie on no shortest walk between others: betweenness 0. */
  lemma PathEndsBetweenness(g: Graph, a: int, b: int, c: int)
    requires IsPath3(g, a, b, c)
    ensures BetweennessOf(g, a) == 0.0 && BetweennessOf(g, c) == 0.0
  {
    assert Symmetric(g);
    LeafBetweennessZero(g, a, b);
    LeafBetweennessZero(g, c, b);
  }

  /** A star: the centre `c` is linked to each leaf of `leaves`, and each leaf only to the centre. */
  ghost predicate IsStar(g: Graph, c: int, leaves: set<int>)
  {
    c !in leaves && g.Keys == leaves + {c} && g[c] == leaves &&
    forall l :: l in leaves ==> g[l] == {c}
  }

  /** From a leaf `s`: the centre is one step away, every other leaf two. */
  lemma StarDistances(g: Graph, c: int, leaves: set<int>, s: int)
    requires IsStar(g, c, leaves) && s in leaves
    ensures Distance(g, s, s) == Some(0) && Distance(g, s, c) == Some(1)
    ensures forall l :: l in leaves && l != s ==> Distance(g, s, l) == Some(2)
  {
    var level := map x | x in g :: if x == s then Some(0) else if x == c then Some(1) else Some(2);
    forall v | v in level
      ensures Reaches(g, s, v, level[v].value)
    {
      if v == s {
        assert IsWalk(g, [s]);
      } else if v == c {
        assert IsWalk(g, [s, c]);
      } else {
        assert IsWalk(g, [s, c, v]);
      }
    }
    assert IsLevelling(g, s, level);
    LevellingIsDistance(g, s, level);
  }

  /** From a leaf `s`, each other leaf is reached by one shortest walk and passes nothing back. */
  lemma StarLeafCounts(g: Graph, c: int, leaves: set<int>, s: int, l: int)
    requires IsStar(g, c, leaves) && s in leaves && l in leaves && l != s
    ensures Sigma(g, s, c) == 1 && Sigma(g, s, l) == 1 && Dependency(g, s, l) == 0.0
  {
    StarDistances(g, c, leaves, s);
    assert Preds(g, s, c) == {s};
    assert Preds(g, s, l) == {c};
    assert {s} - {s} == {} && {c} - {c} == {};
    assert Sigma(g, s, s) == 1;
    SumIntRemove({s}, SigmaTerms(g, s, c), s);
    assert SigmaTerms(g, s, c)(s) == 1;
    assert Sigma(g, s, c) == 1;
    SumIntRemove({c}, SigmaTerms(g, s, l), c);
    assert SigmaTerms(g, s, l)(c) == 1;
    assert Symmetric(g);
    LeafNoSuccs(g, s, l, c);
  }

  /** From a leaf `s`, the successors of the centre are the other leaves. */
  lemma StarSuccs(g: Graph, c: int, leaves: set<int>, s: int)
    requires IsStar(g, c, leaves) && s in leaves
    ensures Succs(g, s, c) == leaves - {s}
    ensures Distance(g, s, c).Some?
  {
    StarDistances(g, c, leaves, s);
    forall w
      ensures w in Succs(g, s, c) <==> w in leaves - {s}
    {
      if w in leaves - {s} {
        assert Has(g, c, w) && OneFarther(g, s, c, w);
      }
    }
  }

  /** From a leaf, the centre lies on the one shortest walk to each of the other leaves. */
  lemma StarCentreDependency(g: Graph, c: int, leaves: set<int>, s: int)
    requires IsStar(g, c, leaves) && s in leaves
    ensures Dependency(g, s, c) == |leaves| as real - 1.0
  {
    StarSuccs(g, c, leaves, s);
    var shares := Shares(g, s, c);
    forall l | l in leaves - {s}
      ensures shares(l) == 1.0
    {
      StarLeafCounts(g, c, leaves, s, l);
      assert shares(l) == Share(1, 1, 0.0);
    }
    SumRealOnes(leaves - {s}, shares);
    assert |leaves - {s}| == |leaves| - 1;
  }

  /**
    The centre of a star with `k` leaves has betweenness `k * (k - 1)`: each
    ordered pair of distinct leaves counts the one walk through it, and the
    leaves have betweenness 0.
   */
  lemma StarBetweenness(g: Graph, c: int, leaves: set<int>)
    requires IsStar(g, c, leaves)
    ensures BetweennessOf(g, c) == (|leaves| * (|leaves| - 1)) as real
    ensures forall l :: l in leaves ==> BetweennessOf(g, l) == 0.0
  {
    StarCentreBetweenness(g, c, leaves, |leaves|);
    assert Symmetric(g);
    forall l | l in leaves
      ensures BetweennessOf(g, l) == 0.0
    {
      LeafBetweennessZero(g, l, c);
    }
  }

  /** The centre of a star with `n` leaves collects `n - 1` from each of them. */
  lemma StarCentreBetweenness(g: Graph, c: int, leaves: set<int>, n: nat)
    requires IsStar(g, c, leaves) && n == |leaves|
    ensures BetweennessOf(g, c) == (n * (n - 1)) as real
  {
    var f := Contributions(g, c);
    forall s | s in leaves
      ensures f(s) == (n - 1) as real
    {
      StarCentreDependency(g, c, leaves, s);
    }
    assert g.Keys - {c} == leaves;
    SumRealRemove(g.Keys, f, c);
    assert f(c) == 0.0;
    assert SumReal(g.Keys, f) == SumReal(leaves, f);
    SumRealConstInt(leaves, f, n - 1, n);
  }
}
