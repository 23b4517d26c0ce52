/**
  Walks and shortest distances in an adjacency map, defined without
  reference to any search order: the yardstick for the breadth-first
  searches of part2.py.
 */
module Walks {
  import opened Graphs

  datatype Option<T> = None | Some(value: T)

  /** A non-empty sequence of nodes, each listing the next as a neighbour. */
  ghost predicate IsWalk(g: Graph, p: seq<int>)
  {
    |p| > 0 && forall i :: 0 <= i < |p| - 1 ==> Has(g, p[i], p[i + 1])
  }

  /** Some walk of exactly `k` edges leads from `s` to `v`. */
  ghost predicate Reaches(g: Graph, s: int, v: int, k: nat)
  {
    exists p :: IsWalk(g, p) && |p| == k + 1 && p[0] == s && p[k] == v
  }

  /** `v` can be reached from `s` at all. */
  ghost predicate Reachable(g: Graph, s: int, v: int)
  {
    exists k: nat :: Reaches(g, s, v, k)
  }

  /** `d` is the length of a shortest walk from `s` to `v`. */
  ghost predicate IsShortest(g: Graph, s: int, v: int, d: nat)
  {
    Reaches(g, s, v, d) && forall k: nat :: k < d ==> !Reaches(g, s, v, k)
  }

  /** The shortest-path distance from `s` to `v`, or None when `v` is unreachable. */
  ghost function Distance(g: Graph, s: int, v: int): (r: Option<nat>)
    ensures r.Some? <==> Reachable(g, s, v)
    ensures r.Some? ==> IsShortest(g, s, v, r.value)
  {
    if Reachable(g, s, v) then
      var k: nat :| Reaches(g, s, v, k);
      LeastReach(g, s, v, k);
      var d: nat :| IsShortest(g, s, v, d);
      Some(d)
    else
      None
  }

  /** A reachable node has a shortest distance, no larger than any walk to it. */
  lemma {:induction false} LeastReach(g: Graph, s: int, v: int, k: nat)
    requires Reaches(g, s, v, k)
    ensures exists d: nat :: d <= k && IsShortest(g, s, v, d)
    decreases k
  {
    if !IsShortest(g, s, v, k) {
      var k': nat :| k' < k && Reaches(g, s, v, k');
      LeastReach(g, s, v, k');
    }
  }

  /** Distance is 0 exactly at the source. */
  lemma DistanceZero(g: Graph, s: int, v: int)
    ensures Distance(g, s, v) == Some(0) <==> v == s
  {
    if v == s {
      assert IsWalk(g, [s]);
      assert Reaches(g, s, s, 0);
    }
  }

  /** The shortest distance is the only length with the shortest property. */
  lemma ShortestUnique(g: Graph, s: int, v: int, d: nat)
    requires IsShortest(g, s, v, d)
    ensures Distance(g, s, v) == Some(d)
  {
    var e := Distance(g, s, v).value;
    assert !(e < d) && !(d < e);
  }

  /** A walk to `u` followed by an edge to `w` is a walk to `w`. */
  lemma ExtendWalk(g: Graph, s: int, u: int, w: int, k: nat)
    requires Reaches(g, s, u, k) && Has(g, u, w)
    ensures Reaches(g, s, w, k + 1)
  {
    var p :| IsWalk(g, p) && |p| == k + 1 && p[0] == s && p[k] == u;
    var q := p + [w];
    assert IsWalk(g, q);
  }

  /** A walk of `k + 1` edges ends with an edge from a node reached in `k`. */
  lemma LastStep(g: Graph, s: int, w: int, k: nat) returns (u: int)
    requires Reaches(g, s, w, k + 1)
    ensures Reaches(g, s, u, k) && Has(g, u, w)
  {
    var p :| IsWalk(g, p) && |p| == k + 2 && p[0] == s && p[k + 1] == w;
    u := p[k];
    var q := p[..k + 1];
    assert IsWalk(g, q);
  }

  /** An edge `u -> w` gives `w` a distance at most one more than `u`'s. */
  lemma EdgeDistance(g: Graph, s: int, u: int, w: int)
    requires Reachable(g, s, u) && Has(g, u, w)
    ensures Reachable(g, s, w)
    ensures Distance(g, s, w).value <= Distance(g, s, u).value + 1
  {
    var du := Distance(g, s, u).value;
    ExtendWalk(g, s, u, w, du);
    LeastReach(g, s, w, du + 1);
  }

  /**
    The certificate a breadth-first search leaves behind: the source is at
    level 0, every level is the length of some walk, and every neighbour of a
    levelled node is levelled at most one further. Such levels are exactly the
    shortest distances.
   */
  ghost predicate IsLevelling(g: Graph, s: int, level: map<int, Option<nat>>)
  {
    && level.Keys == g.Keys
    && s in g && level[s] == Some(0)
    && (forall v :: v in level && level[v].Some? ==> Reaches(g, s, v, level[v].value))
    && (forall u, w :: u in level && level[u].Some? && Has(g, u, w) ==>
          w in level && level[w].Some? && level[w].value <= level[u].value + 1)
  }

  lemma LevellingIsDistance(g: Graph, s: int, level: map<int, Option<nat>>)
    requires IsLevelling(g, s, level)
    ensures forall v :: v in g ==> level[v] == Distance(g, s, v)
  {
    forall v | v in g
      ensures level[v] == Distance(g, s, v)
    {
      if Reachable(g, s, v) {
        var k: nat :| Reaches(g, s, v, k);
        LevelBelowWalk(g, s, level, v, k);
        LeastReach(g, s, v, k);
        var d := level[v].value;
        forall k': nat | k' < d
          ensures !Reaches(g, s, v, k')
        {
          if Reaches(g, s, v, k') {
            LevelBelowWalk(g, s, level, v, k');
          }
        }
        ShortestUnique(g, s, v, d);
      }
    }
  }

  /** Every walk from the source ends at a levelled node whose level is at most the walk's length. */
  lemma {:induction false} LevelBelowWalk(g: Graph, s: int, level: map<int, Option<nat>>, v: int, k: nat)
    requires IsLevelling(g, s, level)
    requires Reaches(g, s, v, k)
    ensures v in level && level[v].Some? && level[v].value <= k
    decreases k
  {
    if k == 0 {
      var p :| IsWalk(g, p) && |p| == 1 && p[0] == s && p[0] == v;
    } else {
      var u := LastStep(g, s, v, k - 1);
      LevelBelowWalk(g, s, level, u, k - 1);
    }
  }
}
