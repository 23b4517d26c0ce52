/**
  Adjacency maps as the analyser builds and reads them: a finite map from a
  node id to the set of its neighbour ids, with the two dictionary
  operations the builder uses on it.
 */
module Graphs {

  /** `{node: set(neighbours)}` */
  type Graph = map<int, set<int>>

  /** `b` is listed as a neighbour of `a`. */
  predicate Has(g: Graph, a: int, b: int)
  {
    a in g && b in g[a]
  }

  /** `b in graph[a]` iff `a in graph[b]`. */
  ghost predicate Symmetric(g: Graph)
  {
    forall a, b :: Has(g, a, b) ==> Has(g, b, a)
  }

  /** Every id listed as a neighbour is itself a key. */
  ghost predicate Closed(g: Graph)
  {
    forall a, b :: Has(g, a, b) ==> b in g
  }

  /** `graph.setdefault(x, set())`: adds `x` with no neighbours unless it is already a key. */
  function SetDefault(g: Graph, x: int): (r: Graph)
    ensures r.Keys == g.Keys + {x}
    ensures forall a, b :: Has(r, a, b) <==> Has(g, a, b)
  {
    if x in g then g else g[x := {}]
  }

  /** `graph[a].add(b)`, which raises KeyError unless `a` is a key. */
  function AddArc(g: Graph, a: int, b: int): (r: Graph)
    requires a in g
    ensures r.Keys == g.Keys
    ensures forall u, v :: Has(r, u, v) <==> Has(g, u, v) || (u == a && v == b)
  {
    g[a := g[a] + {b}]
  }

  /** The paired insertion `graph[a].add(b); graph[b].add(a)`. */
  function Link(g: Graph, a: int, b: int): (r: Graph)
    requires a in g && b in g
    ensures r.Keys == g.Keys
    ensures forall u, v :: Has(r, u, v) <==> Has(g, u, v) || (u == a && v == b) || (u == b && v == a)
  {
    AddArc(AddArc(g, a, b), b, a)
  }

  /** No element occurs twice. */
  predicate Distinct(xs: seq<int>)
  {
    forall p, q :: 0 <= p < q < |xs| ==> xs[p] != xs[q]
  }

  /** Two lists without repeats and without common elements join into one without repeats. */
  lemma DistinctConcat(xs: seq<int>, ys: seq<int>)
    requires Distinct(xs) && Distinct(ys)
    requires forall i, j :: 0 <= i < |xs| && 0 <= j < |ys| ==> xs[i] != ys[j]
    ensures Distinct(xs + ys)
  {
    forall p, q | 0 <= p < q < |xs + ys|
      ensures (xs + ys)[p] != (xs + ys)[q]
    {
      if q >= |xs| && p < |xs| {
        assert (xs + ys)[q] == ys[q - |xs|];
      } else if p >= |xs| {
        assert (xs + ys)[p] == ys[p - |xs|] && (xs + ys)[q] == ys[q - |xs|];
      }
    }
  }

  /** One element of a non-empty set, in whatever order the set is iterated. */
  method Pick<T>(s: set<T>) returns (x: T)
    requires s != {}
    ensures x in s
  {
    x :| x in s;
  }

  /** Two graphs with the same keys and the same neighbour relation are equal. */
  lemma {:induction false} SameArcsSameGraph(g1: Graph, g2: Graph)
    requires g1.Keys == g2.Keys
    requires forall a, b :: Has(g1, a, b) <==> Has(g2, a, b)
    ensures g1 == g2
  {
    forall a | a in g1
      ensures g1[a] == g2[a]
    {
      forall b
        ensures b in g1[a] <==> b in g2[a]
      {
        assert Has(g1, a, b) <==> Has(g2, a, b);
      }
    }
  }
}
