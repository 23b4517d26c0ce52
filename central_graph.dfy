/**
  `build_central_graph` of part2.py: a graph on the root users only, in
  which two roots are linked when their friend dictionaries share a key.
 */
module CentralGraph {
  import opened Graphs
  import opened FullGraph

  /** The roots of a dictionary are distinct keys. */
  predicate DistinctRoots(s: Structure)
  {
    forall i, j :: 0 <= i < j < |s| ==> s[i].root != s[j].root
  }

  /** `set(graph[a].keys())` */
  function FriendKeys(re: RootEntry): (r: set<int>)
    ensures forall x :: x in r <==> exists k :: 0 <= k < |re.friends| && re.friends[k].friend == x
  {
    set k | 0 <= k < |re.friends| :: re.friends[k].friend
  }

  /** `friends_a & friends_b` is non-empty. */
  ghost predicate ShareFriend(r1: RootEntry, r2: RootEntry)
  {
    exists x :: x in FriendKeys(r1) && x in FriendKeys(r2)
  }

  /** The keys of the input. */
  function Roots(s: Structure): (r: set<int>)
    ensures forall x :: x in r <==> exists i :: 0 <= i < |s| && s[i].root == x
  {
    set i | 0 <= i < |s| :: s[i].root
  }

  lemma ShareFriendIff(r1: RootEntry, r2: RootEntry)
    ensures ShareFriend(r1, r2) <==> FriendKeys(r1) * FriendKeys(r2) != {}
  {
    if FriendKeys(r1) * FriendKeys(r2) != {} {
      var x :| x in FriendKeys(r1) * FriendKeys(r2);
    }
    if ShareFriend(r1, r2) {
      var x :| x in FriendKeys(r1) && x in FriendKeys(r2);
      assert x in FriendKeys(r1) * FriendKeys(r2);
    }
  }

  /** Row `i` of the pair loop, columns below `m`. */
  ghost predicate CentralRowArc(s: Structure, i: nat, m: nat, a: int, b: int)
    requires i < |s| && m <= |s|
  {
    exists j :: i < j < m && a == s[i].root && b == s[j].root && ShareFriend(s[i], s[j])
  }

  /** Rows below `n` of the pair loop. */
  ghost predicate CentralArc(s: Structure, n: nat, a: int, b: int)
    requires n <= |s|
  {
    exists i :: 0 <= i < n && CentralRowArc(s, i, |s|, a, b)
  }

  /** `list(v)` of a set: its elements, each once, in the set's iteration order. */
  method ToList(v: set<int>) returns (xs: seq<int>)
    ensures Distinct(xs)
    ensures forall x :: x in xs <==> x in v
  {
    xs := [];
    var rest := v;
    while rest != {}
      invariant rest <= v
      invariant Distinct(xs)
      invariant forall x :: x in xs <==> x in v && x !in rest
      decreases rest
    {
      var x := Pick(rest);
      xs := xs + [x];
      rest := rest - {x};
    }
  }

  /** part2.py:8-14 for one `i`: link root `i` with each later root sharing a friend. */
  method CentralRow(g0: Graph, s: Structure, i: nat) returns (g: Graph)
    requires i < |s|
    requires g0.Keys == Roots(s)
    ensures g.Keys == g0.Keys
    ensures forall a, b :: Has(g, a, b) <==> Has(g0, a, b) || CentralRowArc(s, i, |s|, a, b) || CentralRowArc(s, i, |s|, b, a)
  {
    var a := s[i].root;
    var friendsA := FriendKeys(s[i]);
    g := g0;
    var j := i + 1;
    while j < |s|
      invariant i + 1 <= j <= |s|
      invariant g.Keys == g0.Keys
      invariant forall u, v :: Has(g, u, v) <==> Has(g0, u, v) || CentralRowArc(s, i, j, u, v) || CentralRowArc(s, i, j, v, u)
    {
      var b := s[j].root;
      var friendsB := FriendKeys(s[j]);
      ShareFriendIff(s[i], s[j]);
      if friendsA * friendsB != {} {
        g := Link(g, a, b);
      }
      j := j + 1;
    }
  }

  /** part2.py:15 — `{k: list(v) for k, v in simplified.items()}`. */
  method ToLists(g: Graph) returns (r: map<int, seq<int>>)
    ensures r.Keys == g.Keys
    ensures forall a :: a in r ==> Distinct(r[a]) && forall b :: b in r[a] <==> Has(g, a, b)
  {
    r := map[];
    var keys := g.Keys;
    while keys != {}
      invariant keys <= g.Keys
      invariant r.Keys == g.Keys - keys
      invariant forall a :: a in r ==> Distinct(r[a]) && forall b :: b in r[a] <==> Has(g, a, b)
      decreases keys
    {
      var a := Pick(keys);
      var xs := ToList(g[a]);
      r := r[a := xs];
      keys := keys - {a};
    }
  }

  /** part2.py:5-14 — the graph on the roots built by the pair loop. */
  method LinkSharing(s: Structure) returns (g: Graph)
    ensures g.Keys == Roots(s)
    ensures forall a, b :: Has(g, a, b) <==> CentralArc(s, |s|, a, b) || CentralArc(s, |s|, b, a)
  {
    g := map x | x in Roots(s) :: {};
    var i := 0;
    while i < |s|
      invariant 0 <= i <= |s|
      invariant g.Keys == Roots(s)
      invariant forall a, b :: Has(g, a, b) <==> CentralArc(s, i, a, b) || CentralArc(s, i, b, a)
    {
      g := CentralRow(g, s, i);
      i := i + 1;
    }
  }

  /** part2.py:4-15 — `build_central_graph`. */
  method BuildCentralGraph(s: Structure) returns (r: map<int, seq<int>>)
    requires DistinctRoots(s)
    ensures r.Keys == Roots(s)
    ensures forall i, j :: 0 <= i < |s| && 0 <= j < |s| ==>
      (s[j].root in r[s[i].root] <==> i != j && ShareFriend(s[i], s[j]))
    ensures forall a, b :: a in r && b in r[a] ==> b in r && a in r[b] && a != b
    ensures forall a :: a in r ==> Distinct(r[a])
  {
    var simplified := LinkSharing(s);
    CentralArcIff(s, simplified);
    r := ToLists(simplified);
    assert forall a, b :: a in r ==> (b in r[a] <==> Has(simplified, a, b));
  }

  /** The pair loop links exactly the distinct roots that share a friend, in both directions. */
  lemma CentralArcIff(s: Structure, g: Graph)
    requires DistinctRoots(s)
    requires forall a, b :: Has(g, a, b) <==> CentralArc(s, |s|, a, b) || CentralArc(s, |s|, b, a)
    ensures forall i, j :: 0 <= i < |s| && 0 <= j < |s| ==>
      (Has(g, s[i].root, s[j].root) <==> i != j && ShareFriend(s[i], s[j]))
    ensures forall a, b :: Has(g, a, b) ==> a != b && Has(g, b, a)
  {
    forall a, b | CentralArc(s, |s|, a, b)
      ensures a != b
      ensures exists p, q :: 0 <= p < |s| && 0 <= q < |s| && p != q && a == s[p].root && b == s[q].root && ShareFriend(s[p], s[q]) && ShareFriend(s[q], s[p])
    {
      var p :| 0 <= p < |s| && CentralRowArc(s, p, |s|, a, b);
      var q :| p < q < |s| && a == s[p].root && b == s[q].root && ShareFriend(s[p], s[q]);
      var x :| x in FriendKeys(s[p]) && x in FriendKeys(s[q]);
      assert ShareFriend(s[q], s[p]);
    }
    forall i, j | 0 <= i < |s| && 0 <= j < |s|
      ensures Has(g, s[i].root, s[j].root) <==> i != j && ShareFriend(s[i], s[j])
    {
      if Has(g, s[i].root, s[j].root) {
        var a, b := s[i].root, s[j].root;
        if CentralArc(s, |s|, a, b) {
          var p, q :| 0 <= p < |s| && 0 <= q < |s| && p != q && a == s[p].root && b == s[q].root && ShareFriend(s[p], s[q]) && ShareFriend(s[q], s[p]);
          assert p == i && q == j;
        } else {
          var p, q :| 0 <= p < |s| && 0 <= q < |s| && p != q && b == s[p].root && a == s[q].root && ShareFriend(s[p], s[q]) && ShareFriend(s[q], s[p]);
          assert p == j && q == i;
        }
      }
      if i != j && ShareFriend(s[i], s[j]) {
        var x :| x in FriendKeys(s[i]) && x in FriendKeys(s[j]);
        if i < j {
          assert CentralRowArc(s, i, |s|, s[i].root, s[j].root);
          assert CentralArc(s, |s|, s[i].root, s[j].root);
        } else {
          assert ShareFriend(s[j], s[i]);
          assert CentralRowArc(s, j, |s|, s[j].root, s[i].root);
          assert CentralArc(s, |s|, s[j].root, s[i].root);
        }
      }
    }
  }
}
