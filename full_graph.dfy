/**
  The graph builder of part1.py (`build_full_graph`): it turns the two-hop
  structure `{root: {friend: [friends_of_friend]}}` into an undirected
  adjacency map by four passes, each inserting every edge in both
  directions.

  The structure is a dictionary of dictionaries whose iteration order is
  insertion order; here it is a sequence of entries in that order. Each loop
  of the original is one method below, and each method states its new graph
  as the old one plus exactly the arcs of its rule.
 */
module FullGraph {
  import opened Graphs

  /** `friend: [friends_of_friend]` */
  datatype FriendEntry = FriendEntry(friend: int, foafs: seq<int>)

  /** `root: {friend: [friends_of_friend], ...}` */
  datatype RootEntry = RootEntry(root: int, friends: seq<FriendEntry>)

  /** `{root: {friend: [friends_of_friend]}}`, in dictionary order. */
  type Structure = seq<RootEntry>

  // ---------------------------------------------------------------------
  // The arcs each rule contributes (directed; every rule inserts both ways)
  // ---------------------------------------------------------------------

  /** Rule 2: a friend and each id in its list. */
  ghost predicate FoafArc(fe: FriendEntry, a: int, b: int)
  {
    a == fe.friend && b in fe.foafs
  }

  /** Rules 1 and 2 for the first `n` friends of `root`. */
  ghost predicate StarArc(root: int, fs: seq<FriendEntry>, n: nat, a: int, b: int)
    requires n <= |fs|
  {
    exists k :: 0 <= k < n && ((a == root && b == fs[k].friend) || FoafArc(fs[k], a, b))
  }

  /** The ids rules 1 and 2 register for the first `n` friends. */
  ghost predicate StarMentions(fs: seq<FriendEntry>, n: nat, x: int)
    requires n <= |fs|
  {
    exists k :: 0 <= k < n && (x == fs[k].friend || x in fs[k].foafs)
  }

  /** Rule 3, row `i`, columns below `m`: friend `i` and a later friend found in `i`'s list. */
  ghost predicate CrossRowArc(fs: seq<FriendEntry>, i: nat, m: nat, a: int, b: int)
    requires i < |fs| && m <= |fs|
  {
    exists j :: i < j < m && a == fs[i].friend && b == fs[j].friend && b in fs[i].foafs
  }

  /** Rule 3 for the rows below `n`. */
  ghost predicate CrossArc(fs: seq<FriendEntry>, n: nat, a: int, b: int)
    requires n <= |fs|
  {
    exists i :: 0 <= i < n && CrossRowArc(fs, i, |fs|, a, b)
  }

  /** Rule 4, row `i`, columns below `m`: entry `i` of a list and a later entry. */
  ghost predicate CliqueRowArc(xs: seq<int>, i: nat, m: nat, a: int, b: int)
    requires i < |xs| && m <= |xs|
  {
    exists j :: i < j < m && a == xs[i] && b == xs[j]
  }

  /** Rule 4 for the rows below `n` of one list. */
  ghost predicate CliqueArc(xs: seq<int>, n: nat, a: int, b: int)
    requires n <= |xs|
  {
    exists i :: 0 <= i < n && CliqueRowArc(xs, i, |xs|, a, b)
  }

  /** Rule 4 for the lists of the first `n` friends. */
  ghost predicate CliquesArc(fs: seq<FriendEntry>, n: nat, a: int, b: int)
    requires n <= |fs|
  {
    exists k :: 0 <= k < n && CliqueArc(fs[k].foafs, |fs[k].foafs|, a, b)
  }

  /** The ids rule 4 registers for the lists of the first `n` friends. */
  ghost predicate CliquesMentions(fs: seq<FriendEntry>, n: nat, x: int)
    requires n <= |fs|
  {
    exists k :: 0 <= k < n && 2 <= |fs[k].foafs| && x in fs[k].foafs
  }

  /** Every arc the four rules derive from one root entry. */
  ghost predicate RootArc(re: RootEntry, a: int, b: int)
  {
    || StarArc(re.root, re.friends, |re.friends|, a, b)
    || CrossArc(re.friends, |re.friends|, a, b)
    || CliquesArc(re.friends, |re.friends|, a, b)
  }

  /** `x` is the root of `re`, one of its friends, or in one of their lists. */
  ghost predicate RootMentions(re: RootEntry, x: int)
  {
    x == re.root || StarMentions(re.friends, |re.friends|, x)
  }

  /** Arcs of the first `n` root entries. */
  ghost predicate ArcBelow(s: Structure, n: nat, a: int, b: int)
    requires n <= |s|
  {
    exists k :: 0 <= k < n && RootArc(s[k], a, b)
  }

  /** Ids of the first `n` root entries. */
  ghost predicate MentionedBelow(s: Structure, n: nat, x: int)
    requires n <= |s|
  {
    exists k :: 0 <= k < n && RootMentions(s[k], x)
  }

  /** Some rule links `a` and `b`, in one direction or the other. */
  ghost predicate Adjacent(s: Structure, a: int, b: int)
  {
    ArcBelow(s, |s|, a, b) || ArcBelow(s, |s|, b, a)
  }

  /** `x` is a root, a friend or an entry of some friend's list. */
  ghost predicate Mentioned(s: Structure, x: int)
  {
    MentionedBelow(s, |s|, x)
  }

  /** The graph built from `s`: its keys are the mentioned ids and its edges the derived ones. */
  ghost predicate IsFullGraph(s: Structure, g: Graph)
  {
    && (forall x :: x in g <==> Mentioned(s, x))
    && (forall a, b :: Has(g, a, b) <==> Adjacent(s, a, b))
  }

  // ---------------------------------------------------------------------
  // The passes
  // ---------------------------------------------------------------------

  /** part1.py:60-63 — link a friend with each id of its list. */
  method LinkFoafs(g0: Graph, fe: FriendEntry) returns (g: Graph)
    requires fe.friend in g0
    ensures forall x :: x in g <==> x in g0 || x in fe.foafs
    ensures forall a, b :: Has(g, a, b) <==> Has(g0, a, b) || FoafArc(fe, a, b) || FoafArc(fe, b, a)
  {
    g := g0;
    var i := 0;
    while i < |fe.foafs|
      invariant 0 <= i <= |fe.foafs|
      invariant forall x :: x in g <==> x in g0 || x in fe.foafs[..i]
      invariant forall a, b :: Has(g, a, b) <==>
        || Has(g0, a, b)
        || (a == fe.friend && b in fe.foafs[..i])
        || (b == fe.friend && a in fe.foafs[..i])
    {
      var foaf := fe.foafs[i];
      assert fe.foafs[..i + 1] == fe.foafs[..i] + [foaf];
      g := SetDefault(g, foaf);
      g := Link(g, fe.friend, foaf);
      i := i + 1;
    }
    assert fe.foafs[..i] == fe.foafs;
  }

  /** part1.py:54-63 — link the root with each friend, and each friend with its list. */
  method LinkFriends(g0: Graph, root: int, fs: seq<FriendEntry>) returns (g: Graph)
    requires root in g0
    ensures forall x :: x in g <==> x in g0 || StarMentions(fs, |fs|, x)
    ensures forall a, b :: Has(g, a, b) <==> Has(g0, a, b) || StarArc(root, fs, |fs|, a, b) || StarArc(root, fs, |fs|, b, a)
  {
    g := g0;
    var k := 0;
    while k < |fs|
      invariant 0 <= k <= |fs|
      invariant root in g
      invariant forall x :: x in g <==> x in g0 || StarMentions(fs, k, x)
      invariant forall a, b :: Has(g, a, b) <==> Has(g0, a, b) || StarArc(root, fs, k, a, b) || StarArc(root, fs, k, b, a)
    {
      var friend := fs[k].friend;
      g := SetDefault(g, friend);
      g := Link(g, root, friend);
      g := LinkFoafs(g, fs[k]);
      k := k + 1;
    }
  }

  /** part1.py:69-76 for one `i` — link friend `i` with each later friend found in its list. */
  method CrossLinkRow(g0: Graph, fs: seq<FriendEntry>, i: nat) returns (g: Graph)
    requires i < |fs|
    requires forall k :: 0 <= k < |fs| ==> fs[k].friend in g0
    ensures g.Keys == g0.Keys
    ensures forall a, b :: Has(g, a, b) <==> Has(g0, a, b) || CrossRowArc(fs, i, |fs|, a, b) || CrossRowArc(fs, i, |fs|, b, a)
  {
    var f1 := fs[i].friend;
    var foaf1 := set x | x in fs[i].foafs;
    g := g0;
    var j := i + 1;
    while j < |fs|
      invariant i + 1 <= j <= |fs|
      invariant g.Keys == g0.Keys
      invariant forall a, b :: Has(g, a, b) <==> Has(g0, a, b) || CrossRowArc(fs, i, j, a, b) || CrossRowArc(fs, i, j, b, a)
    {
      var f2 := fs[j].friend;
      if f2 in foaf1 {
        g := Link(g, f1, f2);
      }
      j := j + 1;
    }
  }

  /** part1.py:67-76 — the cross-link pass among the first-hop friends of one root. */
  method CrossLink(g0: Graph, fs: seq<FriendEntry>) returns (g: Graph)
    requires forall k :: 0 <= k < |fs| ==> fs[k].friend in g0
    ensures g.Keys == g0.Keys
    ensures forall a, b :: Has(g, a, b) <==> Has(g0, a, b) || CrossArc(fs, |fs|, a, b) || CrossArc(fs, |fs|, b, a)
  {
    g := g0;
    var i := 0;
    while i < |fs|
      invariant 0 <= i <= |fs|
      invariant g.Keys == g0.Keys
      invariant forall a, b :: Has(g, a, b) <==> Has(g0, a, b) || CrossArc(fs, i, a, b) || CrossArc(fs, i, b, a)
    {
      g := CrossLinkRow(g, fs, i);
      i := i + 1;
    }
  }

  /** part1.py:83-89 for one `i` — link entry `i` of a list with every later entry. */
  method CliqueRow(g0: Graph, xs: seq<int>, i: nat) returns (g: Graph)
    requires i < |xs|
    ensures forall x :: x in g <==> x in g0 || (i + 1 < |xs| && (x == xs[i] || x in xs[i + 1..]))
    ensures forall a, b :: Has(g, a, b) <==> Has(g0, a, b) || CliqueRowArc(xs, i, |xs|, a, b) || CliqueRowArc(xs, i, |xs|, b, a)
  {
    g := g0;
    var j := i + 1;
    while j < |xs|
      invariant i + 1 <= j <= |xs|
      invariant forall x :: x in g <==> x in g0 || (i + 1 < j && (x == xs[i] || x in xs[i + 1..j]))
      invariant forall a, b :: Has(g, a, b) <==> Has(g0, a, b) || CliqueRowArc(xs, i, j, a, b) || CliqueRowArc(xs, i, j, b, a)
    {
      var a, b := xs[i], xs[j];
      assert xs[i + 1..j + 1] == xs[i + 1..j] + [b];
      CliqueRowNext(xs, i, j);
      g := SetDefault(g, a);
      g := SetDefault(g, b);
      g := Link(g, a, b);
      j := j + 1;
    }
  }

  /** Column `j` adds the one arc `xs[i] -> xs[j]` to row `i`. */
  lemma CliqueRowNext(xs: seq<int>, i: nat, j: nat)
    requires i < j < |xs|
    ensures forall a, b :: CliqueRowArc(xs, i, j + 1, a, b) <==> CliqueRowArc(xs, i, j, a, b) || (a == xs[i] && b == xs[j])
  {
  }

  /** part1.py:81-89 — make one friend's list a clique. */
  method CliqueOne(g0: Graph, xs: seq<int>) returns (g: Graph)
    ensures forall x :: x in g <==> x in g0 || (2 <= |xs| && x in xs)
    ensures forall a, b :: Has(g, a, b) <==> Has(g0, a, b) || CliqueArc(xs, |xs|, a, b) || CliqueArc(xs, |xs|, b, a)
  {
    g := g0;
    var i := 0;
    while i < |xs|
      invariant 0 <= i <= |xs|
      invariant forall x :: x in g <==> x in g0 || (0 < i && 2 <= |xs| && x in xs)
      invariant forall a, b :: Has(g, a, b) <==> Has(g0, a, b) || CliqueArc(xs, i, a, b) || CliqueArc(xs, i, b, a)
    {
      g := CliqueRow(g, xs, i);
      i := i + 1;
    }
  }

  /** part1.py:80-89 — the clique pass over every friend's list of one root. */
  method Cliques(g0: Graph, fs: seq<FriendEntry>) returns (g: Graph)
    ensures forall x :: x in g <==> x in g0 || CliquesMentions(fs, |fs|, x)
    ensures forall a, b :: Has(g, a, b) <==> Has(g0, a, b) || CliquesArc(fs, |fs|, a, b) || CliquesArc(fs, |fs|, b, a)
  {
    g := g0;
    var k := 0;
    while k < |fs|
      invariant 0 <= k <= |fs|
      invariant forall x :: x in g <==> x in g0 || CliquesMentions(fs, k, x)
      invariant forall a, b :: Has(g, a, b) <==> Has(g0, a, b) || CliquesArc(fs, k, a, b) || CliquesArc(fs, k, b, a)
    {
      g := CliqueOne(g, fs[k].foafs);
      k := k + 1;
    }
  }

  /** part1.py:50-89 — everything the builder does for one root entry. */
  method AddRoot(g0: Graph, re: RootEntry) returns (g: Graph)
    ensures forall x :: x in g <==> x in g0 || RootMentions(re, x)
    ensures forall a, b :: Has(g, a, b) <==> Has(g0, a, b) || RootArc(re, a, b) || RootArc(re, b, a)
  {
    var fs := re.friends;
    g := SetDefault(g0, re.root);
    g := LinkFriends(g, re.root, fs);
    assert forall k :: 0 <= k < |fs| ==> StarMentions(fs, |fs|, fs[k].friend);
    g := CrossLink(g, fs);
    g := Cliques(g, fs);
    forall x | CliquesMentions(fs, |fs|, x)
      ensures StarMentions(fs, |fs|, x)
    {
      var k :| 0 <= k < |fs| && 2 <= |fs[k].foafs| && x in fs[k].foafs;
    }
  }

  /** part1.py:42-91 — `build_full_graph`. */
  method BuildFullGraph(s: Structure) returns (g: Graph)
    ensures IsFullGraph(s, g)
    ensures Symmetric(g) && Closed(g)
  {
    g := map[];
    var n := 0;
    while n < |s|
      invariant 0 <= n <= |s|
      invariant forall x :: x in g <==> MentionedBelow(s, n, x)
      invariant forall a, b :: Has(g, a, b) <==> ArcBelow(s, n, a, b) || ArcBelow(s, n, b, a)
    {
      g := AddRoot(g, s[n]);
      n := n + 1;
    }
    forall a, b | Has(g, a, b)
      ensures b in g
    {
      AdjacentMentioned(s, a, b);
    }
  }

  // ---------------------------------------------------------------------
  // What the built graph contains
  // ---------------------------------------------------------------------

  /** Both ends of a derived edge are registered as keys (closure). */
  lemma AdjacentMentioned(s: Structure, a: int, b: int)
    requires Adjacent(s, a, b)
    ensures Mentioned(s, a) && Mentioned(s, b)
  {
    forall u, v | ArcBelow(s, |s|, u, v)
      ensures Mentioned(s, u) && Mentioned(s, v)
    {
      var k :| 0 <= k < |s| && RootArc(s[k], u, v);
      RootArcMentions(s[k], u, v);
    }
  }

  lemma RootArcMentions(re: RootEntry, a: int, b: int)
    requires RootArc(re, a, b)
    ensures RootMentions(re, a) && RootMentions(re, b)
  {
    var fs := re.friends;
    if StarArc(re.root, fs, |fs|, a, b) {
      var k :| 0 <= k < |fs| && ((a == re.root && b == fs[k].friend) || FoafArc(fs[k], a, b));
    } else if CrossArc(fs, |fs|, a, b) {
      CrossArcIsStarArc(re.root, fs, a, b);
      assert false;
    } else {
      var k :| 0 <= k < |fs| && CliqueArc(fs[k].foafs, |fs[k].foafs|, a, b);
      var xs := fs[k].foafs;
      var i :| 0 <= i < |xs| && CliqueRowArc(xs, i, |xs|, a, b);
      var j :| i < j < |xs| && a == xs[i] && b == xs[j];
    }
  }

  /**
    The cross-link pass adds no edge of its own: `f2` in the list of `f1`
    already linked `f1` and `f2` through rule 2.
   */
  lemma CrossArcIsStarArc(root: int, fs: seq<FriendEntry>, a: int, b: int)
    requires CrossArc(fs, |fs|, a, b)
    ensures StarArc(root, fs, |fs|, a, b)
  {
    var i :| 0 <= i < |fs| && CrossRowArc(fs, i, |fs|, a, b);
    assert FoafArc(fs[i], a, b);
  }

  /** Rule 1: each root is adjacent to every friend listed under it. */
  lemma RootFriendAdjacent(s: Structure, k: nat, j: nat)
    requires k < |s| && j < |s[k].friends|
    ensures Adjacent(s, s[k].root, s[k].friends[j].friend)
  {
    var re := s[k];
    assert StarArc(re.root, re.friends, |re.friends|, re.root, re.friends[j].friend);
    assert RootArc(re, re.root, re.friends[j].friend);
  }

  /** Rule 2: each friend is adjacent to every id in its list. */
  lemma FriendFoafAdjacent(s: Structure, k: nat, j: nat, x: int)
    requires k < |s| && j < |s[k].friends| && x in s[k].friends[j].foafs
    ensures Adjacent(s, s[k].friends[j].friend, x)
  {
    var re := s[k];
    assert FoafArc(re.friends[j], re.friends[j].friend, x);
    assert StarArc(re.root, re.friends, |re.friends|, re.friends[j].friend, x);
    assert RootArc(re, re.friends[j].friend, x);
  }

  /** Rule 4: entries at two distinct positions of one friend's list are adjacent. */
  lemma CliqueAdjacent(s: Structure, k: nat, j: nat, p: nat, q: nat)
    requires k < |s| && j < |s[k].friends|
    requires p < |s[k].friends[j].foafs| && q < |s[k].friends[j].foafs| && p != q
    ensures Adjacent(s, s[k].friends[j].foafs[p], s[k].friends[j].foafs[q])
  {
    var re := s[k];
    var xs := re.friends[j].foafs;
    var lo, hi := if p < q then p else q, if p < q then q else p;
    assert CliqueRowArc(xs, lo, |xs|, xs[lo], xs[hi]);
    assert CliqueArc(xs, |xs|, xs[lo], xs[hi]);
    assert CliquesArc(re.friends, |re.friends|, xs[lo], xs[hi]);
    assert RootArc(re, xs[lo], xs[hi]);
    assert ArcBelow(s, |s|, xs[lo], xs[hi]);
  }

  /**
    The ways an id can become its own neighbour: a root lists itself as a
    friend, a friend lists itself, or an id occurs twice in one list.
   */
  ghost predicate LoopCause(s: Structure, a: int)
  {
    exists k, j :: 0 <= k < |s| && 0 <= j < |s[k].friends| &&
      (|| (s[k].root == a && s[k].friends[j].friend == a)
       || (s[k].friends[j].friend == a && a in s[k].friends[j].foafs)
       || DuplicateIn(s[k].friends[j].foafs, a))
  }

  /** `a` occurs at two distinct positions of `xs`. */
  ghost predicate DuplicateIn(xs: seq<int>, a: int)
  {
    exists p, q :: 0 <= p < q < |xs| && xs[p] == a && xs[q] == a
  }

  /** The builder suppresses no self-loop, and creates one exactly in the cases of LoopCause. */
  lemma SelfLoopIff(s: Structure, a: int)
    ensures Adjacent(s, a, a) <==> LoopCause(s, a)
  {
    if Adjacent(s, a, a) {
      var k :| 0 <= k < |s| && RootArc(s[k], a, a);
      var fs := s[k].friends;
      if StarArc(s[k].root, fs, |fs|, a, a) {
        var j :| 0 <= j < |fs| && ((a == s[k].root && a == fs[j].friend) || FoafArc(fs[j], a, a));
      } else if CrossArc(fs, |fs|, a, a) {
        CrossArcIsStarArc(s[k].root, fs, a, a);
        assert false;
      } else {
        var j :| 0 <= j < |fs| && CliqueArc(fs[j].foafs, |fs[j].foafs|, a, a);
        var xs := fs[j].foafs;
        var p :| 0 <= p < |xs| && CliqueRowArc(xs, p, |xs|, a, a);
        var q :| p < q < |xs| && a == xs[p] && a == xs[q];
        assert DuplicateIn(xs, a);
      }
    }
    if LoopCause(s, a) {
      var k, j :| 0 <= k < |s| && 0 <= j < |s[k].friends| &&
        (|| (s[k].root == a && s[k].friends[j].friend == a)
         || (s[k].friends[j].friend == a && a in s[k].friends[j].foafs)
         || DuplicateIn(s[k].friends[j].foafs, a));
      if DuplicateIn(s[k].friends[j].foafs, a) {
        var p, q :| 0 <= p < q < |s[k].friends[j].foafs| && s[k].friends[j].foafs[p] == a && s[k].friends[j].foafs[q] == a;
        CliqueAdjacent(s, k, j, p, q);
      } else if s[k].root == a && s[k].friends[j].friend == a {
        RootFriendAdjacent(s, k, j);
      } else {
        FriendFoafAdjacent(s, k, j, a);
      }
    }
  }

  /** Building twice from the same structure yields the same graph. */
  lemma FullGraphUnique(s: Structure, g1: Graph, g2: Graph)
    requires IsFullGraph(s, g1) && IsFullGraph(s, g2)
    ensures g1 == g2
  {
    assert forall x :: x in g1.Keys <==> x in g2.Keys;
    assert g1.Keys == g2.Keys;
    SameArcsSameGraph(g1, g2);
  }
}
