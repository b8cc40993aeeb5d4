/**
  The dependency graph: an undirected graph whose nodes are feature indices.

  Graphs are values.  Taking a subgraph, removing nodes and splitting into
  connected components all build new graphs; nothing is shared between two
  graphs.  An undirected edge is stored once, under the key of its two
  endpoints with the smaller one first; a key (u, u) is a self-loop.
*/
module DependencyGraph {

  /** The key under which the undirected edge between u and v is stored. */
  function EdgeKey(u: nat, v: nat): (nat, nat)
  {
    if u <= v then (u, v) else (v, u)
  }

  datatype Graph = Graph(nodes: set<nat>, edges: set<(nat, nat)>)

  /** Every edge is stored under its key and joins two nodes of the graph. */
  predicate WellFormed(g: Graph)
  {
    forall e :: e in g.edges ==> e.0 <= e.1 && e.0 in g.nodes && e.1 in g.nodes
  }

  predicate Adjacent(g: Graph, u: nat, v: nat)
  {
    EdgeKey(u, v) in g.edges
  }

  /** The subgraph induced by the nodes `s`: the nodes of `g` in `s` and
      every edge of `g` between two of them. */
  function Induced(g: Graph, s: set<nat>): (h: Graph)
    ensures h.nodes == g.nodes * s
    ensures WellFormed(g) ==> WellFormed(h)
    ensures forall u, v :: Adjacent(h, u, v) <==> Adjacent(g, u, v) && u in s && v in s
  {
    Graph(g.nodes * s, set e | e in g.edges && e.0 in s && e.1 in s)
  }

  /** Removing the nodes of `cut` together with their incident edges. */
  function RemoveNodes(g: Graph, cut: set<nat>): (h: Graph)
    ensures WellFormed(g) ==> h == Induced(g, g.nodes - cut)
  {
    var h := Graph(g.nodes - cut, set e | e in g.edges && e.0 !in cut && e.1 !in cut);
    assert WellFormed(g) ==> h.edges == Induced(g, g.nodes - cut).edges;
    h
  }

  /** Inducing twice is inducing once on the intersection. */
  lemma InducedOfInduced(g: Graph, s: set<nat>, t: set<nat>)
    ensures Induced(Induced(g, s), t) == Induced(g, s * t)
  {
    assert Induced(Induced(g, s), t).edges == Induced(g, s * t).edges;
  }

  /** Every two distinct nodes are adjacent. */
  predicate Complete(g: Graph)
  {
    forall u, v {:trigger Adjacent(g, u, v)} :: u in g.nodes && v in g.nodes && u != v ==> Adjacent(g, u, v)
  }

  /** The edges of the complement graph: the pairs of distinct nodes that
      are not adjacent (self-loops are never part of a complement). */
  function ComplementEdges(g: Graph): (r: set<(nat, nat)>)
    ensures r == {} <==> Complete(g)
  {
    var r := set u, v | u in g.nodes && v in g.nodes && u < v && !Adjacent(g, u, v) :: (u, v);
    assert !Complete(g) ==> r != {} by {
      if !Complete(g) {
        var u, v :| u in g.nodes && v in g.nodes && u != v && !Adjacent(g, u, v);
        if u < v {
          assert (u, v) in r;
        } else {
          assert EdgeKey(v, u) == EdgeKey(u, v);
          assert (v, u) in r;
        }
      }
    }
    r
  }

  // ---------------------------------------------------------------------
  // Paths, reachability and connected components

  ghost predicate IsPath(g: Graph, p: seq<nat>)
  {
    && |p| > 0
    && (forall i :: 0 <= i < |p| ==> p[i] in g.nodes)
    && (forall i :: 0 <= i < |p| - 1 ==> Adjacent(g, p[i], p[i + 1]))
  }

  ghost predicate Reachable(g: Graph, u: nat, v: nat)
  {
    exists p {:trigger IsPath(g, p)} :: IsPath(g, p) && p[0] == u && p[|p| - 1] == v
  }

  /** The connected component of `u`: every node reachable from it. */
  ghost function Component(g: Graph, u: nat): set<nat>
  {
    set v | v in g.nodes && Reachable(g, u, v)
  }

  ghost predicate Connected(g: Graph)
  {
    forall u, v {:trigger Reachable(g, u, v)} :: u in g.nodes && v in g.nodes ==> Reachable(g, u, v)
  }

  lemma ReachableRefl(g: Graph, u: nat)
    requires u in g.nodes
    ensures Reachable(g, u, u)
  {
    assert IsPath(g, [u]);
  }

  lemma ReachableSym(g: Graph, u: nat, v: nat)
    requires Reachable(g, u, v)
    ensures Reachable(g, v, u)
  {
    var p :| IsPath(g, p) && p[0] == u && p[|p| - 1] == v;
    var n := |p|;
    var q := seq(n, i requires 0 <= i < n => p[n - 1 - i]);
    forall i | 0 <= i < n - 1
      ensures Adjacent(g, q[i], q[i + 1])
    {
      assert Adjacent(g, p[n - 2 - i], p[n - 1 - i]);
      assert EdgeKey(p[n - 2 - i], p[n - 1 - i]) == EdgeKey(q[i], q[i + 1]);
    }
    assert IsPath(g, q);
  }

  lemma ReachableTrans(g: Graph, u: nat, v: nat, w: nat)
    requires Reachable(g, u, v) && Reachable(g, v, w)
    ensures Reachable(g, u, w)
  {
    var p :| IsPath(g, p) && p[0] == u && p[|p| - 1] == v;
    var q :| IsPath(g, q) && q[0] == v && q[|q| - 1] == w;
    var r := p + q[1..];
    forall i | 0 <= i < |r| - 1
      ensures Adjacent(g, r[i], r[i + 1])
    {
      if i < |p| - 1 {
        assert r[i] == p[i] && r[i + 1] == p[i + 1];
      } else {
        var k := i - |p| + 1;
        assert r[i] == q[k] && r[i + 1] == q[k + 1];
      }
    }
    assert IsPath(g, r);
  }

  /** Every node on a path is reachable from the path's first node. */
  lemma PathPrefixReachable(g: Graph, p: seq<nat>, i: nat)
    requires IsPath(g, p) && i < |p|
    ensures Reachable(g, p[0], p[i])
  {
    assert IsPath(g, p[..i + 1]);
  }

  /** A node of the component of `u` has the same component as `u`. */
  lemma ComponentOfMember(g: Graph, u: nat, v: nat)
    requires v in Component(g, u)
    ensures Component(g, v) == Component(g, u)
  {
    ReachableSym(g, u, v);
    forall w | w in Component(g, v) ensures w in Component(g, u) {
      ReachableTrans(g, u, v, w);
    }
    forall w | w in Component(g, u) ensures w in Component(g, v) {
      ReachableTrans(g, v, u, w);
    }
  }

  /** The subgraph induced by a connected component is connected. */
  lemma ComponentConnected(g: Graph, u: nat)
    requires u in g.nodes
    ensures Connected(Induced(g, Component(g, u)))
  {
    var c := Component(g, u);
    var h := Induced(g, c);
    forall v, w | v in h.nodes && w in h.nodes
      ensures Reachable(h, v, w)
    {
      ReachableSym(g, u, v);
      ReachableTrans(g, v, u, w);
      var p :| IsPath(g, p) && p[0] == v && p[|p| - 1] == w;
      forall i | 0 <= i < |p|
        ensures p[i] in c
      {
        PathPrefixReachable(g, p, i);
        ReachableTrans(g, u, v, p[i]);
      }
      assert IsPath(h, p);
    }
  }

  /** `cs` lists the connected components of `g`, each exactly once, in
      some order: the contract of networkx's connected_components. */
  ghost predicate IsComponentList(g: Graph, cs: seq<set<nat>>)
  {
    && (forall i :: 0 <= i < |cs| ==>
          cs[i] != {} && forall v :: v in cs[i] ==> cs[i] == Component(g, v))
    && (forall v :: v in g.nodes ==> exists i :: 0 <= i < |cs| && v in cs[i])
    && (forall i, j :: 0 <= i < j < |cs| ==> cs[i] != cs[j])
  }

  // ---------------------------------------------------------------------
  // Node cuts

  /** Removing the non-empty proper subset `cut` of the nodes disconnects `g`. */
  ghost predicate IsNodeCut(g: Graph, cut: set<nat>)
  {
    cut != {} && cut < g.nodes && !Connected(RemoveNodes(g, cut))
  }

  /** A node cut of the smallest size: the contract of networkx's
      minimum_node_cut (ties are left to the library). */
  ghost predicate IsMinimumNodeCut(g: Graph, cut: set<nat>)
  {
    IsNodeCut(g, cut) && forall other {:trigger IsNodeCut(g, other)} :: IsNodeCut(g, other) ==> |cut| <= |other|
  }

  /** A path between two distinct, non-adjacent nodes passes through a third node. */
  lemma {:induction false} PathLeavesPair(g: Graph, p: seq<nat>, u: nat, v: nat)
    requires IsPath(g, p) && p[0] == u && p[|p| - 1] == v
    requires u != v && !Adjacent(g, u, v)
    ensures exists i :: 0 <= i < |p| && p[i] != u && p[i] != v
    decreases |p|
  {
    assert |p| >= 2;
    if p[1] == u {
      PathLeavesPair(g, p[1..], u, v);
      var i :| 0 <= i < |p[1..]| && p[1..][i] != u && p[1..][i] != v;
      assert p[i + 1] != u && p[i + 1] != v;
    } else {
      assert Adjacent(g, p[0], p[1]);
    }
  }

  /** Every connected graph that is not complete has a node cut: all nodes
      but two non-adjacent ones. */
  lemma NodeCutExists(g: Graph)
    requires WellFormed(g) && Connected(g) && !Complete(g)
    ensures exists cut :: IsNodeCut(g, cut)
  {
    var u, v :| u in g.nodes && v in g.nodes && u != v && !Adjacent(g, u, v);
    var cut := g.nodes - {u, v};
    var h := RemoveNodes(g, cut);
    assert h.nodes == {u, v};
    assert Reachable(g, u, v);
    var p :| IsPath(g, p) && p[0] == u && p[|p| - 1] == v;
    PathLeavesPair(g, p, u, v);
    var i :| 0 <= i < |p| && p[i] != u && p[i] != v;
    assert p[i] in cut;
    if Reachable(h, u, v) {
      var q :| IsPath(h, q) && q[0] == u && q[|q| - 1] == v;
      PathLeavesPair(h, q, u, v);
      assert false;
    }
    assert u !in cut;
    assert IsNodeCut(g, cut);
  }

  lemma {:induction false} MinimumNodeCutBelow(g: Graph, cut: set<nat>)
    requires IsNodeCut(g, cut)
    ensures exists m :: IsMinimumNodeCut(g, m)
    decreases |cut|
  {
    if other :| IsNodeCut(g, other) && |other| < |cut| {
      MinimumNodeCutBelow(g, other);
    } else {
      assert IsMinimumNodeCut(g, cut);
    }
  }

  /** The contract of minimum_node_cut can be met on every graph it is called on. */
  lemma MinimumNodeCutExists(g: Graph)
    requires WellFormed(g) && Connected(g) && !Complete(g)
    ensures exists m :: IsMinimumNodeCut(g, m)
  {
    NodeCutExists(g);
    var cut :| IsNodeCut(g, cut);
    MinimumNodeCutBelow(g, cut);
  }

  // ---------------------------------------------------------------------
  // Lists of subgraphs

  /** The set of all components of `g`. */
  ghost function Components(g: Graph): set<set<nat>>
  {
    set u | u in g.nodes :: Component(g, u)
  }

  /** Some listing of a finite set, without repetition. */
  ghost function Enumerate(s: set<set<nat>>): (q: seq<set<nat>>)
    ensures forall x :: x in s <==> x in q
    ensures forall i, j :: 0 <= i < j < |q| ==> q[i] != q[j]
    decreases |s|
  {
    if s == {} then []
    else
      var x :| x in s;
      [x] + Enumerate(s - {x})
  }

  /** The contract of connected_components can be met on every graph. */
  lemma ComponentListExists(g: Graph)
    ensures exists cs :: IsComponentList(g, cs)
  {
    var cs := Enumerate(Components(g));
    forall i | 0 <= i < |cs|
      ensures cs[i] != {} && forall v :: v in cs[i] ==> cs[i] == Component(g, v)
    {
      assert cs[i] in Components(g);
      var u :| u in g.nodes && cs[i] == Component(g, u);
      ReachableRefl(g, u);
      assert u in cs[i];
      forall v | v in cs[i] ensures cs[i] == Component(g, v) {
        ComponentOfMember(g, u, v);
      }
    }
    forall v | v in g.nodes
      ensures exists i :: 0 <= i < |cs| && v in cs[i]
    {
      ReachableRefl(g, v);
      assert Component(g, v) in Components(g);
    }
    assert IsComponentList(g, cs);
  }

  /** The subgraphs induced by the node sets `cs`, in order. */
  function Subgraphs(g: Graph, cs: seq<set<nat>>): (s: seq<Graph>)
    ensures |s| == |cs|
  {
    seq(|cs|, i requires 0 <= i < |cs| => Induced(g, cs[i]))
  }

  /** Every node that belongs to some graph of `s`. */
  ghost function UnionNodes(s: seq<Graph>): set<nat>
  {
    set i, v | 0 <= i < |s| && v in s[i].nodes :: v
  }

  /** No node belongs to two graphs of `s`. */
  ghost predicate PairwiseDisjoint(s: seq<Graph>)
  {
    forall i, j :: 0 <= i < |s| && 0 <= j < |s| && i != j ==> s[i].nodes !! s[j].nodes
  }

  /** The subgraphs of the components of `g` are connected, share no node
      and together hold every node of `g`. */
  lemma ComponentSubgraphs(g: Graph, cs: seq<set<nat>>)
    requires IsComponentList(g, cs)
    ensures forall i :: 0 <= i < |cs| ==>
      Subgraphs(g, cs)[i].nodes == cs[i] && cs[i] != {} && Connected(Subgraphs(g, cs)[i])
    ensures PairwiseDisjoint(Subgraphs(g, cs))
    ensures UnionNodes(Subgraphs(g, cs)) == g.nodes
  {
    var s := Subgraphs(g, cs);
    forall i | 0 <= i < |cs|
      ensures s[i].nodes == cs[i] && Connected(s[i])
    {
      ComponentSubgraph(g, cs, i);
    }
    forall i, j | 0 <= i < |s| && 0 <= j < |s| && i != j
      ensures s[i].nodes !! s[j].nodes
    {
      ComponentSubgraph(g, cs, i);
      ComponentSubgraph(g, cs, j);
      assert cs[i] != cs[j] by {
        if i < j { assert cs[i] != cs[j]; } else { assert cs[j] != cs[i]; }
      }
      forall v | v in cs[i] ensures v !in cs[j] {
        assert cs[i] == Component(g, v);
      }
    }
    forall v | v in g.nodes ensures v in UnionNodes(s) {
      var i :| 0 <= i < |cs| && v in cs[i];
      ComponentSubgraph(g, cs, i);
      assert v in s[i].nodes;
    }
    forall v | v in UnionNodes(s) ensures v in g.nodes {
      var i :| 0 <= i < |s| && v in s[i].nodes;
      ComponentSubgraph(g, cs, i);
    }
  }

  lemma ComponentSubgraph(g: Graph, cs: seq<set<nat>>, i: nat)
    requires IsComponentList(g, cs) && i < |cs|
    ensures Subgraphs(g, cs)[i] == Induced(g, cs[i])
    ensures Subgraphs(g, cs)[i].nodes == cs[i] && cs[i] <= g.nodes
    ensures Connected(Subgraphs(g, cs)[i])
  {
    var u :| u in cs[i];
    assert cs[i] == Component(g, u);
    assert u in g.nodes;
    ComponentConnected(g, u);
  }
}
