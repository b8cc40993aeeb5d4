/**
  The full pipeline (`pfa1_full`): p-values, the thresholded adjacency
  matrix, the dependency graph, and its decomposition into complete
  subgraphs.
*/
module Pipeline {
  import opened DependencyGraph
  import opened CorrelationEngine
  import opened AdjacencyBuilder
  import opened GraphPartitioner

  /** What pfa1_full returns: the complete subgraphs, and the node set and
      edge set of each, in the same order. */
  datatype Decomposition = Decomposition(
    subgraphs: seq<Graph>,
    nodeSets: seq<set<nat>>,
    edgeSets: seq<set<(nat, nat)>>)

  /** pfa1_full.  Here `correct` defaults to true, unlike cor_adj_mat; a bad
      `meth` fails before any graph is built.  `deleted` is the set of
      features pfa1 removed through node cuts and `log` the divisions that
      removed them. */
  method Pfa1Full(X: FeatureMatrix, meth: MethodArg := Symbol("p"), builtins: Builtins, lib: GraphLib,
                  alpha: real := 0.05, correct: bool := true)
    returns (r: Result<Decomposition>, ghost deleted: set<nat>, ghost log: seq<Division>)
    requires X.Valid() && LibSound(lib)
    ensures r.Err? <==> SelectCorFun(meth, builtins).Err?
    ensures r.Err? ==> r.error == SelectCorFun(meth, builtins).error
    ensures r.Ok? ==>
      var g := CorGraph(Adjacency(X, SelectCorFun(meth, builtins).value, alpha, correct));
      && IsDecomposition(g, r.value.subgraphs, deleted)
      && CutLog(g, lib, log, deleted)
      && r.value.nodeSets == NodeSets(r.value.subgraphs)
      && r.value.edgeSets == EdgeSets(r.value.subgraphs)
  {
    deleted, log := {}, [];
    var adj := CorAdjMat(X, meth, builtins, alpha, correct);
    if adj.Err? {
      return Err(adj.error), deleted, log;
    }
    var gr := CorGraph(adj.value);
    var subgr: seq<Graph>, subgrNodes: seq<set<nat>>, subgrEdges: seq<set<(nat, nat)>>;
    ghost var passes: nat;
    subgr, subgrNodes, subgrEdges, deleted, log, passes := Pfa1(gr, lib);
    r := Ok(Decomposition(subgr, subgrNodes, subgrEdges));
  }

  /** Every two features of one returned subgraph are dependent: their test
      passed, after the correction when it is on (n_feat >= 2, alpha <= 1). */
  lemma ClustersAreSignificant(X: FeatureMatrix, f: CorFun, alpha: real, correct: bool,
                               subs: seq<Graph>, deleted: set<nat>, i: nat, u: nat, v: nat)
    requires X.Valid() && X.width >= 2 && alpha <= 1.0
    requires IsDecomposition(CorGraph(Adjacency(X, f, alpha, correct)), subs, deleted)
    requires i < |subs| && u in subs[i].nodes && v in subs[i].nodes && u < v
    ensures Corrected(f(Column(X, u), Column(X, v)).1, X.width, correct) < alpha
  {
    var g := CorGraph(Adjacency(X, f, alpha, correct));
    assert Adjacent(subs[i], u, v);
    assert Adjacent(g, u, v);
    DependencyGraphEdges(X, f, alpha, correct);
  }

  /** Every feature ends up either in exactly one returned subgraph or among
      the deleted ones. */
  lemma EveryFeatureAccounted(g: Graph, subs: seq<Graph>, deleted: set<nat>, v: nat)
    requires IsDecomposition(g, subs, deleted) && v in g.nodes
    ensures v in deleted <==> forall i :: 0 <= i < |subs| ==> v !in subs[i].nodes
    ensures v !in deleted ==>
      exists i :: 0 <= i < |subs| && v in subs[i].nodes &&
        (forall j :: 0 <= j < |subs| && j != i ==> v !in subs[j].nodes)
  {
    if v in deleted {
      forall i | 0 <= i < |subs| ensures v !in subs[i].nodes {
        MemberNodes(subs, subs[i]);
      }
    } else {
      assert v in UnionNodes(subs);
      var i :| 0 <= i < |subs| && v in subs[i].nodes;
      assert forall j :: 0 <= j < |subs| && j != i ==> subs[i].nodes !! subs[j].nodes;
    }
  }
}
