/**
  From p-values to the dependency graph (`cor_adj_mat`, `cor_graph`).

  P-values are reals, so the Bonferroni multiplication and the comparison
  with alpha are exact here.
*/
module AdjacencyBuilder {
  import opened CorrelationEngine
  import opened DependencyGraph

  /** n(n-1)/2, computed with true division as in the source. */
  function ComparisonCount(n: nat): real
  {
    (n * (n - 1)) as real / 2.0
  }

  /** A p-value after the optional Bonferroni correction; no clamping to 1. */
  function Corrected(p: real, n: nat, correct: bool): real
  {
    if correct then p * ComparisonCount(n) else p
  }

  /** `P < alpha` on the (possibly corrected) n x n matrix, entry by entry. */
  function Threshold(P: seq<seq<real>>, n: nat, alpha: real, correct: bool): (adj: seq<seq<bool>>)
    requires |P| == n && forall i :: 0 <= i < n ==> |P[i]| == n
    ensures |adj| == n && forall i :: 0 <= i < n ==> |adj[i]| == n
  {
    seq(n, i requires 0 <= i < n =>
      seq(n, j requires 0 <= j < n => Corrected(P[i][j], n, correct) < alpha))
  }

  /** The adjacency matrix cor_adj_mat computes from the data with test `f`. */
  function Adjacency(X: FeatureMatrix, f: CorFun, alpha: real, correct: bool): (adj: seq<seq<bool>>)
    requires X.Valid()
    ensures |adj| == X.width && forall i :: 0 <= i < X.width ==> |adj[i]| == X.width
  {
    Threshold(PValues(X, f), X.width, alpha, correct)
  }

  // ---------------------------------------------------------------------
  // The correction factor

  /** The pairs i < j < n that cor_mat tests. */
  function TestedPairs(n: nat): set<(nat, nat)>
  {
    set i: nat, j: nat | i < j < n :: (i, j)
  }

  /** The pairs (i, j) with i < m, for a fixed j. */
  function PairsWith(m: nat, j: nat): set<(nat, nat)>
  {
    set i: nat | i < m :: (i, j)
  }

  lemma {:induction false} PairsWithCount(m: nat, j: nat)
    ensures |PairsWith(m, j)| == m
  {
    if m > 0 {
      assert PairsWith(m, j) == PairsWith(m - 1, j) + {(m - 1, j)};
      PairsWithCount(m - 1, j);
    }
  }

  /** The Bonferroni factor is exactly the number of tests cor_mat performs. */
  lemma {:induction false} ComparisonCountIsTestCount(n: nat)
    ensures ComparisonCount(n) == |TestedPairs(n)| as real
  {
    if n == 0 {
      assert TestedPairs(0) == {};
    } else {
      ComparisonCountIsTestCount(n - 1);
      assert TestedPairs(n) == TestedPairs(n - 1) + PairsWith(n - 1, n - 1);
      assert TestedPairs(n - 1) !! PairsWith(n - 1, n - 1);
      PairsWithCount(n - 1, n - 1);
      assert (n * (n - 1)) == ((n - 1) * (n - 2)) + 2 * (n - 1);
    }
  }

  /** With 5 features (10 tests) and alpha 0.05, a p-value of 0.006 passes
      without the correction and fails with it: 0.06 is not below 0.05. */
  lemma CorrectionExample()
    ensures Corrected(0.006, 5, false) < 0.05
    ensures !(Corrected(0.006, 5, true) < 0.05) && Corrected(0.006, 5, true) == 0.06
  {
  }

  /** For n >= 2 the correction only ever removes edges (p-values are
      non-negative, and the factor is at least 1). */
  lemma CorrectionOnlyRemovesEdges(P: seq<seq<real>>, n: nat, alpha: real, i: nat, j: nat)
    requires |P| == n && forall k :: 0 <= k < n ==> |P[k]| == n
    requires n >= 2 && i < n && j < n && P[i][j] >= 0.0
    ensures Threshold(P, n, alpha, true)[i][j] ==> Threshold(P, n, alpha, false)[i][j]
  {
    assert ComparisonCount(n) >= 1.0 by {
      assert n * (n - 1) >= n;
    }
  }

  /** For n >= 2 and alpha <= 1, nothing on or below the diagonal passes. */
  lemma LowerTriangleNeverPasses(X: FeatureMatrix, f: CorFun, alpha: real, correct: bool, i: nat, j: nat)
    requires X.Valid() && X.width >= 2 && alpha <= 1.0
    requires i < X.width && j < X.width && j <= i
    ensures !Adjacency(X, f, alpha, correct)[i][j]
  {
    var n := X.width;
    assert PValues(X, f)[i][j] == 1.0;
    assert ComparisonCount(n) >= 1.0 by {
      assert n * (n - 1) >= n;
    }
  }

  /** With a single feature the corrected matrix is P * 0, so its one
      diagonal entry passes any positive alpha: the graph gets a self-loop. */
  lemma SingleFeatureCorrectedSelfLoop(X: FeatureMatrix, f: CorFun, alpha: real)
    requires X.Valid() && X.width == 1 && alpha > 0.0
    ensures Adjacent(CorGraph(Adjacency(X, f, alpha, true)), 0, 0)
  {
    assert Adjacency(X, f, alpha, true)[0][0];
  }

  // ---------------------------------------------------------------------
  // cor_adj_mat and cor_graph

  /** cor_adj_mat.  The default for `correct` is false, as in the code (its
      documentation says true). */
  method CorAdjMat(X: FeatureMatrix, meth: MethodArg := Symbol("p"), builtins: Builtins, alpha: real := 0.05, correct: bool := false)
    returns (r: Result<seq<seq<bool>>>)
    requires X.Valid()
    ensures r.Err? <==> SelectCorFun(meth, builtins).Err?
    ensures r.Err? ==> r.error == SelectCorFun(meth, builtins).error
    ensures r.Ok? ==> r.value == Adjacency(X, SelectCorFun(meth, builtins).value, alpha, correct)
  {
    var m := CorMat(X, meth, builtins);
    if m.Err? {
      return Err(m.error);
    }
    var n := X.width;
    var P := m.value.P;
    var pv := seq(n, i requires 0 <= i < n reads P =>
                seq(n, j requires 0 <= j < n reads P => P[i, j]));
    ghost var f := SelectCorFun(meth, builtins).value;
    forall i | 0 <= i < n
      ensures pv[i] == PValues(X, f)[i]
    {
      assert forall j :: 0 <= j < n ==> pv[i][j] == P[i, j] == Entry(X, f, i, j).1;
    }
    assert pv == PValues(X, f);
    r := Ok(Threshold(pv, n, alpha, correct));
  }

  /** The node set {0, ..., n - 1}. */
  function Indices(n: nat): (s: set<nat>)
    ensures forall i: nat :: i in s <==> i < n
  {
    if n == 0 then {} else Indices(n - 1) + {n - 1}
  }

  /** cor_graph (networkx from_numpy_matrix on an undirected graph): nodes
      0..n-1, and an edge {u, v} whenever [u, v] or [v, u] is true. */
  function CorGraph(adj: seq<seq<bool>>): (g: Graph)
    requires forall i :: 0 <= i < |adj| ==> |adj[i]| == |adj|
    ensures WellFormed(g)
    ensures forall u: nat :: u in g.nodes <==> u < |adj|
    ensures forall u: nat, v: nat :: Adjacent(g, u, v) <==> u < |adj| && v < |adj| && (adj[u][v] || adj[v][u])
  {
    var n := |adj|;
    Graph(Indices(n), set i: nat, j: nat | i <= j < n && (adj[i][j] || adj[j][i]) :: (i, j))
  }

  /** For n >= 2 and alpha <= 1 the dependency graph has no self-loop, and
      two features are adjacent exactly when the test of the lower index
      against the higher one passes. */
  lemma DependencyGraphEdges(X: FeatureMatrix, f: CorFun, alpha: real, correct: bool)
    requires X.Valid() && X.width >= 2 && alpha <= 1.0
    ensures var g := CorGraph(Adjacency(X, f, alpha, correct));
      && (forall u: nat :: !Adjacent(g, u, u))
      && (forall u: nat, v: nat :: u < v < X.width ==>
            (Adjacent(g, u, v) <==> Corrected(f(Column(X, u), Column(X, v)).1, X.width, correct) < alpha))
  {
    var adj := Adjacency(X, f, alpha, correct);
    forall u: nat | u < X.width ensures !adj[u][u] {
      LowerTriangleNeverPasses(X, f, alpha, correct, u, u);
    }
    forall u: nat, v: nat | u < v < X.width
      ensures adj[u][v] <==> Corrected(f(Column(X, u), Column(X, v)).1, X.width, correct) < alpha
      ensures !adj[v][u]
    {
      LowerTriangleNeverPasses(X, f, alpha, correct, v, u);
    }
  }
}
