/**
  Pairwise correlation testing (`cor_mat`).

  The correlation routines themselves (Pearson, Spearman, Kendall, or a
  caller's own function) are floating-point statistics outside the model:
  each is a function from two columns to a (statistic, p-value) pair, with
  any keyword arguments already bound into it.
*/
module CorrelationEngine {

  /** An n_obs x n_feat data matrix: `rows` observations of `width` features. */
  datatype FeatureMatrix = FeatureMatrix(rows: seq<seq<real>>, width: nat)
  {
    /** Every observation has one value per feature, as in a 2-D array. */
    predicate Valid()
    {
      forall r :: r in rows ==> |r| == width
    }
  }

  /** The values of feature `j` over all observations, X[:, j]. */
  function Column(X: FeatureMatrix, j: nat): seq<real>
    requires X.Valid() && j < X.width
  {
    seq(|X.rows|, k requires 0 <= k < |X.rows| => X.rows[k][j])
  }

  /** A correlation test: two columns to (statistic, p-value). */
  type CorFun = (seq<real>, seq<real>) -> (real, real)

  /** The three built-in tests selected by 'p', 's' and 'k'. */
  datatype Builtins = Builtins(pearson: CorFun, spearman: CorFun, kendall: CorFun)

  /** The `meth` argument: a callable, a string, or any other value. */
  datatype MethodArg = Callable(fn: CorFun) | Symbol(name: string) | Other

  /** The two ValueErrors raised for a bad `meth`. */
  datatype ConfigError = UnknownSymbol(name: string) | UnknownType

  datatype Result<T> = Ok(value: T) | Err(error: ConfigError)

  /** The choice of correlation function: a callable is used as it is, the
      symbols 'p', 's', 'k' pick a built-in, anything else is an error. */
  function SelectCorFun(meth: MethodArg, builtins: Builtins): (r: Result<CorFun>)
    ensures meth.Callable? ==> r.Ok? && r.value == meth.fn
    ensures meth == Symbol("p") ==> r.Ok? && r.value == builtins.pearson
    ensures meth == Symbol("s") ==> r.Ok? && r.value == builtins.spearman
    ensures meth == Symbol("k") ==> r.Ok? && r.value == builtins.kendall
    ensures r.Err? <==> meth.Other? || (meth.Symbol? && meth.name !in {"p", "s", "k"})
    ensures r.Err? ==> r.error == if meth.Symbol? then UnknownSymbol(meth.name) else UnknownType
  {
    match meth
    case Callable(fn) => Ok(fn)
    case Symbol(name) =>
      if name == "p" then Ok(builtins.pearson)
      else if name == "s" then Ok(builtins.spearman)
      else if name == "k" then Ok(builtins.kendall)
      else Err(UnknownSymbol(name))
    case Other => Err(UnknownType)
  }

  /** What the two matrices hold at [i, j]: the test of columns i and j
      above the diagonal, and the initial 0 and 1 everywhere else. */
  function Entry(X: FeatureMatrix, f: CorFun, i: nat, j: nat): (real, real)
    requires X.Valid() && i < X.width && j < X.width
  {
    if i < j then f(Column(X, i), Column(X, j)) else (0.0, 1.0)
  }

  /** The p-value matrix as a value. */
  function PValues(X: FeatureMatrix, f: CorFun): (P: seq<seq<real>>)
    requires X.Valid()
    ensures |P| == X.width && forall i :: 0 <= i < X.width ==> |P[i]| == X.width
  {
    seq(X.width, i requires 0 <= i < X.width =>
      seq(X.width, j requires 0 <= j < X.width => Entry(X, f, i, j).1))
  }

  /** The pair (C, P) returned by cor_mat. */
  datatype CorMatrices = CorMatrices(C: array2<real>, P: array2<real>)

  /** Both matrices are n_feat x n_feat and hold Entry(X, f, i, j). */
  ghost predicate Holds(X: FeatureMatrix, f: CorFun, m: CorMatrices)
    requires X.Valid()
    reads m.C, m.P
  {
    && m.C.Length0 == X.width && m.C.Length1 == X.width
    && m.P.Length0 == X.width && m.P.Length1 == X.width
    && forall i, j :: 0 <= i < X.width && 0 <= j < X.width ==>
         m.C[i, j] == Entry(X, f, i, j).0 && m.P[i, j] == Entry(X, f, i, j).1
  }

  /** cor_mat: allocate C (zeros) and P (ones), pick the correlation
      function, then fill [i, j] for every pair i < j in the order of
      itertools.combinations (row by row). */
  method CorMat(X: FeatureMatrix, meth: MethodArg := Symbol("p"), builtins: Builtins) returns (r: Result<CorMatrices>)
    requires X.Valid()
    ensures r.Err? <==> SelectCorFun(meth, builtins).Err?
    ensures r.Err? ==> r.error == SelectCorFun(meth, builtins).error
    ensures r.Ok? ==> Holds(X, SelectCorFun(meth, builtins).value, r.value)
    ensures r.Ok? ==> fresh(r.value.C) && fresh(r.value.P) && r.value.C != r.value.P
  {
    var n := X.width;
    var C := new real[n, n]((i, j) => 0.0);
    var P := new real[n, n]((i, j) => 1.0);
    var sel := SelectCorFun(meth, builtins);
    if sel.Err? {
      return Err(sel.error);
    }
    var f := sel.value;
    for i := 0 to n
      invariant forall a, b :: 0 <= a < n && 0 <= b < n ==>
        (C[a, b], P[a, b]) == if a < i then Entry(X, f, a, b) else (0.0, 1.0)
    {
      for j := i + 1 to n
        invariant forall a, b :: 0 <= a < n && 0 <= b < n ==>
          (C[a, b], P[a, b]) == if a < i || (a == i && b < j) then Entry(X, f, a, b) else (0.0, 1.0)
      {
        var corPval := f(Column(X, i), Column(X, j));
        C[i, j] := corPval.0;
        P[i, j] := corPval.1;
      }
    }
    r := Ok(CorMatrices(C, P));
  }
}
