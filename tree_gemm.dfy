/** `DecisionTreeGemm`: a decision tree compiled into five dense matrices,
    A (feature selector), B (thresholds), C (paths), D (left turns per path)
    and E (leaf classes), and evaluated with three matrix products and two
    comparisons (the GEMM strategy). */
module TreeGemm {
  import opened Dense
  import opened Errors
  import opened DecisionTree

  predicate StrictlyIncreasing(s: seq<nat>) {
    forall a, b :: 0 <= a < b < |s| ==> s[a] < s[b]
  }

  /** `flatnonzero` of the internal-node mask (`internal`) or of its
      complement, over the first `k` nodes. */
  function NodesWhere(t: Tree, internal: bool, k: nat): (r: seq<nat>)
    requires k <= |t.childrenLeft| && k <= |t.childrenRight|
    ensures StrictlyIncreasing(r)
    ensures forall j :: 0 <= j < |r| ==> r[j] < k
    ensures forall i: nat :: i in r <==> i < k && IsInternal(t, i) == internal
  {
    if k == 0 then []
    else NodesWhere(t, internal, k - 1) + (if IsInternal(t, k - 1) == internal then [k - 1] else [])
  }

  function InternalNodes(t: Tree): seq<nat>
    requires Structured(t)
  {
    NodesWhere(t, true, NodeCount(t))
  }

  function LeafNodes(t: Tree): seq<nat>
    requires Structured(t)
  {
    NodesWhere(t, false, NodeCount(t))
  }

  /** `{v: k for k, v in enumerate(nodes)}`: node id to compact index. */
  function Remap(nodes: seq<nat>): (m: map<nat, nat>)
    requires StrictlyIncreasing(nodes)
    ensures forall n :: n in m <==> n in nodes
    ensures forall k :: 0 <= k < |nodes| ==> nodes[k] in m && m[nodes[k]] == k
    ensures forall n :: n in m ==> m[n] < |nodes| && nodes[m[n]] == n
  {
    if |nodes| == 0 then map[]
    else Remap(nodes[..|nodes| - 1])[nodes[|nodes| - 1] := |nodes| - 1]
  }

  /** A path with every node id replaced by its compact index. */
  function Relabel(p: seq<Step>, m: map<nat, nat>): (q: seq<Step>)
    requires forall k :: 0 <= k < |p| ==> p[k].node in m
    ensures |q| == |p|
  {
    seq(|p|, k requires 0 <= k < |p| => Step(m[p[k].node], p[k].dir))
  }

  /** A matrix with `rows` rows whose column `i` is one-hot at row `hot[i]`. */
  function OneHotColumns(rows: nat, hot: seq<int>): Matrix {
    seq(rows, r requires 0 <= r < rows =>
      seq(|hot|, i requires 0 <= i < |hot| => if r == hot[i] then 1.0 else 0.0))
  }

  /** A matrix with `cols` columns whose row `i` is one-hot at column `hot[i]`. */
  function OneHotRows(hot: seq<int>, cols: nat): Matrix {
    seq(|hot|, i requires 0 <= i < |hot| =>
      seq(cols, c requires 0 <= c < cols => if c == hot[i] then 1.0 else 0.0))
  }

  /** `split_features_internal_nodes`. */
  function SplitFeatures(t: Tree): (f: seq<int>)
    requires Structured(t)
    ensures |f| == |InternalNodes(t)|
  {
    var nodes := InternalNodes(t);
    seq(|nodes|, i requires 0 <= i < |nodes| => t.feature[nodes[i]])
  }

  /** `tree.threshold[internal_nodes]`. */
  function Thresholds(t: Tree): (b: Vector)
    requires Structured(t)
    ensures |b| == |InternalNodes(t)|
    ensures forall i :: 0 <= i < |b| ==> b[i] == t.threshold[InternalNodes(t)[i]]
  {
    var nodes := InternalNodes(t);
    seq(|nodes|, i requires 0 <= i < |nodes| => t.threshold[nodes[i]])
  }

  /** `leaf_to_class`: the majority class of each leaf. */
  function LeafClasses(t: Tree): (classes: seq<int>)
    requires Structured(t)
    ensures |classes| == |LeafNodes(t)|
  {
    var leaves := LeafNodes(t);
    seq(|leaves|, j requires 0 <= j < |leaves| => ArgMax(t.value[leaves[j]]))
  }

  /** The path to leaf `leaves[j]`, relabelled with compact indices. */
  function CompactPath(t: Tree, j: nat): seq<Step>
    requires WellFormed(t) && j < |LeafNodes(t)|
  {
    Relabel(Path(t, 0, LeafNodes(t)[j]), Remap(InternalNodes(t)))
  }

  /** Matrix C: entry (r, j) is the direction the j-th leaf's path records
      for the r-th internal node. */
  function PathMatrix(t: Tree): (c: Matrix)
    requires WellFormed(t)
    ensures IsMatrix(c, |InternalNodes(t)|, |LeafNodes(t)|)
  {
    var nI, nL := |InternalNodes(t)|, |LeafNodes(t)|;
    seq(nI, r requires 0 <= r < nI =>
      seq(nL, j requires 0 <= j < nL => DirectionIn(CompactPath(t, j), r) as real))
  }

  /** The compiled form of a tree. */
  datatype DecisionTreeGemm = DecisionTreeGemm(
    nFeatures: nat, nClasses: nat,
    a: Matrix, b: Vector, c: Matrix, d: Vector, e: Matrix)
  {
    /** The five matrices have consistent shapes. */
    predicate Valid() {
      && IsMatrix(a, nFeatures, |b|)
      && IsMatrix(c, |b|, |d|)
      && IsMatrix(e, |d|, nClasses)
      && nClasses > 0
    }

    /** Every sample has one value per feature. */
    predicate Fits(X: Matrix) {
      forall s :: 0 <= s < |X| ==> |X[s]| == nFeatures
    }

    /** `(X @ A < B)`: which internal-node tests each sample satisfies. */
    function Satisfied(X: Matrix): (r: Matrix)
      requires Valid() && Fits(X)
      ensures IsMatrix(r, |X|, |b|)
    {
      LessMask(MatMul(X, a, |b|), b)
    }

    /** `(... @ C == D)`: which leaves each sample reaches. */
    function Reached(X: Matrix): (r: Matrix)
      requires Valid() && Fits(X)
      ensures IsMatrix(r, |X|, |d|)
    {
      EqualMask(MatMul(Satisfied(X), c, |d|), d)
    }

    /** `_GEMM` on a batch of the right width. */
    function Pipeline(X: Matrix): (r: Matrix)
      requires Valid() && Fits(X)
      ensures IsMatrix(r, |X|, nClasses)
    {
      MatMul(Reached(X), e, nClasses)
    }

    /** `_GEMM`: a batch of the wrong width fails in the first product;
        otherwise the output has one row per sample and one column per class. */
    function Gemm(X: Matrix): (r: Result<Matrix>)
      requires Valid()
      ensures r.Ok? <==> Fits(X)
      ensures r.Ok? ==> IsMatrix(r.value, |X|, nClasses)
      ensures r.Err? ==> r.error == ShapeMismatch
    {
      if Fits(X) then Ok(Pipeline(X)) else Err(ShapeMismatch)
    }

    /** `predict_onehot`: the output of `_GEMM`, unchanged. */
    function PredictOnehot(X: Matrix): (r: Result<Matrix>)
      requires Valid()
      ensures r.Ok? <==> Fits(X)
      ensures r.Ok? ==> IsMatrix(r.value, |X|, nClasses)
      ensures r.Err? ==> r.error == ShapeMismatch
    {
      Gemm(X)
    }

    /** `predict`: the row-wise argmax of the one-hot output, one class
        label per sample. */
    function Predict(X: Matrix): (r: Result<seq<nat>>)
      requires Valid()
      ensures r.Ok? <==> Fits(X)
      ensures r.Ok? ==> |r.value| == |X| && forall s :: 0 <= s < |X| ==> r.value[s] < nClasses
      ensures r.Err? ==> r.error == ShapeMismatch
    {
      match Gemm(X)
      case Ok(T) => Ok(ArgMaxRows(T))
      case Err(e) => Err(e)
    }
  }

  /** What `DecisionTreeGemm(decision_tree)` builds. */
  function Compile(t: Tree): (g: DecisionTreeGemm)
    requires WellFormed(t)
    ensures g.Valid()
  {
    var c := PathMatrix(t);
    DecisionTreeGemm(
      t.nFeatures, t.nClasses,
      OneHotColumns(t.nFeatures, SplitFeatures(t)),
      Thresholds(t),
      c,
      CountOnesPerColumn(c, |LeafNodes(t)|),
      OneHotRows(LeafClasses(t), t.nClasses))
  }

  // ---------------------------------------------------------------------
  // The constructor, as it runs: zero-filled buffers written in place.

  function Rows(M: array2<real>): (m: Matrix)
    reads M
    ensures IsMatrix(m, M.Length0, M.Length1)
  {
    seq(M.Length0, r requires 0 <= r < M.Length0 reads M =>
      seq(M.Length1, c requires 0 <= c < M.Length1 reads M => M[r, c]))
  }

  /** Matrix A: `zeros((rows, len(hot)))`, then `A[hot[i], i] = 1` for each i. */
  method FeatureSelector(rows: nat, hot: seq<int>) returns (a: Matrix)
    requires forall i :: 0 <= i < |hot| ==> 0 <= hot[i] < rows
    ensures a == OneHotColumns(rows, hot)
  {
    var A := new real[rows, |hot|]((r, i) => 0.0);
    for i := 0 to |hot|
      invariant forall r, i' :: 0 <= r < rows && 0 <= i' < |hot| ==>
        A[r, i'] == if i' < i && r == hot[i'] then 1.0 else 0.0
    {
      A[hot[i], i] := 1.0;
    }
    a := Rows(A);
    forall r | 0 <= r < rows ensures a[r] == OneHotColumns(rows, hot)[r] {
      assert |a[r]| == |hot|;
    }
  }

  /** Matrix E: `zeros((len(hot), cols))`, then `E[i, hot[i]] = 1` for each i. */
  method LeafToClass(hot: seq<int>, cols: nat) returns (e: Matrix)
    requires forall i :: 0 <= i < |hot| ==> 0 <= hot[i] < cols
    ensures e == OneHotRows(hot, cols)
  {
    var E := new real[|hot|, cols]((i, c) => 0.0);
    for i := 0 to |hot|
      invariant forall i', c :: 0 <= i' < |hot| && 0 <= c < cols ==>
        E[i', c] == if i' < i && c == hot[i'] then 1.0 else 0.0
    {
      E[i, hot[i]] := 1.0;
    }
    e := Rows(E);
    forall i | 0 <= i < |hot| ensures e[i] == OneHotRows(hot, cols)[i] {
      assert |e[i]| == cols;
    }
  }

  /** Rewrites the node ids of `path` with their compact indices, in place. */
  method RelabelInPlace(path: array<Step>, m: map<nat, nat>)
    requires forall k :: 0 <= k < path.Length ==> path[k].node in m
    modifies path
    ensures path[..] == Relabel(old(path[..]), m)
  {
    for i := 0 to path.Length
      invariant forall k :: 0 <= k < path.Length ==>
        path[k] == if k < i then Step(m[old(path[k]).node], old(path[k]).dir) else old(path[k])
    {
      path[i] := Step(m[path[i].node], path[i].dir);
    }
  }

  /** Writes the direction of every step of `path` into column `j` of `C`,
      in order: `C[node, j] = dir`. */
  method WriteColumn(C: array2<real>, j: nat, path: array<Step>)
    requires j < C.Length1
    requires forall k :: 0 <= k < path.Length ==> path[k].node < C.Length0
    requires forall r :: 0 <= r < C.Length0 ==> C[r, j] == 0.0
    modifies C
    ensures forall r, j' :: 0 <= r < C.Length0 && 0 <= j' < C.Length1 ==>
      C[r, j'] == if j' == j then DirectionIn(path[..], r) as real else old(C[r, j'])
  {
    for k := 0 to path.Length
      invariant forall r, j' :: 0 <= r < C.Length0 && 0 <= j' < C.Length1 ==>
        C[r, j'] == if j' == j then DirectionIn(path[..k], r) as real else old(C[r, j'])
    {
      assert path[..k + 1][..k] == path[..k];
      C[path[k].node, j] := path[k].dir as real;
    }
    assert path[..path.Length] == path[..];
  }

  /** Every node of the path to a leaf has a compact index, and the
      relabelled path stays within them. */
  lemma CompactPathNodes(t: Tree, j: nat)
    requires WellFormed(t) && j < |LeafNodes(t)|
    ensures forall k :: 0 <= k < |Path(t, 0, LeafNodes(t)[j])| ==>
      Path(t, 0, LeafNodes(t)[j])[k].node in Remap(InternalNodes(t))
    ensures forall k :: 0 <= k < |CompactPath(t, j)| ==>
      CompactPath(t, j)[k].node < |InternalNodes(t)|
  {
    var p := Path(t, 0, LeafNodes(t)[j]);
    forall k | 0 <= k < |p| ensures p[k].node in Remap(InternalNodes(t)) {
      assert p[k].node in InternalNodes(t);
    }
  }

  /** `compute_path(tree, leaf)`: a fresh list holding the root-to-leaf path. */
  method ComputePath(t: Tree, leaf: nat) returns (path: array<Step>)
    requires WellFormed(t) && leaf < NodeCount(t) && !IsInternal(t, leaf)
    ensures fresh(path) && path[..] == Path(t, 0, leaf)
  {
    var p := Path(t, 0, leaf);
    path := new Step[|p|](k requires 0 <= k < |p| => p[k]);
  }

  /** One iteration of the loop over leaves: `compute_path` for leaf `j`,
      relabel its nodes in place, then write its directions into column `j`. */
  method FillColumn(t: Tree, C: array2<real>, j: nat)
    requires WellFormed(t) && j < |LeafNodes(t)|
    requires C.Length0 == |InternalNodes(t)| && C.Length1 == |LeafNodes(t)|
    requires forall r :: 0 <= r < C.Length0 ==> C[r, j] == 0.0
    modifies C
    ensures forall r, j' :: 0 <= r < C.Length0 && 0 <= j' < C.Length1 ==>
      C[r, j'] == if j' == j then DirectionIn(CompactPath(t, j), r) as real else old(C[r, j'])
  {
    var m := Remap(InternalNodes(t));
    CompactPathNodes(t, j);
    var path := ComputePath(t, LeafNodes(t)[j]);
    ghost var p := path[..];
    RelabelInPlace(path, m);
    assert path[..] == Relabel(p, m) == CompactPath(t, j);
    WriteColumn(C, j, path);
  }

  /** Matrix C: `zeros((len(internal_nodes), len(leaf_nodes)))`, then one
      column per leaf. */
  method PathColumns(t: Tree) returns (c: Matrix)
    requires WellFormed(t)
    ensures c == PathMatrix(t)
  {
    var nI, nL := |InternalNodes(t)|, |LeafNodes(t)|;
    var C := new real[nI, nL]((r, j) => 0.0);
    for j := 0 to nL
      invariant forall r, j' :: 0 <= r < nI && 0 <= j' < nL ==>
        C[r, j'] == if j' < j then DirectionIn(CompactPath(t, j'), r) as real else 0.0
    {
      FillColumn(t, C, j);
    }
    c := Rows(C);
    forall r | 0 <= r < nI ensures c[r] == PathMatrix(t)[r] {
      assert |c[r]| == nL;
    }
  }

  /** `DecisionTreeGemm.__init__`. */
  method Build(t: Tree) returns (g: DecisionTreeGemm)
    requires WellFormed(t)
    ensures g == Compile(t)
  {
    var leaves := LeafNodes(t);
    var a := FeatureSelector(t.nFeatures, SplitFeatures(t));
    var b := Thresholds(t);
    var c := PathColumns(t);
    var d := CountOnesPerColumn(c, |leaves|);
    var e := LeafToClass(LeafClasses(t), t.nClasses);
    g := DecisionTreeGemm(t.nFeatures, t.nClasses, a, b, c, d, e);
  }
}
