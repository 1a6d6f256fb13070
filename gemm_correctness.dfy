/** What the five matrices of a compiled tree mean, and why the GEMM
    pipeline classifies every sample exactly as the recursive walk does. */
module GemmCorrectness {
  import opened Dense
  import opened Errors
  import opened DecisionTree
  import opened TreeGemm

  // ---------------------------------------------------------------------
  // Internal nodes, leaves and the compact index

  lemma {:induction false} NodeCounts(t: Tree, k: nat)
    requires k <= |t.childrenLeft| && k <= |t.childrenRight|
    ensures |NodesWhere(t, true, k)| + |NodesWhere(t, false, k)| == k
  {
    if k > 0 {
      NodeCounts(t, k - 1);
      var internal, leaves := NodesWhere(t, true, k - 1), NodesWhere(t, false, k - 1);
      if IsInternal(t, k - 1) {
        assert |NodesWhere(t, true, k)| == |internal + [k - 1]|;
        assert |NodesWhere(t, false, k)| == |leaves|;
      } else {
        assert |NodesWhere(t, true, k)| == |internal|;
        assert |NodesWhere(t, false, k)| == |leaves + [k - 1]|;
      }
    }
  }

  /** `internal_nodes` and `leaf_nodes` list every node exactly once between
      them, each in increasing order. */
  lemma NodePartition(t: Tree)
    requires Structured(t)
    ensures StrictlyIncreasing(InternalNodes(t)) && StrictlyIncreasing(LeafNodes(t))
    ensures |InternalNodes(t)| + |LeafNodes(t)| == NodeCount(t)
    ensures forall i :: 0 <= i < NodeCount(t) ==>
      (i in InternalNodes(t) <==> IsInternal(t, i)) && (i in LeafNodes(t) <==> !IsInternal(t, i))
  {
    NodeCounts(t, NodeCount(t));
  }

  /** The compact index of an internal node addresses that node's feature in
      A and its threshold in B. */
  lemma CompactIndex(t: Tree, n: nat)
    requires WellFormed(t) && n < NodeCount(t) && IsInternal(t, n)
    ensures n in Remap(InternalNodes(t))
    ensures var i := Remap(InternalNodes(t))[n];
      && i < |InternalNodes(t)|
      && InternalNodes(t)[i] == n
      && Compile(t).b[i] == t.threshold[n]
      && OneHot(Column(Compile(t).a, i), t.feature[n])
  {
    assert n in InternalNodes(t);
    var i := Remap(InternalNodes(t))[n];
    assert Compile(t).b == Thresholds(t);
    FeatureSelectorColumns(t, i);
  }

  // ---------------------------------------------------------------------
  // The five matrices

  /** A is n_features x n_internal, B has one threshold per internal node,
      C is n_internal x n_leaves, D has one count per leaf and E is
      n_leaves x n_classes. */
  lemma MatrixShapes(t: Tree)
    requires WellFormed(t)
    ensures var g := Compile(t);
      && g.nFeatures == t.nFeatures && g.nClasses == t.nClasses
      && IsMatrix(g.a, t.nFeatures, |InternalNodes(t)|) && |g.b| == |InternalNodes(t)|
      && IsMatrix(g.c, |InternalNodes(t)|, |LeafNodes(t)|) && |g.d| == |LeafNodes(t)|
      && IsMatrix(g.e, |LeafNodes(t)|, t.nClasses)
  {
  }

  /** A: column i selects the feature internal node i tests, so it sums to 1. */
  lemma FeatureSelectorColumns(t: Tree, i: nat)
    requires WellFormed(t) && i < |InternalNodes(t)|
    ensures OneHot(Column(Compile(t).a, i), t.feature[InternalNodes(t)[i]])
    ensures Sum(Column(Compile(t).a, i)) == 1.0
  {
    var col := Column(Compile(t).a, i);
    assert InternalNodes(t)[i] in InternalNodes(t);
    assert OneHot(col, t.feature[InternalNodes(t)[i]]);
    OneHotSum(col, t.feature[InternalNodes(t)[i]]);
  }

  /** E: row j is one-hot at the majority class of leaf j, so it sums to 1. */
  lemma LeafClassRows(t: Tree, j: nat)
    requires WellFormed(t) && j < |LeafNodes(t)|
    ensures OneHot(Compile(t).e[j], ArgMax(t.value[LeafNodes(t)[j]]))
    ensures Sum(Compile(t).e[j]) == 1.0
  {
    assert LeafNodes(t)[j] in LeafNodes(t);
    OneHotSum(Compile(t).e[j], ArgMax(t.value[LeafNodes(t)[j]]));
  }

  /** Relabelling a path with the compact index keeps each direction. */
  lemma {:induction false} RelabelDirection(p: seq<Step>, nodes: seq<nat>, r: nat)
    requires StrictlyIncreasing(nodes) && r < |nodes|
    requires forall k :: 0 <= k < |p| ==> p[k].node in Remap(nodes)
    ensures DirectionIn(Relabel(p, Remap(nodes)), r) == DirectionIn(p, nodes[r])
  {
    if |p| > 0 {
      var m := Remap(nodes);
      assert Relabel(p, m)[..|p| - 1] == Relabel(p[..|p| - 1], m);
      RelabelDirection(p[..|p| - 1], nodes, r);
    }
  }

  /** C: entry (r, j) is +1 when leaf j lies in the left subtree of internal
      node r, -1 when it lies in the right one, and 0 when node r is not an
      ancestor of leaf j. */
  lemma PathMatrixAncestors(t: Tree, r: nat, j: nat)
    requires WellFormed(t) && r < |InternalNodes(t)| && j < |LeafNodes(t)|
    ensures Compile(t).c[r][j] == Direction(t, LeafNodes(t)[j], InternalNodes(t)[r]) as real
  {
    var leaf, n := LeafNodes(t)[j], InternalNodes(t)[r];
    assert leaf in LeafNodes(t) && n in InternalNodes(t);
    CompactPathNodes(t, j);
    RelabelDirection(Path(t, 0, leaf), InternalNodes(t), r);
    PathDirectionsFromRoot(t, leaf, n);
  }

  /** The nodes of a relabelled path are distinct compact indices. */
  lemma CompactPathShape(t: Tree, j: nat)
    requires WellFormed(t) && j < |LeafNodes(t)|
    ensures forall k :: 0 <= k < |CompactPath(t, j)| ==>
      CompactPath(t, j)[k].node < |InternalNodes(t)| &&
      (CompactPath(t, j)[k].dir == 1 || CompactPath(t, j)[k].dir == -1)
    ensures forall a, b :: 0 <= a < b < |CompactPath(t, j)| ==>
      CompactPath(t, j)[a].node != CompactPath(t, j)[b].node
  {
    CompactPathNodes(t, j);
    var p, m := Path(t, 0, LeafNodes(t)[j]), Remap(InternalNodes(t));
    var q := CompactPath(t, j);
    forall a, b | 0 <= a < b < |q| ensures q[a].node != q[b].node {
      assert InternalNodes(t)[m[p[a].node]] == p[a].node;
      assert InternalNodes(t)[m[p[b].node]] == p[b].node;
    }
  }

  function ColumnOf(q: seq<Step>, n: nat): Vector {
    seq(n, r requires 0 <= r < n => DirectionIn(q, r) as real)
  }

  /** Writing a path of distinct nodes into a zero column leaves one nonzero
      entry per step, and one +1 entry per left turn. */
  lemma {:induction false} ColumnCounts(q: seq<Step>, n: nat)
    requires forall k :: 0 <= k < |q| ==> q[k].node < n && (q[k].dir == 1 || q[k].dir == -1)
    requires forall a, b :: 0 <= a < b < |q| ==> q[a].node != q[b].node
    ensures CountOnes(ColumnOf(q, n)) == LeftTurns(q)
    ensures CountNonzero(ColumnOf(q, n)) == |q|
  {
    if |q| == 0 {
      CountsOfZero(ColumnOf(q, n));
    } else {
      var q', st := q[..|q| - 1], q[|q| - 1];
      ColumnCounts(q', n);
      DirectionInAbsent(q', st.node);
      assert ColumnOf(q, n) == ColumnOf(q', n)[st.node := st.dir as real];
      CountsAfterUpdate(ColumnOf(q', n), st.node, st.dir as real);
    }
  }

  lemma {:induction false} RelabelLeftTurns(p: seq<Step>, m: map<nat, nat>)
    requires forall k :: 0 <= k < |p| ==> p[k].node in m
    ensures LeftTurns(Relabel(p, m)) == LeftTurns(p)
  {
    if |p| > 0 {
      assert Relabel(p, m)[..|p| - 1] == Relabel(p[..|p| - 1], m);
      RelabelLeftTurns(p[..|p| - 1], m);
    }
  }

  /** C and D: column j of C has one nonzero entry per ancestor of leaf j
      (the leaf's depth), and D[j] counts the ancestors where the path to
      leaf j goes left. */
  lemma PathMatrixCounts(t: Tree, j: nat)
    requires WellFormed(t) && j < |LeafNodes(t)|
    ensures CountNonzero(Column(Compile(t).c, j)) == |Path(t, 0, LeafNodes(t)[j])|
    ensures Compile(t).d[j] == LeftTurns(Path(t, 0, LeafNodes(t)[j])) as real
  {
    var g := Compile(t);
    var nI := |InternalNodes(t)|;
    assert Column(g.c, j) == ColumnOf(CompactPath(t, j), nI);
    CompactPathShape(t, j);
    ColumnCounts(CompactPath(t, j), nI);
    CompactPathNodes(t, j);
    RelabelLeftTurns(Path(t, 0, LeafNodes(t)[j]), Remap(InternalNodes(t)));
  }

  // ---------------------------------------------------------------------
  // The GEMM pipeline

  /** `X @ A < B`: entry (s, i) is 1 exactly when sample s passes the test of
      internal node i. */
  lemma SatisfiedTests(t: Tree, X: Matrix, s: nat, i: nat)
    requires WellFormed(t) && Compile(t).Fits(X)
    requires s < |X| && i < |InternalNodes(t)|
    ensures Compile(t).Satisfied(X)[s][i] ==
      if Satisfies(t, X[s], InternalNodes(t)[i]) then 1.0 else 0.0
  {
    var g := Compile(t);
    FeatureSelectorColumns(t, i);
    DotOneHotRight(X[s], Column(g.a, i), t.feature[InternalNodes(t)[i]]);
  }

  /** `(T @ C == D)[s, j]` with T the test outcomes: the product of row s
      with column j of C is compared with the number of +1 entries of that
      column. */
  lemma ReachedEntry(t: Tree, X: Matrix, s: nat, j: nat)
    requires WellFormed(t) && Compile(t).Fits(X)
    requires s < |X| && j < |LeafNodes(t)|
    ensures |Compile(t).b| == |InternalNodes(t)| && |Compile(t).d| == |LeafNodes(t)|
    ensures var g := Compile(t);
      var u, v := g.Satisfied(X)[s], Column(g.c, j);
      |u| == |v| &&
      g.Reached(X)[s][j] == if Dot(u, v) == CountOnes(v) as real then 1.0 else 0.0
  {
    MatrixShapes(t);
    var g := Compile(t);
    var M := MatMul(g.Satisfied(X), g.c, |g.d|);
    assert M[s][j] == Dot(g.Satisfied(X)[s], Column(g.c, j));
    assert g.Reached(X) == EqualMask(M, g.d);
  }

  /** Entrywise compatibility of `u` with `v` adds up to `u` covering `v`.
      Kept apart from `TestsAgainstColumn` so that this step is proved
      without the compiled matrices in context. */
  lemma CoversIffAgree(t: Tree, x: seq<real>, leaf: nat, u: Vector, v: Vector)
    requires Structured(t) && |x| == t.nFeatures
    requires |u| == |v| == |InternalNodes(t)|
    requires forall r :: 0 <= r < |v| ==>
      (((v[r] == 1.0 ==> u[r] == 1.0) && (v[r] == -1.0 ==> u[r] == 0.0)) <==>
        Agrees(t, x, leaf, InternalNodes(t)[r]))
    ensures Covers(u, v) <==> forall r :: 0 <= r < |InternalNodes(t)| ==> Agrees(t, x, leaf, InternalNodes(t)[r])
  {
  }

  /** Row s of the test outcomes covers column j of C exactly when every
      internal node's test agrees with the path to leaf j. */
  lemma TestsAgainstColumn(t: Tree, X: Matrix, s: nat, j: nat)
    requires WellFormed(t) && Compile(t).Fits(X)
    requires s < |X| && j < |LeafNodes(t)|
    ensures |Compile(t).b| == |InternalNodes(t)| && |Compile(t).d| == |LeafNodes(t)|
    ensures var g := Compile(t);
      var u, v := g.Satisfied(X)[s], Column(g.c, j);
      && |u| == |v|
      && (forall r :: 0 <= r < |u| ==> u[r] == 0.0 || u[r] == 1.0)
      && (forall r :: 0 <= r < |v| ==> v[r] == -1.0 || v[r] == 0.0 || v[r] == 1.0)
      && (Covers(u, v) <==>
          forall r :: 0 <= r < |InternalNodes(t)| ==> Agrees(t, X[s], LeafNodes(t)[j], InternalNodes(t)[r]))
  {
    MatrixShapes(t);
    var g := Compile(t);
    var internal, leaf := InternalNodes(t), LeafNodes(t)[j];
    var u, v := g.Satisfied(X)[s], Column(g.c, j);
    assert |u| == |v| == |internal|;
    forall r | 0 <= r < |internal|
      ensures u[r] == 0.0 || u[r] == 1.0
      ensures v[r] == -1.0 || v[r] == 0.0 || v[r] == 1.0
      ensures ((v[r] == 1.0 ==> u[r] == 1.0) && (v[r] == -1.0 ==> u[r] == 0.0)) <==>
        Agrees(t, X[s], leaf, internal[r])
    {
      assert v[r] == g.c[r][j];
      assert internal[r] in internal;
      SatisfiedTests(t, X, s, r);
      PathMatrixAncestors(t, r, j);
    }
    CoversIffAgree(t, X[s], leaf, u, v);
  }

  /** `... @ C == D` compares, for leaf j, the tests a sample passes against
      the directions column j of C requires. */
  lemma ReachedIffAgree(t: Tree, X: Matrix, s: nat, j: nat)
    requires WellFormed(t) && Compile(t).Fits(X)
    requires s < |X| && j < |LeafNodes(t)|
    ensures Compile(t).Reached(X)[s][j] ==
      if forall r :: 0 <= r < |InternalNodes(t)| ==> Agrees(t, X[s], LeafNodes(t)[j], InternalNodes(t)[r])
      then 1.0 else 0.0
  {
    var g := Compile(t);
    ReachedEntry(t, X, s, j);
    TestsAgainstColumn(t, X, s, j);
    DotAgainstCountOnes(g.Satisfied(X)[s], Column(g.c, j));
  }


  /** Ranging over the compact indices is ranging over the internal nodes. */
  lemma AgreeOverCompactIndices(t: Tree, x: seq<real>, leaf: nat)
    requires WellFormed(t) && |x| == t.nFeatures
    ensures (forall r :: 0 <= r < |InternalNodes(t)| ==> Agrees(t, x, leaf, InternalNodes(t)[r]))
      <==> AllAgree(t, x, leaf)
  {
    var internal := InternalNodes(t);
    if forall r :: 0 <= r < |internal| ==> Agrees(t, x, leaf, internal[r]) {
      forall n | 0 <= n < NodeCount(t) && IsInternal(t, n) ensures Agrees(t, x, leaf, n) {
        assert n in internal;
        assert internal[Remap(internal)[n]] == n;
      }
    }
    if AllAgree(t, x, leaf) {
      forall r | 0 <= r < |internal| ensures Agrees(t, x, leaf, internal[r]) {
        assert internal[r] in internal;
      }
    }
  }

  /** `... @ C == D`: entry (s, j) is 1 exactly when the walk of sample s
      ends at leaf j. */
  lemma ReachedLeaves(t: Tree, X: Matrix, s: nat, j: nat)
    requires WellFormed(t) && Compile(t).Fits(X)
    requires s < |X| && j < |LeafNodes(t)|
    ensures Compile(t).Reached(X)[s][j] ==
      if LeafNodes(t)[j] == Walk(t, 0, X[s]) then 1.0 else 0.0
  {
    var leaf := LeafNodes(t)[j];
    assert leaf in LeafNodes(t);
    ReachedIffAgree(t, X, s, j);
    AgreeOverCompactIndices(t, X[s], leaf);
    WalkReachesFromRoot(t, X[s], leaf);
  }

  /** Exactly one leaf is reached per sample: the row of `reached` is one-hot
      at the leaf the walk ends at. */
  lemma OneLeafReached(t: Tree, X: Matrix, s: nat) returns (j: nat)
    requires WellFormed(t) && Compile(t).Fits(X) && s < |X|
    ensures j < |LeafNodes(t)| && LeafNodes(t)[j] == Walk(t, 0, X[s])
    ensures OneHot(Compile(t).Reached(X)[s], j)
  {
    var leaves := LeafNodes(t);
    var w := Walk(t, 0, X[s]);
    assert w in leaves;
    j :| 0 <= j < |leaves| && leaves[j] == w;
    forall j' | 0 <= j' < |leaves|
      ensures Compile(t).Reached(X)[s][j'] == if j' == j then 1.0 else 0.0
    {
      ReachedLeaves(t, X, s, j');
    }
  }

  /** The classes the recursive walk assigns to the samples of a batch. */
  function WalkClasses(t: Tree, X: Matrix): (r: seq<nat>)
    requires Structured(t) && forall s :: 0 <= s < |X| ==> |X[s]| == t.nFeatures
    ensures |r| == |X|
  {
    seq(|X|, s requires 0 <= s < |X| => WalkClass(t, X[s]))
  }

  /** `_GEMM` / `predict_onehot`: row s is one-hot at the class the recursive
      walk predicts for sample s; a batch of the wrong width is rejected. */
  lemma GemmMatchesWalk(t: Tree, X: Matrix)
    requires WellFormed(t)
    ensures Compile(t).PredictOnehot(X) == Compile(t).Gemm(X)
    ensures Compile(t).Fits(X) ==>
      Compile(t).Gemm(X) == Ok(OneHotRows(WalkClasses(t, X), t.nClasses))
    ensures !Compile(t).Fits(X) ==> Compile(t).Gemm(X) == Err(ShapeMismatch)
  {
    var g := Compile(t);
    if g.Fits(X) {
      var out := g.Pipeline(X);
      var expected := OneHotRows(WalkClasses(t, X), t.nClasses);
      forall s, c | 0 <= s < |X| && 0 <= c < t.nClasses
        ensures out[s][c] == expected[s][c]
      {
        var j := OneLeafReached(t, X, s);
        DotOneHotLeft(g.Reached(X)[s], Column(g.e, c), j);
        LeafClassRows(t, j);
      }
      assert |out| == |expected|;
      forall s | 0 <= s < |X| ensures out[s] == expected[s] {
        assert |out[s]| == t.nClasses == |expected[s]|;
      }
      assert out == expected;
    }
  }

  /** `predict`: the class of each sample is the one the recursive walk
      reaches. */
  lemma PredictMatchesWalk(t: Tree, X: Matrix)
    requires WellFormed(t) && Compile(t).Fits(X)
    ensures Compile(t).Predict(X) == Ok(WalkClasses(t, X))
  {
    GemmMatchesWalk(t, X);
    var rows := OneHotRows(WalkClasses(t, X), t.nClasses);
    forall s | 0 <= s < |X| ensures ArgMax(rows[s]) == WalkClasses(t, X)[s] {
      assert OneHot(rows[s], WalkClasses(t, X)[s]);
      ArgMaxOneHot(rows[s], WalkClasses(t, X)[s]);
    }
    assert ArgMaxRows(rows) == WalkClasses(t, X);
  }
}
