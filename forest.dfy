/** `RandomForestGEMM`: the compiled trees of a fitted forest, whose one-hot
    outputs are summed into a vote matrix and reduced by argmax. */
module Forest {
  import opened Dense
  import opened Errors
  import opened DecisionTree
  import opened TreeGemm
  import opened GemmCorrectness

  /** Tree `g` accepts batch `X` and has a class `c`. */
  predicate CanVote(g: DecisionTreeGemm, X: Matrix, c: nat) {
    g.Valid() && g.Fits(X) && c < g.nClasses
  }

  /** Entry (s, c) of a tree's one-hot output, as a weight on trees. */
  function TreeVote(X: Matrix, s: nat, c: nat): DecisionTreeGemm --> real {
    g requires CanVote(g, X, c) && s < |X| => g.Pipeline(X)[s][c]
  }

  /** The sum of `w` over the elements of `xs`, taken in order. */
  function SumBy<T>(xs: seq<T>, w: T --> real): real
    requires forall x :: x in xs ==> w.requires(x)
  {
    if |xs| == 0 then 0.0 else SumBy(xs[..|xs| - 1], w) + w(xs[|xs| - 1])
  }

  /** Entry (s, c) of the vote: the sum over `trees` of each tree's entry. */
  function VoteAt(trees: seq<DecisionTreeGemm>, X: Matrix, s: nat, c: nat): real
    requires forall g :: g in trees ==> CanVote(g, X, c)
    requires s < |X|
  {
    SumBy(trees, TreeVote(X, s, c))
  }

  datatype RandomForestGemm = RandomForestGemm(trees: seq<DecisionTreeGemm>, nClasses: nat)
  {
    predicate Valid() {
      forall g :: g in trees ==> g.Valid()
    }

    /** `vote`: `stack([e.predict_onehot(X) for e in trees]).sum(axis=0)`.
        A tree that rejects the batch fails the whole vote; stacking fails
        on no outputs at all and on outputs of different widths. */
    function Vote(X: Matrix): (r: Result<Matrix>)
      requires Valid()
      ensures r.Ok? <==>
        && |trees| > 0
        && (forall g :: g in trees ==> g.Fits(X))
        && (forall g, h :: g in trees && h in trees ==> g.nClasses == h.nClasses)
      ensures r.Err? ==> r.error == if |trees| == 0 then EmptyForest else ShapeMismatch
      ensures r.Ok? ==> |trees| > 0 && trees[0].nClasses > 0 && IsMatrix(r.value, |X|, trees[0].nClasses)
    {
      if |trees| == 0 then Err(EmptyForest)
      else if exists g :: g in trees && !g.Fits(X) then Err(ShapeMismatch)
      else if exists g, h :: g in trees && h in trees && g.nClasses != h.nClasses then Err(ShapeMismatch)
      else
        var nC := trees[0].nClasses;
        assert trees[0] in trees;
        Ok(seq(|X|, s requires 0 <= s < |X| =>
          seq(nC, c requires 0 <= c < nC => VoteAt(trees, X, s, c))))
    }

    /** `predict`: the row-wise argmax of the vote, one class label per
        sample; it fails exactly when the vote does. */
    function Predict(X: Matrix): (r: Result<seq<nat>>)
      requires Valid()
      ensures r.Ok? <==> Vote(X).Ok?
      ensures r.Err? ==> r.error == Vote(X).error
      ensures r.Ok? ==> |r.value| == |X| && forall s :: 0 <= s < |X| ==> r.value[s] < trees[0].nClasses
    {
      match Vote(X)
      case Ok(v) => Ok(ArgMaxRows(v))
      case Err(e) => Err(e)
    }
  }

  /** The compiled trees of `ts`, in order. */
  function CompiledTrees(ts: seq<Tree>): (trees: seq<DecisionTreeGemm>)
    requires forall k :: 0 <= k < |ts| ==> WellFormed(ts[k])
    ensures |trees| == |ts|
    ensures forall g :: g in trees ==> g.Valid()
  {
    seq(|ts|, k requires 0 <= k < |ts| => Compile(ts[k]))
  }

  /** `RandomForestGEMM.__init__`: one compiled tree per estimator. */
  method BuildForest(ts: seq<Tree>, nClasses: nat) returns (f: RandomForestGemm)
    requires forall k :: 0 <= k < |ts| ==> WellFormed(ts[k])
    ensures f.trees == CompiledTrees(ts) && f.nClasses == nClasses
  {
    var trees := [];
    for k := 0 to |ts|
      invariant trees == CompiledTrees(ts[..k])
    {
      var g := Build(ts[k]);
      assert ts[..k + 1] == ts[..k] + [ts[k]];
      trees := trees + [g];
    }
    assert ts[..|ts|] == ts;
    f := RandomForestGemm(trees, nClasses);
  }

  // ---------------------------------------------------------------------
  // The vote is a sum over a multiset of trees

  /** Taking element `i` out of the sum takes away exactly its own weight. */
  lemma {:induction false} SumByRemove<T>(b: seq<T>, i: nat, w: T --> real)
    requires forall x :: x in b ==> w.requires(x)
    requires i < |b|
    ensures SumBy(b, w) == SumBy(b[..i] + b[i + 1..], w) + w(b[i])
  {
    var n := |b|;
    if i < n - 1 {
      var b' := b[..n - 1];
      assert forall x :: x in b' ==> x in b;
      SumByRemove(b', i, w);
      var rest := b[..i] + b[i + 1..];
      assert rest[..|rest| - 1] == b'[..i] + b'[i + 1..];
      assert rest[|rest| - 1] == b[n - 1];
    } else {
      assert b[..i] + b[i + 1..] == b[..n - 1];
    }
  }


  /** The sum does not depend on the order of the elements. */
  lemma {:induction false} SumByPermutation<T>(a: seq<T>, b: seq<T>, w: T --> real)
    requires multiset(a) == multiset(b)
    requires forall x :: x in a ==> w.requires(x)
    ensures forall x :: x in b ==> w.requires(x)
    ensures SumBy(a, w) == SumBy(b, w)
    decreases |a|
  {
    assert forall x :: x in b ==> x in multiset(a);
    if |a| > 0 {
      var last := a[|a| - 1];
      var a' := a[..|a| - 1];
      assert last in multiset(b);
      var i :| 0 <= i < |b| && b[i] == last;
      MultisetRemove(a, |a| - 1);
      assert a[..|a| - 1] + a[|a|..] == a';
      MultisetRemove(b, i);
      assert forall x :: x in a' ==> x in a;
      SumByPermutation(a', b[..i] + b[i + 1..], w);
      SumByRemove(b, i, w);
    }
  }

  lemma MultisetRemove<T>(b: seq<T>, i: nat)
    requires i < |b|
    ensures multiset(b[..i] + b[i + 1..]) == multiset(b) - multiset{b[i]}
  {
    assert b == b[..i] + [b[i]] + b[i + 1..];
  }

  /** Permuting the trees changes neither the vote nor the prediction. */
  lemma VotePermutationInvariant(f: RandomForestGemm, f': RandomForestGemm, X: Matrix)
    requires f.Valid() && multiset(f.trees) == multiset(f'.trees)
    ensures f'.Valid()
    ensures f.Vote(X) == f'.Vote(X)
    ensures f.Predict(X) == f'.Predict(X)
  {
    assert forall g :: g in f'.trees <==> g in f.trees by {
      assert forall g :: g in f'.trees <==> g in multiset(f'.trees);
    }
    assert |f.trees| == |multiset(f.trees)| == |f'.trees|;
    if f.Vote(X).Ok? {
      assert f'.trees[0] in f.trees && f.trees[0] in f.trees;
      assert f'.Vote(X).Ok?;
      var v, v' := f.Vote(X).value, f'.Vote(X).value;
      var nC := f.trees[0].nClasses;
      forall s, c | 0 <= s < |X| && 0 <= c < nC ensures v[s][c] == v'[s][c] {
        SumByPermutation(f.trees, f'.trees, TreeVote(X, s, c));
      }
      assert forall s :: 0 <= s < |X| ==> v[s] == v'[s];
      assert v == v';
    }
  }

  // ---------------------------------------------------------------------
  // A forest compiled from trees votes as its trees predict

  /** Every tree is well formed, and all read `nF` features and know `nC`
      classes. */
  predicate Compatible(ts: seq<Tree>, nF: nat, nC: nat) {
    forall k :: 0 <= k < |ts| ==> WellFormed(ts[k]) && ts[k].nFeatures == nF && ts[k].nClasses == nC
  }

  /** The number of trees among `ts` whose walk predicts class `c` for `x`. */
  function Predicting(ts: seq<Tree>, x: seq<real>, c: nat): (n: nat)
    requires forall k :: 0 <= k < |ts| ==> Structured(ts[k]) && |x| == ts[k].nFeatures
    ensures n <= |ts|
  {
    if |ts| == 0 then 0
    else Predicting(ts[..|ts| - 1], x, c) + (if WalkClass(ts[|ts| - 1], x) == c then 1 else 0)
  }

  /** One compiled tree's output, entry (s, c), in terms of its walk. */
  lemma TreeOutput(t: Tree, X: Matrix, s: nat, c: nat)
    requires WellFormed(t) && Compile(t).Fits(X) && s < |X| && c < t.nClasses
    ensures CanVote(Compile(t), X, c)
    ensures TreeVote(X, s, c)(Compile(t)) == if WalkClass(t, X[s]) == c then 1.0 else 0.0
  {
    GemmMatchesWalk(t, X);
  }

  lemma {:induction false} VoteAtCounts(ts: seq<Tree>, nF: nat, nC: nat, X: Matrix, s: nat, c: nat)
    requires Compatible(ts, nF, nC) && s < |X| && c < nC
    requires forall s' :: 0 <= s' < |X| ==> |X[s']| == nF
    ensures VoteAt(CompiledTrees(ts), X, s, c) == Predicting(ts, X[s], c) as real
  {
    if |ts| > 0 {
      var n := |ts|;
      assert CompiledTrees(ts)[..n - 1] == CompiledTrees(ts[..n - 1]);
      VoteAtCounts(ts[..n - 1], nF, nC, X, s, c);
      TreeOutput(ts[n - 1], X, s, c);
    }
  }

  /** Every tree is structured, reads samples of `x`'s width and knows `nC`
      classes. */
  predicate SampleFits(ts: seq<Tree>, x: seq<real>, nC: nat) {
    forall k :: 0 <= k < |ts| ==> Structured(ts[k]) && |x| == ts[k].nFeatures && ts[k].nClasses == nC
  }

  /** The class counts of `ts` for sample `x`, one entry per class. */
  function CountRow(ts: seq<Tree>, x: seq<real>, nC: nat): (row: Vector)
    requires SampleFits(ts, x, nC)
    ensures |row| == nC
  {
    seq(nC, c requires 0 <= c < nC => Predicting(ts, x, c) as real)
  }

  /** One tree's ballot: one vote for class `w` out of `nC`. */
  function Ballot(nC: nat, w: nat): (v: Vector)
    requires w < nC
    ensures OneHot(v, w)
  {
    seq(nC, c requires 0 <= c < nC => if c == w then 1.0 else 0.0)
  }

  /** Adding a tree adds its ballot to the class counts. */
  lemma CountRowStep(ts: seq<Tree>, x: seq<real>, nC: nat)
    requires SampleFits(ts, x, nC) && |ts| > 0
    ensures SampleFits(ts[..|ts| - 1], x, nC)
    ensures CountRow(ts, x, nC) ==
      Add(CountRow(ts[..|ts| - 1], x, nC), Ballot(nC, WalkClass(ts[|ts| - 1], x)))
  {
    var n := |ts|;
    var w := WalkClass(ts[n - 1], x);
    forall c | 0 <= c < nC
      ensures CountRow(ts, x, nC)[c] == Add(CountRow(ts[..n - 1], x, nC), Ballot(nC, w))[c]
    {
      assert Predicting(ts, x, c) == Predicting(ts[..n - 1], x, c) + (if w == c then 1 else 0);
    }
  }

  /** Every tree votes once: the class counts add up to the number of trees. */
  lemma {:induction false} CountRowSum(ts: seq<Tree>, x: seq<real>, nC: nat)
    requires SampleFits(ts, x, nC)
    ensures Sum(CountRow(ts, x, nC)) == |ts| as real
  {
    if |ts| == 0 {
      SumZero(CountRow(ts, x, nC));
    } else {
      var n := |ts|;
      var w := WalkClass(ts[n - 1], x);
      CountRowStep(ts, x, nC);
      CountRowSum(ts[..n - 1], x, nC);
      SumAdd(CountRow(ts[..n - 1], x, nC), Ballot(nC, w));
      OneHotSum(Ballot(nC, w), w);
    }
  }

  /** The compiled trees read `nF` features and know `nC` classes. */
  lemma CompiledShapes(ts: seq<Tree>, nF: nat, nC: nat)
    requires Compatible(ts, nF, nC)
    ensures forall g :: g in CompiledTrees(ts) ==> g.Valid() && g.nFeatures == nF && g.nClasses == nC
  {
    forall g | g in CompiledTrees(ts) ensures g.Valid() && g.nFeatures == nF && g.nClasses == nC {
      var k :| 0 <= k < |ts| && CompiledTrees(ts)[k] == g;
      MatrixShapes(ts[k]);
    }
  }

  /** `vote` fails on an empty forest, and on a batch whose samples do not
      all have the width the trees read. `f` is any forest built from `ts`:
      its stored class count plays no part. */
  lemma VoteRejects(ts: seq<Tree>, nF: nat, nC: nat, f: RandomForestGemm, X: Matrix)
    requires Compatible(ts, nF, nC) && f.trees == CompiledTrees(ts)
    ensures f.Valid()
    ensures |ts| == 0 ==> f.Vote(X) == Err(EmptyForest)
    ensures |ts| > 0 && (exists s :: 0 <= s < |X| && |X[s]| != nF) ==> f.Vote(X) == Err(ShapeMismatch)
  {
    CompiledShapes(ts, nF, nC);
    if |ts| > 0 && exists s :: 0 <= s < |X| && |X[s]| != nF {
      assert CompiledTrees(ts)[0] in CompiledTrees(ts);
      assert !CompiledTrees(ts)[0].Fits(X);
    }
  }

  /** `vote` on a forest compiled from `ts`: entry (s, c) counts the trees
      whose walk predicts class c for sample s, and every row adds up to the
      number of trees. */
  lemma VoteCountsTrees(ts: seq<Tree>, nF: nat, nC: nat, f: RandomForestGemm, X: Matrix)
    requires Compatible(ts, nF, nC) && |ts| > 0 && f.trees == CompiledTrees(ts)
    requires forall s :: 0 <= s < |X| ==> |X[s]| == nF
    ensures f.Valid()
    ensures f.Vote(X).Ok?
    ensures |f.Vote(X).value| == |X|
    ensures forall s :: 0 <= s < |X| ==> f.Vote(X).value[s] == CountRow(ts, X[s], nC)
    ensures forall s :: 0 <= s < |X| ==> Sum(f.Vote(X).value[s]) == |ts| as real
  {
    CompiledShapes(ts, nF, nC);
    assert f.trees[0] in f.trees;
    assert f.Vote(X).Ok?;
    var v := f.Vote(X).value;
    forall s | 0 <= s < |X| ensures v[s] == CountRow(ts, X[s], nC) && Sum(v[s]) == |ts| as real {
      forall c | 0 <= c < nC ensures v[s][c] == CountRow(ts, X[s], nC)[c] {
        VoteAtCounts(ts, nF, nC, X, s, c);
      }
      CountRowSum(ts, X[s], nC);
    }
  }

  /** `predict` on a forest compiled from `ts` returns, for each sample, the
      class most trees predict, the lowest such class on a tie. */
  lemma PredictIsPlurality(ts: seq<Tree>, nF: nat, nC: nat, f: RandomForestGemm, X: Matrix)
    requires Compatible(ts, nF, nC) && |ts| > 0 && f.trees == CompiledTrees(ts)
    requires forall s :: 0 <= s < |X| ==> |X[s]| == nF
    ensures f.Valid()
    ensures f.Predict(X).Ok?
    ensures |f.Predict(X).value| == |X|
    ensures forall s :: 0 <= s < |X| ==>
      var p := f.Predict(X).value[s];
      && p < nC
      && (forall c :: 0 <= c < nC ==> Predicting(ts, X[s], c) <= Predicting(ts, X[s], p))
      && (forall c :: 0 <= c < p ==> Predicting(ts, X[s], c) < Predicting(ts, X[s], p))
  {
    VoteCountsTrees(ts, nF, nC, f, X);
    var v := f.Vote(X).value;
    forall s | 0 <= s < |X|
      ensures var p := f.Predict(X).value[s];
        && p < nC
        && (forall c :: 0 <= c < nC ==> Predicting(ts, X[s], c) <= Predicting(ts, X[s], p))
        && (forall c :: 0 <= c < p ==> Predicting(ts, X[s], c) < Predicting(ts, X[s], p))
    {
      var row := CountRow(ts, X[s], nC);
      assert v[s] == row;
      var p := ArgMax(row);
      assert f.Predict(X).value[s] == p;
      forall c | 0 <= c < nC ensures Predicting(ts, X[s], c) <= Predicting(ts, X[s], p) {
        assert row[c] <= row[p];
      }
      forall c | 0 <= c < p ensures Predicting(ts, X[s], c) < Predicting(ts, X[s], p) {
        assert row[c] < row[p];
      }
    }
  }
}
