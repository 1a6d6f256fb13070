/** A fitted classification tree as scikit-learn stores it (`tree_`): parallel
    node arrays indexed from the root 0, plus the reference semantics the
    compiled matrices must reproduce — the recursive walk — and the
    root-to-leaf path that the matrix compiler takes from `utils.compute_path`. */
module DecisionTree {
  import opened Dense

  /** Node `i` is internal when its two child links differ; a leaf stores the
      same sentinel in both. `value[i]` is the class-count distribution of
      node `i` (the single output of `tree_.value`). */
  datatype Tree = Tree(
    childrenLeft: seq<int>,
    childrenRight: seq<int>,
    feature: seq<int>,
    threshold: seq<real>,
    value: seq<seq<real>>,
    nFeatures: nat,
    nClasses: nat)

  function NodeCount(t: Tree): nat {
    |t.childrenLeft|
  }

  predicate IsInternal(t: Tree, i: nat)
    requires i < |t.childrenLeft| && i < |t.childrenRight|
  {
    t.childrenLeft[i] != t.childrenRight[i]
  }

  /** The arrays agree in length, there is a root, every distribution has
      `nClasses` entries, and an internal node tests a real feature and points
      at two nodes allocated after it (scikit-learn numbers a child after its
      parent), so the node graph is acyclic. */
  predicate Structured(t: Tree) {
    var n := |t.childrenLeft|;
    && n > 0
    && |t.childrenRight| == n && |t.feature| == n && |t.threshold| == n && |t.value| == n
    && t.nClasses > 0
    && (forall i :: 0 <= i < n ==> |t.value[i]| == t.nClasses)
    && (forall i :: 0 <= i < n && IsInternal(t, i) ==>
          && i < t.childrenLeft[i] < n
          && i < t.childrenRight[i] < n
          && 0 <= t.feature[i] < t.nFeatures)
  }

  /** The nodes reachable from `node`, itself included. */
  function Subtree(t: Tree, node: nat): (s: set<nat>)
    requires Structured(t) && node < NodeCount(t)
    ensures node in s
    ensures forall m :: m in s ==> node <= m < NodeCount(t)
    decreases NodeCount(t) - node
  {
    if IsInternal(t, node) then
      {node} + Subtree(t, t.childrenLeft[node]) + Subtree(t, t.childrenRight[node])
    else
      {node}
  }

  /** The two subtrees below internal node `i` share no node. */
  predicate SplitDisjoint(t: Tree, i: nat)
    requires Structured(t) && i < NodeCount(t) && IsInternal(t, i)
  {
    Subtree(t, t.childrenLeft[i]) !! Subtree(t, t.childrenRight[i])
  }

  /** A tree proper: the two subtrees below each internal node share no node,
      and every node lies below the root. */
  predicate WellFormed(t: Tree) {
    && Structured(t)
    && (forall i {:trigger SplitDisjoint(t, i)} :: 0 <= i < NodeCount(t) && IsInternal(t, i) ==> SplitDisjoint(t, i))
    && (forall i :: 0 <= i < NodeCount(t) ==> i in Subtree(t, 0))
  }

  /** The test of internal node `n` holds for sample `x`: `x[feature] < threshold`. */
  predicate Satisfies(t: Tree, x: seq<real>, n: nat)
    requires Structured(t) && n < NodeCount(t) && IsInternal(t, n) && |x| == t.nFeatures
  {
    x[t.feature[n]] < t.threshold[n]
  }

  /** The recursive tree walk: left when the strict test
      `x[feature] < threshold` holds, right otherwise, down to a leaf. This is
      the comparison the compiled trees make; scikit-learn's own traversal
      goes left on `<=`, so the two differ on a feature equal to a threshold. */
  function Walk(t: Tree, node: nat, x: seq<real>): (leaf: nat)
    requires Structured(t) && node < NodeCount(t) && |x| == t.nFeatures
    ensures leaf in Subtree(t, node) && !IsInternal(t, leaf)
    decreases NodeCount(t) - node
  {
    if !IsInternal(t, node) then node
    else if Satisfies(t, x, node) then Walk(t, t.childrenLeft[node], x)
    else Walk(t, t.childrenRight[node], x)
  }

  /** The class the tree predicts for `x`: the majority class of the leaf the
      walk reaches, lowest class index on ties. */
  function WalkClass(t: Tree, x: seq<real>): (c: nat)
    requires Structured(t) && |x| == t.nFeatures
    ensures c < t.nClasses
  {
    ArgMax(t.value[Walk(t, 0, x)])
  }

  /** The branch the root-to-`leaf` path takes at internal node `n`: +1 when
      `leaf` lies in the left subtree of `n`, -1 when it lies in the right
      one, 0 when `n` is not an ancestor of `leaf`. */
  function Direction(t: Tree, leaf: nat, n: nat): int
    requires Structured(t) && n < NodeCount(t) && IsInternal(t, n)
  {
    if leaf in Subtree(t, t.childrenLeft[n]) then 1
    else if leaf in Subtree(t, t.childrenRight[n]) then -1
    else 0
  }

  /** The test at `n` agrees with the branch the path to `leaf` takes there. */
  predicate Agrees(t: Tree, x: seq<real>, leaf: nat, n: nat)
    requires Structured(t) && n < NodeCount(t) && IsInternal(t, n) && |x| == t.nFeatures
  {
    && (Direction(t, leaf, n) == 1 ==> Satisfies(t, x, n))
    && (Direction(t, leaf, n) == -1 ==> !Satisfies(t, x, n))
  }

  /** One entry of a path: an internal node and the direction taken there. */
  datatype Step = Step(node: nat, dir: int)

  /** `compute_path(tree, leaf)` from `node`: each internal node on the way
      down, in order, with +1 if `leaf` is in its left subtree and -1
      otherwise. */
  function Path(t: Tree, node: nat, leaf: nat): (p: seq<Step>)
    requires Structured(t) && node < NodeCount(t)
    requires leaf in Subtree(t, node) && !IsInternal(t, leaf)
    ensures forall k :: 0 <= k < |p| ==>
      && p[k].node in Subtree(t, node)
      && IsInternal(t, p[k].node)
      && (p[k].dir == 1 || p[k].dir == -1)
    ensures forall a, b :: 0 <= a < b < |p| ==> p[a].node < p[b].node
    decreases NodeCount(t) - node
  {
    if !IsInternal(t, node) then []
    else if leaf in Subtree(t, t.childrenLeft[node]) then
      [Step(node, 1)] + Path(t, t.childrenLeft[node], leaf)
    else
      [Step(node, -1)] + Path(t, t.childrenRight[node], leaf)
  }

  /** The direction recorded for `n` in `p`, the last one written when `n`
      occurs more than once (as writing the steps into a column in order
      leaves it), and 0 when `n` does not occur. */
  function DirectionIn(p: seq<Step>, n: nat): int {
    if |p| == 0 then 0
    else if p[|p| - 1].node == n then p[|p| - 1].dir
    else DirectionIn(p[..|p| - 1], n)
  }

  /** The number of steps of `p` that go left. */
  function LeftTurns(p: seq<Step>): nat {
    if |p| == 0 then 0
    else LeftTurns(p[..|p| - 1]) + (if p[|p| - 1].dir == 1 then 1 else 0)
  }

  // ---------------------------------------------------------------------
  // Lemmas

  /** Subtrees nest. */
  lemma {:induction false} SubtreeNested(t: Tree, a: nat, b: nat)
    requires Structured(t) && a < NodeCount(t) && b in Subtree(t, a)
    ensures Subtree(t, b) <= Subtree(t, a)
    decreases NodeCount(t) - a
  {
    if b != a {
      assert IsInternal(t, a);
      if b in Subtree(t, t.childrenLeft[a]) {
        SubtreeNested(t, t.childrenLeft[a], b);
      } else {
        SubtreeNested(t, t.childrenRight[a], b);
      }
    }
  }

  /** An internal node that lies in a subtree not containing `leaf` is not an
      ancestor of `leaf`. */
  lemma NotAncestor(t: Tree, leaf: nat, n: nat, c: nat)
    requires Structured(t) && c < NodeCount(t) && n in Subtree(t, c) && IsInternal(t, n)
    requires leaf !in Subtree(t, c)
    ensures Direction(t, leaf, n) == 0
  {
    SubtreeNested(t, c, n);
    assert Subtree(t, t.childrenLeft[n]) <= Subtree(t, n);
    assert Subtree(t, t.childrenRight[n]) <= Subtree(t, n);
  }

  /** The walk from `node` ends at `leaf` exactly when every test below `node`
      agrees with the branch the path to `leaf` takes there. */
  lemma {:induction false} WalkReaches(t: Tree, x: seq<real>, node: nat, leaf: nat)
    requires WellFormed(t) && node < NodeCount(t) && |x| == t.nFeatures
    requires leaf in Subtree(t, node) && !IsInternal(t, leaf)
    ensures Walk(t, node, x) == leaf <==>
      forall n :: n in Subtree(t, node) && IsInternal(t, n) ==> Agrees(t, x, leaf, n)
    decreases NodeCount(t) - node
  {
    if IsInternal(t, node) {
      var l, r := t.childrenLeft[node], t.childrenRight[node];
      assert SplitDisjoint(t, node);
      if leaf in Subtree(t, l) {
        WalkReaches(t, x, l, leaf);
        assert Direction(t, leaf, node) == 1;
        forall n | n in Subtree(t, r) && IsInternal(t, n)
          ensures Agrees(t, x, leaf, n)
        {
          NotAncestor(t, leaf, n, r);
        }
        if Walk(t, node, x) == leaf {
          assert Satisfies(t, x, node);
        }
      } else {
        assert leaf in Subtree(t, r);
        WalkReaches(t, x, r, leaf);
        assert Direction(t, leaf, node) == -1;
        forall n | n in Subtree(t, l) && IsInternal(t, n)
          ensures Agrees(t, x, leaf, n)
        {
          NotAncestor(t, leaf, n, l);
        }
        if Walk(t, node, x) == leaf {
          assert !Satisfies(t, x, node);
        }
      }
    }
  }

  /** Every internal node's test agrees with the path to `leaf`. */
  predicate AllAgree(t: Tree, x: seq<real>, leaf: nat)
    requires Structured(t) && |x| == t.nFeatures
  {
    forall n :: 0 <= n < NodeCount(t) && IsInternal(t, n) ==> Agrees(t, x, leaf, n)
  }

  /** Exactly one leaf is reached from the root: the one every one of whose
      ancestors' tests agrees with the path to it. */
  lemma WalkReachesFromRoot(t: Tree, x: seq<real>, leaf: nat)
    requires WellFormed(t) && |x| == t.nFeatures
    requires leaf < NodeCount(t) && !IsInternal(t, leaf)
    ensures Walk(t, 0, x) == leaf <==> AllAgree(t, x, leaf)
  {
    WalkReaches(t, x, 0, leaf);
  }

  lemma {:induction false} DirectionInAbsent(p: seq<Step>, n: nat)
    requires forall k :: 0 <= k < |p| ==> p[k].node != n
    ensures DirectionIn(p, n) == 0
  {
    if |p| > 0 {
      DirectionInAbsent(p[..|p| - 1], n);
    }
  }

  /** Prepending a step for a node that does not occur later. */
  lemma {:induction false} DirectionInCons(st: Step, q: seq<Step>, n: nat)
    requires forall k :: 0 <= k < |q| ==> q[k].node != st.node
    ensures DirectionIn([st] + q, n) == if n == st.node then st.dir else DirectionIn(q, n)
  {
    if |q| == 0 {
      assert ([st] + q)[..0] == [];
    } else {
      assert ([st] + q)[..|q|] == [st] + q[..|q| - 1];
      DirectionInCons(st, q[..|q| - 1], n);
    }
  }

  /** The path from `node` records, for each internal node below `node`, the
      branch towards `leaf`, and 0 for a node that is not an ancestor. */
  lemma {:induction false} PathDirections(t: Tree, node: nat, leaf: nat, n: nat)
    requires WellFormed(t) && node < NodeCount(t)
    requires leaf in Subtree(t, node) && !IsInternal(t, leaf)
    requires n in Subtree(t, node) && IsInternal(t, n)
    ensures DirectionIn(Path(t, node, leaf), n) == Direction(t, leaf, n)
    decreases NodeCount(t) - node
  {
    var l, r := t.childrenLeft[node], t.childrenRight[node];
    assert IsInternal(t, node);
    assert SplitDisjoint(t, node);
    var child := if leaf in Subtree(t, l) then l else r;
    var other := if leaf in Subtree(t, l) then r else l;
    var q := Path(t, child, leaf);
    var p := Path(t, node, leaf);
    assert p == [p[0]] + q && p[0].node == node;
    DirectionInCons(p[0], q, n);
    if n != node {
      if n in Subtree(t, child) {
        PathDirections(t, child, leaf, n);
      } else {
        assert n in Subtree(t, other);
        DirectionInAbsent(q, n);
        NotAncestor(t, leaf, n, other);
      }
    }
  }

  /** At the root: the path records exactly the ancestors of `leaf`. */
  lemma PathDirectionsFromRoot(t: Tree, leaf: nat, n: nat)
    requires WellFormed(t) && leaf < NodeCount(t) && !IsInternal(t, leaf)
    requires n < NodeCount(t) && IsInternal(t, n)
    ensures DirectionIn(Path(t, 0, leaf), n) == Direction(t, leaf, n)
  {
    PathDirections(t, 0, leaf, n);
  }
}
