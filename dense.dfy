/** Dense real matrices and the handful of array-library operations the
    compiled trees are evaluated with: matrix product, broadcast comparison
    against a vector, counting along an axis and argmax. */
module Dense {

  type Vector = seq<real>
  type Matrix = seq<seq<real>>

  /** `m` is a rectangular array of shape (rows, cols). */
  predicate IsMatrix(m: Matrix, rows: nat, cols: nat) {
    |m| == rows && forall i :: 0 <= i < rows ==> |m[i]| == cols
  }

  /** Inner product of two vectors of the same length. */
  function Dot(u: Vector, v: Vector): real
    requires |u| == |v|
  {
    if |u| == 0 then 0.0 else u[0] * v[0] + Dot(u[1..], v[1..])
  }

  /** Column `k` of `m`. */
  function Column(m: Matrix, k: nat): Vector
    requires forall i :: 0 <= i < |m| ==> k < |m[i]|
  {
    seq(|m|, i requires 0 <= i < |m| => m[i][k])
  }

  /** The product `p @ q`, where `q` has `cols` columns. */
  function MatMul(p: Matrix, q: Matrix, cols: nat): (r: Matrix)
    requires forall s :: 0 <= s < |p| ==> |p[s]| == |q|
    requires IsMatrix(q, |q|, cols)
    ensures IsMatrix(r, |p|, cols)
  {
    seq(|p|, s requires 0 <= s < |p| =>
      seq(cols, k requires 0 <= k < cols => Dot(p[s], Column(q, k))))
  }

  /** `(m < b)` broadcast along the rows of `m`, converted to 0.0/1.0. */
  function LessMask(m: Matrix, b: Vector): (r: Matrix)
    requires forall s :: 0 <= s < |m| ==> |m[s]| == |b|
    ensures IsMatrix(r, |m|, |b|)
  {
    seq(|m|, s requires 0 <= s < |m| =>
      seq(|b|, i requires 0 <= i < |b| => if m[s][i] < b[i] then 1.0 else 0.0))
  }

  /** `(m == d)` broadcast along the rows of `m`, converted to 0.0/1.0. */
  function EqualMask(m: Matrix, d: Vector): (r: Matrix)
    requires forall s :: 0 <= s < |m| ==> |m[s]| == |d|
    ensures IsMatrix(r, |m|, |d|)
  {
    seq(|m|, s requires 0 <= s < |m| =>
      seq(|d|, j requires 0 <= j < |d| => if m[s][j] == d[j] then 1.0 else 0.0))
  }

  /** Number of entries of `v` equal to 1. */
  function CountOnes(v: Vector): nat {
    if |v| == 0 then 0 else (if v[0] == 1.0 then 1 else 0) + CountOnes(v[1..])
  }

  /** Number of nonzero entries of `v`. */
  function CountNonzero(v: Vector): nat {
    if |v| == 0 then 0 else (if v[0] != 0.0 then 1 else 0) + CountNonzero(v[1..])
  }

  /** `sum(m == 1, axis=0)` for a matrix with `cols` columns. */
  function CountOnesPerColumn(m: Matrix, cols: nat): (r: Vector)
    requires IsMatrix(m, |m|, cols)
    ensures |r| == cols
  {
    seq(cols, j requires 0 <= j < cols => CountOnes(Column(m, j)) as real)
  }

  function Sum(v: Vector): real {
    if |v| == 0 then 0.0 else v[0] + Sum(v[1..])
  }

  /** Entrywise sum of two vectors of the same length. */
  function Add(u: Vector, v: Vector): (r: Vector)
    requires |u| == |v|
    ensures |r| == |u|
  {
    seq(|u|, i requires 0 <= i < |u| => u[i] + v[i])
  }

  /** `v` is 1 at index `k` and 0 everywhere else. */
  predicate OneHot(v: Vector, k: nat) {
    k < |v| && forall i :: 0 <= i < |v| ==> v[i] == if i == k then 1.0 else 0.0
  }

  /** The index of the first maximum of `v`, as `argmax` scans it: a later
      entry replaces the candidate only when it is strictly larger. */
  function ArgMax(v: Vector): (k: nat)
    requires |v| > 0
    ensures k < |v|
    ensures forall i :: 0 <= i < |v| ==> v[i] <= v[k]
    ensures forall i :: 0 <= i < k ==> v[i] < v[k]
  {
    if |v| == 1 then 0
    else
      var k := ArgMax(v[..|v| - 1]);
      if v[k] < v[|v| - 1] then |v| - 1 else k
  }

  /** `argmax(m, axis=1)`. */
  function ArgMaxRows(m: Matrix): (r: seq<nat>)
    requires forall s :: 0 <= s < |m| ==> |m[s]| > 0
    ensures |r| == |m|
  {
    seq(|m|, s requires 0 <= s < |m| => ArgMax(m[s]))
  }

  // ---------------------------------------------------------------------
  // Lemmas

  /** Multiplying by a one-hot vector selects one entry. */
  lemma {:induction false} DotOneHotRight(u: Vector, v: Vector, k: nat)
    requires |u| == |v| && OneHot(v, k)
    ensures Dot(u, v) == u[k]
  {
    if k == 0 {
      DotZero(u[1..], v[1..]);
    } else {
      DotOneHotRight(u[1..], v[1..], k - 1);
    }
  }

  lemma {:induction false} DotOneHotLeft(u: Vector, v: Vector, k: nat)
    requires |u| == |v| && OneHot(u, k)
    ensures Dot(u, v) == v[k]
  {
    if k == 0 {
      DotZeroLeft(u[1..], v[1..]);
    } else {
      DotOneHotLeft(u[1..], v[1..], k - 1);
    }
  }

  lemma {:induction false} DotZero(u: Vector, v: Vector)
    requires |u| == |v|
    requires forall i :: 0 <= i < |v| ==> v[i] == 0.0
    ensures Dot(u, v) == 0.0
  {
    if |u| > 0 {
      DotZero(u[1..], v[1..]);
    }
  }

  lemma {:induction false} DotZeroLeft(u: Vector, v: Vector)
    requires |u| == |v|
    requires forall i :: 0 <= i < |u| ==> u[i] == 0.0
    ensures Dot(u, v) == 0.0
  {
    if |u| > 0 {
      DotZeroLeft(u[1..], v[1..]);
    }
  }

  /** `u` is 1 wherever `v` is +1 and 0 wherever `v` is -1. */
  predicate Covers(u: Vector, v: Vector)
    requires |u| == |v|
  {
    forall i :: 0 <= i < |v| ==> (v[i] == 1.0 ==> u[i] == 1.0) && (v[i] == -1.0 ==> u[i] == 0.0)
  }

  /** With a 0/1 vector `u` and a path column `v` over {-1, 0, +1}, the
      product never exceeds the number of +1 entries of `v`, and reaches it
      exactly when `u` covers `v`. */
  lemma {:induction false} DotAgainstCountOnes(u: Vector, v: Vector)
    requires |u| == |v|
    requires forall i :: 0 <= i < |u| ==> u[i] == 0.0 || u[i] == 1.0
    requires forall i :: 0 <= i < |v| ==> v[i] == -1.0 || v[i] == 0.0 || v[i] == 1.0
    ensures Dot(u, v) <= CountOnes(v) as real
    ensures Dot(u, v) == CountOnes(v) as real <==> Covers(u, v)
  {
    if |u| > 0 {
      DotAgainstCountOnes(u[1..], v[1..]);
      var head := u[0] * v[0];
      var headCount := if v[0] == 1.0 then 1.0 else 0.0;
      assert head <= headCount;
      assert head == headCount <==> (v[0] == 1.0 ==> u[0] == 1.0) && (v[0] == -1.0 ==> u[0] == 0.0);
      if Dot(u, v) == CountOnes(v) as real {
        forall i | 0 <= i < |v|
          ensures (v[i] == 1.0 ==> u[i] == 1.0) && (v[i] == -1.0 ==> u[i] == 0.0)
        {
          if i > 0 {
            assert v[i] == v[1..][i - 1] && u[i] == u[1..][i - 1];
          }
        }
      }
      if Covers(u, v) {
        forall i | 0 <= i < |v| - 1
          ensures (v[1..][i] == 1.0 ==> u[1..][i] == 1.0) && (v[1..][i] == -1.0 ==> u[1..][i] == 0.0)
        {
          assert v[1..][i] == v[i + 1] && u[1..][i] == u[i + 1];
        }
      }
    }
  }

  /** A one-hot vector sums to 1. */
  lemma {:induction false} OneHotSum(v: Vector, k: nat)
    requires OneHot(v, k)
    ensures Sum(v) == 1.0
  {
    if k == 0 {
      SumZero(v[1..]);
    } else {
      OneHotSum(v[1..], k - 1);
    }
  }

  lemma {:induction false} SumZero(v: Vector)
    requires forall i :: 0 <= i < |v| ==> v[i] == 0.0
    ensures Sum(v) == 0.0
  {
    if |v| > 0 {
      SumZero(v[1..]);
    }
  }

  /** Summing is linear in the entrywise sum of two vectors. */
  lemma {:induction false} SumAdd(u: Vector, v: Vector)
    requires |u| == |v|
    ensures Sum(Add(u, v)) == Sum(u) + Sum(v)
  {
    if |u| > 0 {
      SumAdd(u[1..], v[1..]);
      assert Add(u, v)[1..] == Add(u[1..], v[1..]);
    }
  }

  /** The only maximum of a one-hot vector is its hot index. */
  lemma ArgMaxOneHot(v: Vector, k: nat)
    requires OneHot(v, k)
    ensures ArgMax(v) == k
  {
    var j := ArgMax(v);
    assert v[j] >= v[k];
  }

  /** Writing `x` over a zero entry adds one +1 entry exactly when `x` is 1,
      and one nonzero entry exactly when `x` is nonzero. */
  lemma {:induction false} CountsAfterUpdate(v: Vector, i: nat, x: real)
    requires i < |v| && v[i] == 0.0
    ensures CountOnes(v[i := x]) == CountOnes(v) + (if x == 1.0 then 1 else 0)
    ensures CountNonzero(v[i := x]) == CountNonzero(v) + (if x != 0.0 then 1 else 0)
  {
    if i > 0 {
      CountsAfterUpdate(v[1..], i - 1, x);
      assert v[i := x][1..] == v[1..][i - 1 := x];
    } else {
      assert v[i := x][1..] == v[1..];
    }
  }

  lemma {:induction false} CountsOfZero(v: Vector)
    requires forall i :: 0 <= i < |v| ==> v[i] == 0.0
    ensures CountOnes(v) == 0 && CountNonzero(v) == 0
  {
    if |v| > 0 {
      CountsOfZero(v[1..]);
    }
  }
}
