/** Null vectors of a reduced matrix: when the corrected row reduction leaves a zero
    on the diagonal, the homogeneous system has a solution other than zero. */
module NullSpace {
  import opened Shapes
  import opened RealMatrix
  import opened Reduction

  /** Only the zero vector of length n solves A v == 0: A is nonsingular. */
  ghost predicate TrivialKernel(A: seq<seq<real>>, n: nat) {
    forall w :: |w| == n && InKernel(A, w) ==> forall j :: 0 <= j < n ==> w[j] == 0.0
  }

  /** The first column, from i on, whose diagonal entry is zero. */
  function FirstZeroPivot(R: seq<seq<real>>, n: nat, i: nat): (c: nat)
    requires IsMatrix(R, n, n + 1) && i <= n
    requires exists c :: i <= c < n && R[c][c] == 0.0
    ensures i <= c < n && R[c][c] == 0.0
    ensures forall q :: i <= q < c ==> R[q][q] != 0.0
    decreases n - i
  {
    if R[i][i] == 0.0 then i else FirstZeroPivot(R, n, i + 1)
  }

  /** A null vector built from the bottom up: entry c is 1, the entries after c are 0,
      and each entry q from i up to c - 1 is chosen so that row q of R, whose pivot is
      1, sums to zero over columns q .. n-1. */
  function BackFill(R: seq<seq<real>>, n: nat, c: nat, i: nat): (w: seq<real>)
    requires IsMatrix(R, n, n + 1) && i <= c < n
    requires forall q :: 0 <= q < c ==> R[q][q] == 1.0
    ensures |w| == n && w[c] == 1.0 && forall j :: c < j < n ==> w[j] == 0.0
    ensures forall q :: i <= q < c ==> DotRange(R[q], w, q, n) == 0.0
    decreases c - i
  {
    if i == c then seq(n, j requires 0 <= j < n => if j == c then 1.0 else 0.0)
    else
      var T := BackFill(R, n, c, i + 1);
      var w := T[i := -DotRange(R[i], T, i + 1, n)];
      assert DotRange(R[i], w, i, n) == 0.0 by {
        DotRangeFrame(R[i], T, w, i + 1, n);
        DotRangeSplit(R[i], w, i, i + 1, n);
        DotRangeSingle(R[i], w, i);
      }
      forall q | i < q < c
        ensures DotRange(R[q], w, q, n) == 0.0
      {
        DotRangeFrame(R[q], T, w, q, n);
      }
      w
  }

  /** Row q of R applied to v extended by a zero: with zeros left of the diagonal, only
      columns q .. n-1 contribute. */
  lemma RowWithZero(R: seq<seq<real>>, n: nat, v: seq<real>, q: nat)
    requires IsMatrix(R, n, n + 1) && ZerosBelow(R, n) && |v| == n && q < n
    ensures |R[q]| == |v + [0.0]|
    ensures Dot(R[q], v + [0.0]) == DotRange(R[q], v, q, n)
  {
    var row := R[q][..n];
    assert R[q] == row + [R[q][n]];
    DotAppend(row, v, R[q][n], 0.0);
    DotRangeFrameLeft(row, R[q], v, 0, n);
    DotRangeSplit(R[q], v, 0, q, n);
    DotRangeZero(R[q], v, 0, q);
  }

  /** A zero on the diagonal of a reduced matrix gives a null vector of its first n
      columns: v extended by a zero is in its kernel, and v is 1 at the first zero
      pivot. */
  lemma ZeroPivotKernel(R: seq<seq<real>>, n: nat) returns (v: seq<real>, c: nat)
    requires IsMatrix(R, n, n + 1) && Triangular(R, n)
    requires exists c :: 0 <= c < n && R[c][c] == 0.0
    ensures |v| == n && c < n && v[c] == 1.0
    ensures InKernel(R, v + [0.0])
  {
    c := FirstZeroPivot(R, n, 0);
    v := BackFill(R, n, c, 0);
    forall q | 0 <= q < n
      ensures |R[q]| == |v + [0.0]| && Dot(R[q], v + [0.0]) == 0.0
    {
      RowWithZero(R, n, v, q);
      if q == c {
        DotRangeSplit(R[q], v, q, q + 1, n);
        DotRangeSingle(R[q], v, q);
        DotRangeZeroRight(R[q], v, q + 1, n);
      } else if c < q {
        DotRangeZeroRight(R[q], v, q, n);
      }
    }
  }
}
