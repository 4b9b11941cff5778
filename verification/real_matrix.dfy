/** Real vectors and matrices with exact arithmetic, standing in for laguide.py's
    float64 numpy arrays. */
module RealMatrix {
  import opened Shapes

  /** The sum of a[j] * b[j] for lo <= j < hi. */
  function DotRange(a: seq<real>, b: seq<real>, lo: nat, hi: nat): real
    requires lo <= hi <= |a| && hi <= |b|
    decreases hi - lo
  {
    if lo == hi then 0.0 else DotRange(a, b, lo, hi - 1) + a[hi - 1] * b[hi - 1]
  }

  /** A range of one index is a single product. */
  lemma DotRangeSingle(a: seq<real>, b: seq<real>, i: nat)
    requires i < |a| && i < |b|
    ensures DotRange(a, b, i, i + 1) == a[i] * b[i]
  {
  }

  /** Row a times column b. */
  function Dot(a: seq<real>, b: seq<real>): real
    requires |a| == |b|
  {
    DotRange(a, b, 0, |a|)
  }

  /** Column 0 of an m x 1 matrix, as a vector. */
  function Col0(X: seq<seq<real>>): (x: seq<real>)
    requires forall i :: 0 <= i < |X| ==> |X[i]| >= 1
    ensures |x| == |X| && forall i :: 0 <= i < |X| ==> x[i] == X[i][0]
  {
    seq(|X|, i requires 0 <= i < |X| => X[i][0])
  }

  /** A v == 0. */
  predicate InKernel(A: seq<seq<real>>, v: seq<real>) {
    forall i :: 0 <= i < |A| ==> |A[i]| == |v| && Dot(A[i], v) == 0.0
  }

  /** A and B have the same null space among vectors of length n: the homogeneous
      systems they describe have the same solutions. */
  ghost predicate SameKernel(A: seq<seq<real>>, B: seq<seq<real>>, n: nat) {
    forall v :: |v| == n ==> (InKernel(A, v) <==> InKernel(B, v))
  }

  lemma SameKernelTrans(A: seq<seq<real>>, B: seq<seq<real>>, C: seq<seq<real>>, n: nat)
    requires SameKernel(A, B, n) && SameKernel(B, C, n)
    ensures SameKernel(A, C, n)
  {
  }

  /** Entries of b outside [lo, hi) do not matter. */
  lemma {:induction false} DotRangeFrame(a: seq<real>, b: seq<real>, b': seq<real>, lo: nat, hi: nat)
    requires lo <= hi <= |a| && hi <= |b| && hi <= |b'|
    requires forall j :: lo <= j < hi ==> b[j] == b'[j]
    ensures DotRange(a, b, lo, hi) == DotRange(a, b', lo, hi)
    decreases hi - lo
  {
    if lo < hi {
      DotRangeFrame(a, b, b', lo, hi - 1);
    }
  }

  /** Entries of a outside [lo, hi) do not matter. */
  lemma {:induction false} DotRangeFrameLeft(a: seq<real>, a': seq<real>, b: seq<real>, lo: nat, hi: nat)
    requires lo <= hi <= |a| && hi <= |a'| && hi <= |b|
    requires forall j :: lo <= j < hi ==> a[j] == a'[j]
    ensures DotRange(a, b, lo, hi) == DotRange(a', b, lo, hi)
    decreases hi - lo
  {
    if lo < hi {
      DotRangeFrameLeft(a, a', b, lo, hi - 1);
    }
  }

  /** A sum over [lo, hi) splits at any mid point. */
  lemma {:induction false} DotRangeSplit(a: seq<real>, b: seq<real>, lo: nat, mid: nat, hi: nat)
    requires lo <= mid <= hi <= |a| && hi <= |b|
    ensures DotRange(a, b, lo, hi) == DotRange(a, b, lo, mid) + DotRange(a, b, mid, hi)
    decreases hi - mid
  {
    if mid < hi {
      DotRangeSplit(a, b, lo, mid, hi - 1);
    }
  }

  /** Terms with a zero coefficient contribute nothing. */
  lemma {:induction false} DotRangeZero(a: seq<real>, b: seq<real>, lo: nat, hi: nat)
    requires lo <= hi <= |a| && hi <= |b|
    requires forall j :: lo <= j < hi ==> a[j] == 0.0
    ensures DotRange(a, b, lo, hi) == 0.0
    decreases hi - lo
  {
    if lo < hi {
      DotRangeZero(a, b, lo, hi - 1);
    }
  }

  /** The sum is linear in its first argument. */
  lemma {:induction false} DotRangeLinear(x: seq<real>, y: seq<real>, z: seq<real>, c: real, b: seq<real>, lo: nat, hi: nat)
    requires lo <= hi <= |x| && hi <= |y| && hi <= |z| && hi <= |b|
    requires forall j :: lo <= j < hi ==> z[j] == c * x[j] + y[j]
    ensures DotRange(z, b, lo, hi) == c * DotRange(x, b, lo, hi) + DotRange(y, b, lo, hi)
    decreases hi - lo
  {
    if lo < hi {
      DotRangeLinear(x, y, z, c, b, lo, hi - 1);
    }
  }

  /** The sum is additive in its second argument. */
  lemma {:induction false} DotRangeAdd(a: seq<real>, x: seq<real>, w: seq<real>, z: seq<real>, lo: nat, hi: nat)
    requires lo <= hi <= |a| && hi <= |x| && hi <= |w| && hi <= |z|
    requires forall j :: lo <= j < hi ==> z[j] == x[j] + w[j]
    ensures DotRange(a, z, lo, hi) == DotRange(a, x, lo, hi) + DotRange(a, w, lo, hi)
    decreases hi - lo
  {
    if lo < hi {
      DotRangeAdd(a, x, w, z, lo, hi - 1);
    }
  }

  /** The sum vanishes where the second argument does. */
  lemma {:induction false} DotRangeZeroRight(a: seq<real>, b: seq<real>, lo: nat, hi: nat)
    requires lo <= hi <= |a| && hi <= |b|
    requires forall j :: lo <= j < hi ==> b[j] == 0.0
    ensures DotRange(a, b, lo, hi) == 0.0
    decreases hi - lo
  {
    if lo < hi {
      DotRangeZeroRight(a, b, lo, hi - 1);
    }
  }

  /** An appended entry contributes its product. */
  lemma DotAppend(a: seq<real>, b: seq<real>, p: real, q: real)
    requires |a| == |b|
    ensures Dot(a + [p], b + [q]) == Dot(a, b) + p * q
  {
    DotRangeFrameLeft(a + [p], a, b + [q], 0, |a|);
    DotRangeFrame(a, b + [q], b, 0, |a|);
  }
}
