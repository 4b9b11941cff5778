/** Integer vectors and matrices: the arithmetic of numpy's `A @ P` on integer arrays,
    and its behaviour modulo a positive modulus. */
module IntMatrix {
  import opened Shapes
  import Modular

  /** Sum of the pairwise products. */
  function Dot(u: seq<int>, v: seq<int>): int
    requires |u| == |v|
  {
    if |u| == 0 then 0 else u[0] * v[0] + Dot(u[1..], v[1..])
  }

  /** The matrix product of an m x k and a k x n matrix: entry (i, j) is row i of A
      against column j of B. */
  function MatMul(A: seq<seq<int>>, B: seq<seq<int>>, m: nat, k: nat, n: nat): (C: seq<seq<int>>)
    requires IsMatrix(A, m, k) && IsMatrix(B, k, n)
    ensures IsMatrix(C, m, n)
    ensures forall i, j :: 0 <= i < m && 0 <= j < n ==> C[i][j] == Dot(A[i], Column(B, j))
  {
    seq(m, i requires 0 <= i < m => seq(n, j requires 0 <= j < n => Dot(A[i], Column(B, j))))
  }

  /** Every entry reduced modulo N (numpy's `% N` on an array). */
  function ModMatrix(A: seq<seq<int>>, m: nat, n: nat, N: nat): (R: seq<seq<int>>)
    requires IsMatrix(A, m, n) && N > 0
    ensures IsMatrix(R, m, n)
    ensures forall i, j :: 0 <= i < m && 0 <= j < n ==> R[i][j] == A[i][j] % N
  {
    seq(m, i requires 0 <= i < m => seq(n, j requires 0 <= j < n => A[i][j] % N))
  }

  /** The product of a matrix with a column vector. */
  function MatVec(A: seq<seq<int>>, v: seq<int>): (w: seq<int>)
    requires forall i :: 0 <= i < |A| ==> |A[i]| == |v|
    ensures |w| == |A|
    ensures forall i :: 0 <= i < |A| ==> w[i] == Dot(A[i], v)
  {
    seq(|A|, i requires 0 <= i < |A| => Dot(A[i], v))
  }

  /** K * A is the identity modulo N. */
  predicate IsInverseMod(K: seq<seq<int>>, A: seq<seq<int>>, n: nat, N: nat)
    requires N > 0
  {
    && IsMatrix(K, n, n) && IsMatrix(A, n, n)
    && forall i, j :: 0 <= i < n && 0 <= j < n ==>
         MatMul(K, A, n, n, n)[i][j] % N == (if i == j then 1 else 0)
  }

  /** Dot products of componentwise congruent vectors are congruent. */
  lemma {:induction false} DotCongruent(u: seq<int>, u': seq<int>, v: seq<int>, v': seq<int>, N: int)
    requires N > 0 && |u| == |u'| == |v| == |v'|
    requires forall l :: 0 <= l < |u| ==> u[l] % N == u'[l] % N
    requires forall l :: 0 <= l < |v| ==> v[l] % N == v'[l] % N
    ensures Dot(u, v) % N == Dot(u', v') % N
    decreases |u|
  {
    if |u| > 0 {
      DotCongruent(u[1..], u'[1..], v[1..], v'[1..], N);
      Modular.MulCongruent(u[0], u'[0], v[0], v'[0], N);
      Modular.AddCongruent(u[0] * v[0], u'[0] * v'[0], Dot(u[1..], v[1..]), Dot(u'[1..], v'[1..]), N);
    }
  }

  /** Dot product is linear in its first argument. */
  lemma {:induction false} DotLinear(x: seq<int>, y: seq<int>, z: seq<int>, c: int, p: seq<int>)
    requires |x| == |y| == |z| == |p|
    requires forall l :: 0 <= l < |z| ==> z[l] == c * x[l] + y[l]
    ensures Dot(z, p) == c * Dot(x, p) + Dot(y, p)
    decreases |z|
  {
    if |z| > 0 {
      DotLinear(x[1..], y[1..], z[1..], c, p[1..]);
      assert z[0] * p[0] == c * (x[0] * p[0]) + y[0] * p[0];
    }
  }

  lemma {:induction false} DotZero(z: seq<int>, p: seq<int>)
    requires |z| == |p|
    requires forall l :: 0 <= l < |z| ==> z[l] == 0
    ensures Dot(z, p) == 0
    decreases |z|
  {
    if |z| > 0 {
      DotZero(z[1..], p[1..]);
    }
  }

  /** Against the i-th unit vector the dot product picks entry i. */
  lemma {:induction false} DotUnit(e: seq<int>, p: seq<int>, i: nat)
    requires |e| == |p| && i < |p|
    requires forall l :: 0 <= l < |e| ==> e[l] == (if l == i then 1 else 0)
    ensures Dot(e, p) == p[i]
    decreases |e|
  {
    if i == 0 {
      DotZero(e[1..], p[1..]);
    } else {
      DotUnit(e[1..], p[1..], i - 1);
    }
  }

  /** Row vector u times (A times p) equals (u times A) times p. */
  lemma {:induction false} DotMatVecAssoc(u: seq<int>, A: seq<seq<int>>, p: seq<int>, w: seq<int>)
    requires IsMatrix(A, |u|, |p|)
    requires |w| == |p| && forall l :: 0 <= l < |p| ==> w[l] == Dot(u, Column(A, l))
    ensures Dot(u, MatVec(A, p)) == Dot(w, p)
    decreases |u|
  {
    if |u| == 0 {
      DotZero(w, p);
    } else {
      var w' := seq(|p|, l requires 0 <= l < |p| => Dot(u[1..], Column(A[1..], l)));
      DotMatVecAssoc(u[1..], A[1..], p, w');
      assert MatVec(A, p)[1..] == MatVec(A[1..], p);
      forall l | 0 <= l < |p|
        ensures w[l] == u[0] * A[0][l] + w'[l]
      {
        assert Column(A, l)[1..] == Column(A[1..], l);
      }
      DotLinear(A[0], w', w, u[0], p);
    }
  }

  /** Row i of the round trip: K times ((A times p) mod N), reduced modulo N, is p[i]. */
  lemma RowRoundTrip(K: seq<seq<int>>, A: seq<seq<int>>, n: nat, N: nat, p: seq<int>, i: nat)
    requires N > 0 && IsInverseMod(K, A, n, N) && i < n
    requires |p| == n && forall l :: 0 <= l < n ==> 0 <= p[l] < N
    ensures Dot(K[i], MatVecMod(A, p, N)) % N == p[i]
  {
    var y := MatVec(A, p);
    var yr := MatVecMod(A, p, N);
    var P := MatMul(K, A, n, n, n);
    forall l | 0 <= l < n
      ensures yr[l] % N == y[l] % N
    {
      Modular.ModMod(y[l], N);
    }
    DotCongruent(K[i], K[i], yr, y, N);
    assert |P[i]| == n;
    DotMatVecAssoc(K[i], A, p, P[i]);
    var e := seq(n, l requires 0 <= l < n => if l == i then 1 else 0);
    assert P[i][i] % N == 1;
    forall l | 0 <= l < n
      ensures P[i][l] % N == e[l] % N
    {
      Modular.ModSmall(e[l], N);
    }
    DotCongruent(P[i], e, p, p, N);
    DotUnit(e, p, i);
    Modular.ModSmall(p[i], N);
  }

  /** Multiplying by A and then by an inverse K of A modulo N, reducing modulo N after
      each product, gives back any vector whose entries lie in [0, N). */
  lemma MatVecModInverse(K: seq<seq<int>>, A: seq<seq<int>>, n: nat, N: nat, p: seq<int>)
    requires N > 0 && IsInverseMod(K, A, n, N)
    requires |p| == n && forall l :: 0 <= l < n ==> 0 <= p[l] < N
    ensures MatVecMod(K, MatVecMod(A, p, N), N) == p
  {
    var r := MatVecMod(K, MatVecMod(A, p, N), N);
    forall i | 0 <= i < n
      ensures r[i] == p[i]
    {
      RowRoundTrip(K, A, n, N, p, i);
    }
  }

  /** A times p with every entry reduced modulo N. */
  function MatVecMod(A: seq<seq<int>>, p: seq<int>, N: nat): (w: seq<int>)
    requires N > 0
    requires forall i :: 0 <= i < |A| ==> |A[i]| == |p|
    ensures |w| == |A|
    ensures forall i :: 0 <= i < |A| ==> 0 <= w[i] < N
    ensures forall i :: 0 <= i < |A| ==> w[i] == Dot(A[i], p) % N
  {
    seq(|A|, i requires 0 <= i < |A| => Dot(A[i], p) % N)
  }
}
