/** laguide.py's BackSubstitution and SolveSystem: solving A X = B for a square A
    and a single right-hand column B. */
module Solver {
  import opened Results
  import opened Shapes
  import opened RealMatrix
  import opened Reduction
  import opened NullSpace

  /** Every x satisfies A x == B, row by row (B is a column, one entry per row). */
  predicate Solves(A: seq<seq<real>>, x: seq<real>, B: seq<seq<real>>)
    requires |B| == |A| && forall i :: 0 <= i < |B| ==> |B[i]| >= 1
  {
    forall i :: 0 <= i < |A| ==> |A[i]| == |x| && Dot(A[i], x) == B[i][0]
  }

  /** The equations back substitution works with: row i of U, from the diagonal on,
      times x gives Y[i][0]. Entries left of the diagonal are never read. */
  predicate TriangularSolves(U: seq<seq<real>>, x: seq<real>, Y: seq<seq<real>>)
    requires IsSquare(U) && IsMatrix(Y, |U|, 1) && |x| == |U|
  {
    forall i :: 0 <= i < |U| ==> DotRange(U[i], x, i, |U|) == Y[i][0]
  }

  /** Zeros below the diagonal. */
  predicate IsUpperTriangular(U: seq<seq<real>>)
    requires IsSquare(U)
  {
    forall i, c :: 0 <= c < i < |U| ==> U[i][c] == 0.0
  }

  /** Every diagonal entry is nonzero. */
  predicate NonzeroDiagonal(U: seq<seq<real>>)
    requires IsSquare(U)
  {
    forall i :: 0 <= i < |U| ==> U[i][i] != 0.0
  }

  /** For an upper triangular U the back-substitution equations are exactly U x == Y. */
  lemma UpperTriangularSolves(U: seq<seq<real>>, x: seq<real>, Y: seq<seq<real>>)
    requires IsSquare(U) && IsMatrix(Y, |U|, 1) && |x| == |U| && IsUpperTriangular(U)
    ensures TriangularSolves(U, x, Y) <==> Solves(U, x, Y)
  {
    forall i | 0 <= i < |U|
      ensures Dot(U[i], x) == DotRange(U[i], x, i, |U|)
    {
      DotRangeSplit(U[i], x, 0, i, |U|);
      DotRangeZero(U[i], x, 0, i);
    }
  }

  /** Each x[i] is (Y[i][0] - U[i][i+1] x[i+1] - ... - U[i][m-1] x[m-1]) / U[i][i],
      the assignment BackSubstitution performs for row i. */
  predicate BackSubstituted(U: seq<seq<real>>, x: seq<real>, Y: seq<seq<real>>)
    requires IsSquare(U) && IsMatrix(Y, |U|, 1) && |x| == |U| && NonzeroDiagonal(U)
  {
    forall i :: 0 <= i < |U| ==> x[i] == (Y[i][0] - DotRange(U[i], x, i + 1, |U|)) / U[i][i]
  }

  /** One row of the system: u[i..m) x[i..m) == y exactly when x[i] is what is left
      of y after the later terms, divided by u[i]. */
  lemma RowRecurrence(u: seq<real>, x: seq<real>, y: real, i: nat, m: nat)
    requires i < m <= |u| && m <= |x| && u[i] != 0.0
    ensures DotRange(u, x, i, m) == y <==> x[i] == (y - DotRange(u, x, i + 1, m)) / u[i]
  {
    DotRangeSplit(u, x, i, i + 1, m);
    var head, rest := DotRange(u, x, i, i + 1), DotRange(u, x, i + 1, m);
    assert head == u[i] * x[i];
    assert DotRange(u, x, i, m) == head + rest;
    DivideOut(DotRange(u, x, i, m), u[i], x[i], DotRange(u, x, i + 1, m), y);
  }

  /** With a nonzero diagonal, the back-substitution equations hold exactly when every
      entry is the value the bottom-up assignment gives it. */
  lemma TriangularRecurrence(U: seq<seq<real>>, x: seq<real>, Y: seq<seq<real>>)
    requires IsSquare(U) && IsMatrix(Y, |U|, 1) && |x| == |U| && NonzeroDiagonal(U)
    ensures TriangularSolves(U, x, Y) <==> BackSubstituted(U, x, Y)
  {
    if TriangularSolves(U, x, Y) {
      forall i | 0 <= i < |U|
        ensures x[i] == (Y[i][0] - DotRange(U[i], x, i + 1, |U|)) / U[i][i]
      {
        RowRecurrence(U[i], x, Y[i][0], i, |U|);
      }
    }
    if BackSubstituted(U, x, Y) {
      forall i | 0 <= i < |U|
        ensures DotRange(U[i], x, i, |U|) == Y[i][0]
      {
        RowRecurrence(U[i], x, Y[i][0], i, |U|);
      }
    }
  }

  lemma DivideOut(a: real, d: real, x: real, rest: real, y: real)
    requires d != 0.0 && a == d * x + rest
    ensures a == y <==> x == (y - rest) / d
  {
    if d * x + rest == y {
      assert x == (d * x) / d;
    }
  }

  /** The back-substitution equations have at most one solution when no diagonal
      entry is zero: entries i .. m-1 agree, by induction from the bottom row up. */
  lemma {:induction false} TriangularUniqueFrom(U: seq<seq<real>>, Y: seq<seq<real>>, x: seq<real>, x': seq<real>, i: nat)
    requires IsSquare(U) && IsMatrix(Y, |U|, 1) && |x| == |U| && |x'| == |U| && i <= |U|
    requires NonzeroDiagonal(U) && TriangularSolves(U, x, Y) && TriangularSolves(U, x', Y)
    ensures forall j :: i <= j < |U| ==> x[j] == x'[j]
    decreases |U| - i
  {
    if i < |U| {
      var m := |U|;
      TriangularUniqueFrom(U, Y, x, x', i + 1);
      DotRangeFrame(U[i], x, x', i + 1, m);
      DotRangeSplit(U[i], x, i, i + 1, m);
      DotRangeSplit(U[i], x', i, i + 1, m);
      assert U[i][i] * (x[i] - x'[i]) == 0.0;
    }
  }

  lemma TriangularUnique(U: seq<seq<real>>, Y: seq<seq<real>>, x: seq<real>, x': seq<real>)
    requires IsSquare(U) && IsMatrix(Y, |U|, 1) && |x| == |U| && |x'| == |U|
    requires NonzeroDiagonal(U) && TriangularSolves(U, x, Y) && TriangularSolves(U, x', Y)
    ensures x == x'
  {
    TriangularUniqueFrom(U, Y, x, x', 0);
  }

  /** Changing x[i] keeps every row below i solved: those rows never read x[i]. */
  lemma RowsBelowKept(U: seq<seq<real>>, Y: seq<seq<real>>, x: seq<real>, i: nat, v: real)
    requires IsSquare(U) && IsMatrix(Y, |U|, 1) && |x| == |U| && i < |U|
    requires forall q :: i < q < |U| ==> DotRange(U[q], x, q, |U|) == Y[q][0]
    ensures forall q :: i < q < |U| ==> DotRange(U[q], x[i := v], q, |U|) == Y[q][0]
  {
    forall q | i < q < |U|
      ensures DotRange(U[q], x[i := v], q, |U|) == Y[q][0]
    {
      DotRangeFrame(U[q], x, x[i := v], q, |U|);
    }
  }

  /** Row u is solved from i on once x[i] is a value v with u[i] v equal to what is
      left of y after the later terms. */
  lemma RowSolvedBy(u: seq<real>, x: seq<real>, x': seq<real>, y: real, acc: real, v: real, i: nat, m: nat)
    requires i < m <= |u| && m <= |x| && |x'| == |x|
    requires forall j :: i < j < m ==> x'[j] == x[j]
    requires x'[i] == v && u[i] * v == acc && acc == y - DotRange(u, x, i + 1, m)
    ensures DotRange(u, x', i, m) == y
  {
    DotRangeFrame(u, x, x', i + 1, m);
    DotRangeSplit(u, x', i, i + 1, m);
    DotRangeSingle(u, x', i);
    assert DotRange(u, x', i, i + 1) == acc;
  }

  lemma MulDiv(a: real, d: real)
    requires d != 0.0
    ensures d * (a / d) == a
  {
  }

  /** BackSubstitution (laguide.py lines 122-130): x[i] is computed from the bottom row up as
      (Y[i][0] - U[i][i+1] x[i+1] - ... - U[i][m-1] x[m-1]) / U[i][i]. The result is
      the m x 1 matrix of the x[i]. A zero diagonal entry is reported at the first
      row, counted from the bottom, where the division would happen. */
  method BackSubstitution(U: seq<seq<real>>, Y: seq<seq<real>>) returns (r: Result<seq<seq<real>>, LinAlgError>)
    requires IsSquare(U) && IsMatrix(Y, |U|, 1)
    ensures r.Failure? <==> !NonzeroDiagonal(U)
    ensures r.Failure? ==> r.error.SingularPivot? && r.error.at < |U|
    ensures r.Failure? ==> U[r.error.at][r.error.at] == 0.0
    ensures r.Failure? ==> forall i :: r.error.at < i < |U| ==> U[i][i] != 0.0
    ensures r.Success? ==> IsMatrix(r.value, |U|, 1) && TriangularSolves(U, Col0(r.value), Y)
    ensures r.Success? ==> BackSubstituted(U, Col0(r.value), Y)
    ensures r.Success? && |U| > 0 ==> r.value[|U| - 1][0] == Y[|U| - 1][0] / U[|U| - 1][|U| - 1]
    ensures r.Success? && IsUpperTriangular(U) ==> Solves(U, Col0(r.value), Y)
  {
    var m := |U|;
    var x := seq(m, _ => 0.0);
    var i := m;
    while i > 0
      invariant 0 <= i <= m && |x| == m
      invariant forall q :: i <= q < m ==> U[q][q] != 0.0
      invariant forall q :: i <= q < m ==> DotRange(U[q], x, q, m) == Y[q][0]
    {
      i := i - 1;
      var acc := Y[i][0];
      var j := i + 1;
      while j < m
        invariant i + 1 <= j <= m
        invariant acc == Y[i][0] - DotRange(U[i], x, i + 1, j)
      {
        acc := acc - U[i][j] * x[j];
        j := j + 1;
      }
      if U[i][i] == 0.0 {
        return Failure(SingularPivot(i));
      }
      var v := acc / U[i][i];
      MulDiv(acc, U[i][i]);
      RowSolvedBy(U[i], x, x[i := v], Y[i][0], acc, v, i, m);
      RowsBelowKept(U, Y, x, i, v);
      x := x[i := v];
    }
    var X := seq(m, q requires 0 <= q < m => [x[q]]);
    assert Col0(X) == x;
    TriangularRecurrence(U, x, Y);
    if IsUpperTriangular(U) {
      UpperTriangularSolves(U, x, Y);
    }
    return Success(X);
  }

  /** numpy's hstack of A and B: row i of A followed by row i of B. */
  function Augment(A: seq<seq<real>>, B: seq<seq<real>>): (C: seq<seq<real>>)
    requires IsRect(A) && IsRect(B) && |A| == |B|
    ensures |C| == |A| && IsRect(C) && Cols(C) == Cols(A) + Cols(B)
    ensures forall i :: 0 <= i < |A| ==> C[i] == A[i] + B[i]
  {
    seq(|A|, i requires 0 <= i < |A| => A[i] + B[i])
  }

  /** R[:, 0:n], the reduced coefficient block. */
  function LeftBlock(R: seq<seq<real>>, n: nat): (L: seq<seq<real>>)
    requires forall i :: 0 <= i < |R| ==> |R[i]| >= n
    ensures IsMatrix(L, |R|, n)
    ensures forall i, j :: 0 <= i < |R| && 0 <= j < n ==> L[i][j] == R[i][j]
  {
    seq(|R|, i requires 0 <= i < |R| => R[i][..n])
  }

  /** R[:, n:n+1], the reduced right-hand column. */
  function RightColumn(R: seq<seq<real>>, n: nat): (Y: seq<seq<real>>)
    requires forall i :: 0 <= i < |R| ==> |R[i]| > n
    ensures IsMatrix(Y, |R|, 1)
    ensures forall i :: 0 <= i < |R| ==> Y[i][0] == R[i][n]
  {
    seq(|R|, i requires 0 <= i < |R| => [R[i][n]])
  }

  /** A row a with right-hand side y, applied to x extended by -1, gives a x - y. */
  lemma RowWithRhs(a: seq<real>, y: real, x: seq<real>)
    requires |a| == |x|
    ensures Dot(a + [y], x + [-1.0]) == Dot(a, x) - y
  {
    DotAppend(a, x, y, -1.0);
  }

  /** x solves A x == B exactly when x extended by -1 lies in the kernel of [A | B]. */
  lemma AugmentedKernel(A: seq<seq<real>>, B: seq<seq<real>>, x: seq<real>)
    requires IsSquare(A) && IsMatrix(B, |A|, 1) && |x| == |A|
    ensures InKernel(Augment(A, B), x + [-1.0]) <==> Solves(A, x, B)
  {
    var C := Augment(A, B);
    forall i | 0 <= i < |A|
      ensures |C[i]| == |x| + 1 && Dot(C[i], x + [-1.0]) == Dot(A[i], x) - B[i][0]
    {
      assert B[i] == [B[i][0]];
      RowWithRhs(A[i], B[i][0], x);
    }
  }

  /** For a matrix R with n+1 columns and zeros below the diagonal in its first n
      columns, x extended by -1 lies in the kernel of R exactly when x satisfies the
      back-substitution equations of the reduced system. */
  lemma ReducedKernel(R: seq<seq<real>>, n: nat, x: seq<real>)
    requires IsMatrix(R, n, n + 1) && ZerosBelow(R, n) && |x| == n
    ensures IsSquare(LeftBlock(R, n))
    ensures InKernel(R, x + [-1.0]) <==> TriangularSolves(LeftBlock(R, n), x, RightColumn(R, n))
  {
    var L := LeftBlock(R, n);
    var Y := RightColumn(R, n);
    forall i | 0 <= i < n
      ensures |R[i]| == |x| + 1
      ensures Dot(R[i], x + [-1.0]) == DotRange(L[i], x, i, n) - Y[i][0]
    {
      assert R[i] == L[i] + [Y[i][0]];
      RowWithRhs(L[i], Y[i][0], x);
      DotRangeSplit(L[i], x, 0, i, n);
      DotRangeZero(L[i], x, 0, i);
    }
  }

  /** Row reduction of [A | B] keeps the solutions: x solves A x == B exactly when
      it satisfies the back-substitution equations of the reduced system. */
  lemma ReducedSystem(A: seq<seq<real>>, B: seq<seq<real>>, R: seq<seq<real>>, x: seq<real>)
    requires IsSquare(A) && |A| > 0 && IsMatrix(B, |A|, 1) && |x| == |A|
    requires IsMatrix(R, |A|, |A| + 1) && ZerosBelow(R, |A|)
    requires SameKernel(Augment(A, B), R, |A| + 1)
    ensures IsSquare(LeftBlock(R, |A|))
    ensures Solves(A, x, B) <==> TriangularSolves(LeftBlock(R, |A|), x, RightColumn(R, |A|))
  {
    var v := x + [-1.0];
    assert |v| == |A| + 1;
    AugmentedKernel(A, B, x);
    ReducedKernel(R, |A|, x);
    assert InKernel(Augment(A, B), v) <==> InKernel(R, v);
  }

  /** The solution of the reduced system is the one and only solution of A x == B
      when the reduced coefficient block has no zero on its diagonal. */
  lemma ReducedSolution(A: seq<seq<real>>, B: seq<seq<real>>, R: seq<seq<real>>, xs: seq<real>)
    requires IsSquare(A) && |A| > 0 && IsMatrix(B, |A|, 1) && |xs| == |A|
    requires IsMatrix(R, |A|, |A| + 1) && ZerosBelow(R, |A|)
    requires SameKernel(Augment(A, B), R, |A| + 1)
    requires NonzeroDiagonal(LeftBlock(R, |A|))
    requires TriangularSolves(LeftBlock(R, |A|), xs, RightColumn(R, |A|))
    ensures Solves(A, xs, B)
    ensures forall x :: |x| == |A| && Solves(A, x, B) ==> x == xs
  {
    var n := |A|;
    var L := LeftBlock(R, n);
    var Y := RightColumn(R, n);
    ReducedSystem(A, B, R, xs);
    forall x | |x| == n && Solves(A, x, B)
      ensures x == xs
    {
      ReducedSystem(A, B, R, x);
      TriangularUnique(L, Y, x, xs);
    }
  }

  /** w extended by 0 lies in the kernel of [A | B] exactly when A w == 0. */
  lemma AugmentedHomogeneous(A: seq<seq<real>>, B: seq<seq<real>>, w: seq<real>)
    requires IsSquare(A) && IsMatrix(B, |A|, 1) && |w| == |A|
    ensures InKernel(Augment(A, B), w + [0.0]) <==> InKernel(A, w)
  {
    var C := Augment(A, B);
    forall i | 0 <= i < |A|
      ensures |C[i]| == |w| + 1 && Dot(C[i], w + [0.0]) == Dot(A[i], w)
    {
      assert B[i] == [B[i][0]];
      DotAppend(A[i], w, B[i][0], 0.0);
    }
  }

  /** A system with exactly one solution has a nonsingular matrix: adding a null vector
      w to the solution gives another solution, so w is zero. */
  lemma UniqueSolutionNonsingular(A: seq<seq<real>>, B: seq<seq<real>>, xs: seq<real>)
    requires IsSquare(A) && IsMatrix(B, |A|, 1) && |xs| == |A| && Solves(A, xs, B)
    requires forall x :: |x| == |A| && Solves(A, x, B) ==> x == xs
    ensures TrivialKernel(A, |A|)
  {
    var n := |A|;
    forall w | |w| == n && InKernel(A, w)
      ensures forall j :: 0 <= j < n ==> w[j] == 0.0
    {
      var z := seq(n, j requires 0 <= j < n => xs[j] + w[j]);
      forall i | 0 <= i < n
        ensures Dot(A[i], z) == B[i][0]
      {
        DotRangeAdd(A[i], xs, w, z, 0, n);
      }
      assert Solves(A, z, B);
      assert forall j :: 0 <= j < n ==> z[j] == xs[j] + w[j];
    }
  }

  /** A zero left on the diagonal by the reduction of [A | B] makes A singular: the null
      vector of the reduced coefficient block is a null vector of A. */
  lemma ZeroPivotSingular(A: seq<seq<real>>, B: seq<seq<real>>, R: seq<seq<real>>)
    requires IsSquare(A) && IsMatrix(B, |A|, 1)
    requires IsMatrix(R, |A|, |A| + 1) && Triangular(R, |A|) && !Echelon(R, |A|)
    requires SameKernel(Augment(A, B), R, |A| + 1)
    ensures !TrivialKernel(A, |A|)
  {
    var n := |A|;
    var v, c := ZeroPivotKernel(R, n);
    assert |v + [0.0]| == n + 1;
    AugmentedHomogeneous(A, B, v);
    assert InKernel(A, v) && v[c] != 0.0;
  }

  /** With zeros below the diagonal and 0 or 1 on it, the coefficient block has no zero
      on its diagonal exactly when every diagonal entry is 1. */
  lemma UnitDiagonal(R: seq<seq<real>>, n: nat)
    requires IsMatrix(R, n, n + 1) && Triangular(R, n)
    ensures IsSquare(LeftBlock(R, n))
    ensures NonzeroDiagonal(LeftBlock(R, n)) <==> Echelon(R, n)
  {
    var L := LeftBlock(R, n);
    assert forall i :: 0 <= i < n ==> L[i][i] == R[i][i];
  }

  /** SolveSystem (laguide.py lines 197-215): a non-square A is refused; otherwise [A | B] is
      row-reduced, the result is split into its coefficient block and right-hand
      column, and back substitution on them gives the solution. The reduction is the
      one with the corrected pivot search, so a singular A reaches back substitution,
      which reports the zero pivot. */
  method SolveSystem(A: seq<seq<real>>, B: seq<seq<real>>) returns (r: Result<seq<seq<real>>, LinAlgError>)
    requires IsRect(A) && (|A| == Cols(A) ==> IsMatrix(B, |A|, 1))
    ensures r == Failure(ShapeMismatch) <==> |A| != Cols(A)
    ensures |A| == Cols(A) ==> (r.Success? <==> RowReduction(Augment(A, B)).Success?)
    ensures r.Failure? && |A| == Cols(A) ==> r.error.SingularPivot? && r.error.at < |A|
    ensures r.Success? ==> IsSquare(A) && IsMatrix(r.value, |A|, 1) && Solves(A, Col0(r.value), B)
    ensures r.Success? ==> forall x :: |x| == |A| && Solves(A, x, B) ==> x == Col0(r.value)
    ensures |A| == Cols(A) ==> (r.Success? <==> TrivialKernel(A, |A|))
  {
    if |A| != Cols(A) {
      return Failure(ShapeMismatch);
    }
    var n := |A|;
    var C := Augment(A, B);
    if n == 0 {
      return Success([]);
    }
    assert Cols(C) == n + 1 && Min(|C|, Cols(C)) == n;
    var R := GuardedRowReduction(C);
    var U := LeftBlock(R, n);
    var Y := RightColumn(R, n);
    UnitDiagonal(R, n);
    r := BackSubstitution(U, Y);
    if r.Success? {
      ReducedSolution(A, B, R, Col0(r.value));
      UniqueSolutionNonsingular(A, B, Col0(r.value));
    } else {
      ZeroPivotSingular(A, B, R);
    }
  }
}
