/** laguide.py's RowReduction: forward elimination with a downward pivot search. */
module Reduction {
  import opened Results
  import opened Shapes
  import opened RealMatrix
  import opened RowOps

  function Min(a: nat, b: nat): nat {
    if a < b then a else b
  }

  /** Columns 0 .. k-1 are zero below the diagonal. */
  predicate ZerosBelow(B: seq<seq<real>>, k: nat) {
    && IsRect(B) && k <= |B| && k <= Cols(B)
    && (forall c, i :: 0 <= c < k && c < i < |B| ==> B[i][c] == 0.0)
  }

  /** Columns 0 .. k-1 are reduced: each has a unit pivot on the diagonal and zeros
      below it. */
  predicate Echelon(B: seq<seq<real>>, k: nat) {
    ZerosBelow(B, k) && forall c :: 0 <= c < k ==> B[c][c] == 1.0
  }

  /** The pivot search of laguide.py lines 164-170: the first row at or below p whose entry in
      column k is nonzero; nothing when the search runs off the bottom, where the
      source reads the row past the last one and fails with an IndexError. */
  function PivotRow(B: seq<seq<real>>, k: nat, p: nat): (r: Option<nat>)
    requires IsRect(B) && k < Cols(B) && p <= |B|
    ensures r.Some? ==> p <= r.value < |B| && B[r.value][k] != 0.0
    ensures r.Some? ==> forall i :: p <= i < r.value ==> B[i][k] == 0.0
    ensures r.None? <==> forall i :: p <= i < |B| ==> B[i][k] == 0.0
    decreases |B| - p
  {
    if p == |B| then None
    else if B[p][k] != 0.0 then Some(p)
    else PivotRow(B, k, p + 1)
  }

  /** Row a plus s times row b. */
  function AddRow(a: seq<real>, b: seq<real>, s: real): (c: seq<real>)
    requires |a| == |b|
    ensures |c| == |a| && forall j :: 0 <= j < |a| ==> c[j] == a[j] + b[j] * s
  {
    seq(|a|, j requires 0 <= j < |a| => a[j] + b[j] * s)
  }

  /** The multiple of the pivot row that `RowAdd(B,k,i,-B[i][k])` adds to row i: minus
      the entry of row i in the pivot column. */
  function Multiplier(B: seq<seq<real>>, k: nat, i: nat): real
    requires IsRect(B) && k < Cols(B) && i < |B|
  {
    -B[i][k]
  }

  /** The loop `for i in range(k+1,m): B = RowAdd(B,k,i,-B[i][k])`: for every row r from `i` down, add Multiplier(B, k, r) times row k
      to row r. Rows below the one being cleared still hold their original values, so
      every multiplier can be read off the matrix the loop starts from. */
  function EliminateBelow(B: seq<seq<real>>, k: nat, i: nat): (E: seq<seq<real>>)
    requires IsRect(B) && k < |B| && k < Cols(B) && k < i <= |B|
    ensures IsMatrix(E, |B|, Cols(B)) && IsRect(E) && Cols(E) == Cols(B)
    ensures forall r :: 0 <= r < i ==> E[r] == B[r]
    ensures forall r :: i <= r < |B| ==> E[r] == AddRow(B[r], B[k], Multiplier(B, k, r))
    decreases |B| - i
  {
    if i == |B| then B
    else
      var s := Multiplier(B, k, i);
      var B' := RowAdd(B, k, i, s);
      assert B'[i] == AddRow(B[i], B[k], s) by {
        var c := AddRow(B[i], B[k], s);
        assert forall j :: 0 <= j < |c| ==> B'[i][j] == c[j];
      }
      var E := EliminateBelow(B', k, i + 1);
      assert B'[k] == B[k];
      forall r | i < r < |B|
        ensures E[r] == AddRow(B[r], B[k], Multiplier(B, k, r))
      {
        assert B'[r] == B[r];
      }
      E
  }

  /** Clearing the column below the pivot does not change the solutions of B v == 0. */
  lemma {:induction false} EliminateBelowKernel(B: seq<seq<real>>, k: nat, i: nat)
    requires IsRect(B) && k < |B| && k < Cols(B) && k < i <= |B|
    ensures SameKernel(B, EliminateBelow(B, k, i), Cols(B))
    decreases |B| - i
  {
    if i < |B| {
      var s := Multiplier(B, k, i);
      var B' := RowAdd(B, k, i, s);
      var E := EliminateBelow(B', k, i + 1);
      assert EliminateBelow(B, k, i) == E;
      RowAddKernel(B, k, i, s);
      EliminateBelowKernel(B', k, i + 1);
      SameKernelTrans(B, B', E, Cols(B));
    }
  }

  /** Exchanging row k with a row below it keeps columns 0 .. k-1 zero below the
      diagonal and leaves the rows above k alone. */
  lemma SwapKeepsZeros(B: seq<seq<real>>, k: nat, p: nat)
    requires ZerosBelow(B, k) && k <= p < |B| && k < Cols(B)
    ensures ZerosBelow(RowSwap(B, k, p), k)
    ensures forall c :: 0 <= c < k ==> RowSwap(B, k, p)[c] == B[c]
  {
  }

  /** Scaling row k keeps columns 0 .. k-1 zero below the diagonal; scaling by the
      reciprocal of the pivot makes the pivot 1. */
  lemma ScaleKeepsZeros(B: seq<seq<real>>, k: nat)
    requires ZerosBelow(B, k) && k < |B| && k < Cols(B) && B[k][k] != 0.0
    ensures ZerosBelow(RowScale(B, k, PivotScale(B, k)), k)
    ensures RowScale(B, k, PivotScale(B, k))[k][k] == 1.0
  {
    var C := RowScale(B, k, PivotScale(B, k));
    assert forall c :: 0 <= c < k ==> C[k][c] == 0.0 * PivotScale(B, k);
  }

  /** Clearing column k below a unit pivot makes columns 0 .. k zero below the diagonal. */
  lemma EliminateZeros(B: seq<seq<real>>, k: nat)
    requires ZerosBelow(B, k) && k < |B| && k < Cols(B) && B[k][k] == 1.0
    ensures ZerosBelow(EliminateBelow(B, k, k + 1), k + 1)
  {
    var E := EliminateBelow(B, k, k + 1);
    forall c, i | 0 <= c < k + 1 && c < i < |B|
      ensures E[i][c] == 0.0
    {
      if i <= k {
        assert E[i] == B[i];
      } else {
        assert E[i] == AddRow(B[i], B[k], Multiplier(B, k, i));
        assert E[i][c] == B[i][c] + B[k][c] * Multiplier(B, k, i);
        if c < k {
          assert B[i][c] == 0.0 && B[k][c] == 0.0;
        }
      }
    }
  }

  /** `if (pivot_row != k): B = RowSwap(B,k,pivot_row)`: the pivot row p is swapped into
      row k when it is another row. */
  function MovePivot(B: seq<seq<real>>, k: nat, p: nat): (B1: seq<seq<real>>)
    requires ZerosBelow(B, k) && k <= p < |B| && k < Cols(B) && B[p][k] != 0.0
    ensures IsMatrix(B1, |B|, Cols(B)) && IsRect(B1) && Cols(B1) == Cols(B)
    ensures ZerosBelow(B1, k) && B1[k][k] != 0.0
    ensures forall c :: 0 <= c < k ==> B1[c] == B[c]
    ensures SameKernel(B, B1, Cols(B))
  {
    SwapKeepsZeros(B, k, p);
    RowSwapKernel(B, k, p);
    if p != k then RowSwap(B, k, p) else B
  }

  /** The factor `1./B[k][k]` that turns the pivot into 1. */
  function PivotScale(B: seq<seq<real>>, k: nat): real
    requires IsRect(B) && k < |B| && k < Cols(B) && B[k][k] != 0.0
  {
    1.0 / B[k][k]
  }

  /** `B = RowScale(B,k,1./B[k][k])`: row k divided by its pivot. */
  function Normalize(B: seq<seq<real>>, k: nat): (B2: seq<seq<real>>)
    requires ZerosBelow(B, k) && k < |B| && k < Cols(B) && B[k][k] != 0.0
    ensures IsMatrix(B2, |B|, Cols(B)) && IsRect(B2) && Cols(B2) == Cols(B)
    ensures ZerosBelow(B2, k) && B2[k][k] == 1.0
    ensures forall c :: 0 <= c < k ==> B2[c] == B[c]
    ensures SameKernel(B, B2, Cols(B))
  {
    ScaleKeepsZeros(B, k);
    RowScaleKernel(B, k, PivotScale(B, k));
    RowScale(B, k, PivotScale(B, k))
  }

  /** The elimination loop after the pivot has been scaled to 1: the column below it is cleared,
      the rows down to k are kept and the solutions stay the same. */
  function ClearBelow(B: seq<seq<real>>, k: nat): (E: seq<seq<real>>)
    requires ZerosBelow(B, k) && k < |B| && k < Cols(B) && B[k][k] == 1.0
    ensures IsMatrix(E, |B|, Cols(B)) && ZerosBelow(E, k + 1)
    ensures forall c :: 0 <= c <= k ==> E[c] == B[c]
    ensures SameKernel(B, E, Cols(B))
  {
    EliminateZeros(B, k);
    EliminateBelowKernel(B, k, k + 1);
    EliminateBelow(B, k, k + 1)
  }

  /** The swap, scaling and elimination once a pivot has been found in row p: swap it into row k, scale
      row k to a unit pivot and clear the column below it. The rows above k are never
      touched. */
  function Pivoted(B: seq<seq<real>>, k: nat, p: nat): (E: seq<seq<real>>)
    requires ZerosBelow(B, k) && k <= p < |B| && k < Cols(B) && B[p][k] != 0.0
    ensures IsMatrix(E, |B|, Cols(B)) && ZerosBelow(E, k + 1)
    ensures E[k][k] == 1.0 && forall c :: 0 <= c < k ==> E[c] == B[c]
    ensures SameKernel(B, E, Cols(B))
  {
    var B1 := MovePivot(B, k, p);
    var B2 := Normalize(B1, k);
    var E := ClearBelow(B2, k);
    assert SameKernel(B, E, Cols(B)) by {
      SameKernelTrans(B, B1, B2, Cols(B));
      SameKernelTrans(B, B2, E, Cols(B));
    }
    E
  }

  /** One elimination step in column k (laguide.py lines 163-180): search for a pivot
      and, when there is one, eliminate with it. */
  function Step(B: seq<seq<real>>, k: nat): (r: Result<seq<seq<real>>, LinAlgError>)
    requires ZerosBelow(B, k) && k < |B| && k < Cols(B)
    ensures r.Failure? <==> forall i :: k <= i < |B| ==> B[i][k] == 0.0
    ensures r.Failure? ==> r.error == SingularPivot(k)
    ensures r.Success? ==> IsMatrix(r.value, |B|, Cols(B)) && ZerosBelow(r.value, k + 1)
    ensures r.Success? ==> r.value[k][k] == 1.0 && forall c :: 0 <= c < k ==> r.value[c] == B[c]
    ensures r.Success? ==> SameKernel(B, r.value, Cols(B))
  {
    match PivotRow(B, k, k)
    case None => Failure(SingularPivot(k))
    case Some(p) => Success(Pivoted(B, k, p))
  }

  /** Steps k .. steps-1, stopping at the first column without a pivot. */
  function Reduce(B: seq<seq<real>>, k: nat, steps: nat): (r: Result<seq<seq<real>>, LinAlgError>)
    requires Echelon(B, k) && k <= steps <= Min(|B|, Cols(B))
    ensures r.Success? ==> IsMatrix(r.value, |B|, Cols(B)) && Echelon(r.value, steps)
    ensures r.Success? ==> SameKernel(B, r.value, Cols(B))
    ensures r.Failure? ==> r.error.SingularPivot? && k <= r.error.at < steps
    decreases steps - k
  {
    if k == steps then Success(B)
    else
      match Step(B, k)
      case Failure(e) => Failure(e)
      case Success(B') =>
        assert Echelon(B', k + 1);
        var r := Reduce(B', k + 1, steps);
        if r.Success? then SameKernelTrans(B, B', r.value, Cols(B)); r else r
  }

  /** A failure names the column whose search ran off the bottom: the steps before it
      succeed, and in the matrix they leave that column is zero from the diagonal down. */
  lemma {:induction false} ReduceFailsAt(B: seq<seq<real>>, k: nat, steps: nat)
    requires Echelon(B, k) && k <= steps <= Min(|B|, Cols(B))
    requires Reduce(B, k, steps).Failure?
    ensures var at := Reduce(B, k, steps).error.at;
      && Reduce(B, k, at).Success?
      && forall i :: at <= i < |B| ==> Reduce(B, k, at).value[i][at] == 0.0
    decreases steps - k
  {
    assert k < steps;
    var at := Reduce(B, k, steps).error.at;
    match Step(B, k)
    case Failure(_) =>
      assert at == k && Reduce(B, k, k) == Success(B);
    case Success(B') =>
      assert Echelon(B', k + 1);
      assert Reduce(B, k, steps) == Reduce(B', k + 1, steps);
      ReduceFailsAt(B', k + 1, steps);
      assert Reduce(B, k, at) == Reduce(B', k + 1, at);
  }

  /** RowReduction: a copy of A reduced in min(m, n) elimination steps, or the column
      at which the pivot search ran off the bottom of the matrix (RowReductionFailsAt
      says which one that is). */
  function RowReduction(A: seq<seq<real>>): (r: Result<seq<seq<real>>, LinAlgError>)
    requires IsRect(A)
    ensures r.Success? ==> IsMatrix(r.value, |A|, Cols(A)) && Echelon(r.value, Min(|A|, Cols(A)))
    ensures r.Success? ==> SameKernel(A, r.value, Cols(A))
    ensures r.Failure? ==> r.error.SingularPivot? && r.error.at < Min(|A|, Cols(A))
  {
    Reduce(A, 0, Min(|A|, Cols(A)))
  }

  /** A failed RowReduction names the column whose search ran off the bottom: the
      steps before it succeed, and once they have eliminated the earlier columns, that
      column is zero from the diagonal down. */
  lemma RowReductionFailsAt(A: seq<seq<real>>)
    requires IsRect(A) && RowReduction(A).Failure?
    ensures var k := RowReduction(A).error.at;
      && k < Min(|A|, Cols(A))
      && Reduce(A, 0, k).Success?
      && forall i :: k <= i < |A| ==> Reduce(A, 0, k).value[i][k] == 0.0
  {
    ReduceFailsAt(A, 0, Min(|A|, Cols(A)));
  }

  /** Columns 0 .. k-1 are zero below the diagonal and each diagonal entry is 1 (a
      pivot was found) or 0 (the column had none). */
  predicate Triangular(B: seq<seq<real>>, k: nat) {
    ZerosBelow(B, k) && forall c :: 0 <= c < k ==> B[c][c] == 0.0 || B[c][c] == 1.0
  }

  /** One step with the search bounded by the last row (`pivot_row < m - 1`), so it
      never reads past it. A column with no pivot at or below the diagonal then only
      has row k swapped with the last row (`B = RowSwap(B,k,pivot_row)`), and the test
      `if (pivot != 0)` skips the elimination. */
  function GuardedStep(B: seq<seq<real>>, k: nat): (B': seq<seq<real>>)
    requires ZerosBelow(B, k) && k < |B| && k < Cols(B)
    ensures IsMatrix(B', |B|, Cols(B)) && ZerosBelow(B', k + 1)
    ensures forall c :: 0 <= c < k ==> B'[c] == B[c]
    ensures Step(B, k).Success? ==> B' == Step(B, k).value && B'[k][k] == 1.0
    ensures Step(B, k).Failure? ==> B'[k][k] == 0.0
    ensures SameKernel(B, B', Cols(B))
  {
    match Step(B, k)
    case Success(E) => E
    case Failure(_) =>
      var last := |B| - 1;
      SwapKeepsZeros(B, k, last);
      RowSwapKernel(B, k, last);
      if last != k then RowSwap(B, k, last) else B
  }

  /** Steps k .. steps-1 with the corrected search. Where the search as written
      succeeds, this computes the same matrix; where it fails, the column is left
      with a zero on the diagonal. */
  function GuardedReduce(B: seq<seq<real>>, k: nat, steps: nat): (R: seq<seq<real>>)
    requires Triangular(B, k) && k <= steps <= Min(|B|, Cols(B))
    ensures IsMatrix(R, |B|, Cols(B)) && Triangular(R, steps)
    ensures forall c :: 0 <= c < k ==> R[c] == B[c]
    ensures SameKernel(B, R, Cols(B))
    decreases steps - k
  {
    if k == steps then B
    else
      var B' := GuardedStep(B, k);
      assert Triangular(B', k + 1);
      var R := GuardedReduce(B', k + 1, steps);
      SameKernelTrans(B, B', R, Cols(B));
      R
  }

  /** From a matrix reduced up to column k, the corrected reduction has a unit diagonal
      exactly when the reduction as written succeeds, and then both give the same
      matrix: they take the same steps up to the first column without a pivot. */
  lemma {:induction false} GuardedAgrees(B: seq<seq<real>>, k: nat, steps: nat)
    requires Echelon(B, k) && k <= steps <= Min(|B|, Cols(B))
    ensures Reduce(B, k, steps).Success? <==> Echelon(GuardedReduce(B, k, steps), steps)
    ensures Reduce(B, k, steps).Success? ==> GuardedReduce(B, k, steps) == Reduce(B, k, steps).value
    decreases steps - k
  {
    if k < steps {
      var B' := GuardedStep(B, k);
      var R := GuardedReduce(B', k + 1, steps);
      assert GuardedReduce(B, k, steps) == R;
      if Step(B, k).Success? {
        assert Echelon(B', k + 1);
        assert Reduce(B, k, steps) == Reduce(B', k + 1, steps);
        GuardedAgrees(B', k + 1, steps);
      } else {
        assert Reduce(B, k, steps).Failure?;
        assert R[k] == B'[k];
      }
    }
  }

  /** RowReduction with the corrected pivot search. It always returns a matrix with the
      solutions of A, zeros below the diagonal and 0 or 1 on it; it has a unit diagonal
      exactly when RowReduction as written succeeds, and is then the same matrix. */
  function GuardedRowReduction(A: seq<seq<real>>): (R: seq<seq<real>>)
    requires IsRect(A)
    ensures IsMatrix(R, |A|, Cols(A)) && Triangular(R, Min(|A|, Cols(A)))
    ensures SameKernel(A, R, Cols(A))
    ensures RowReduction(A).Success? <==> Echelon(R, Min(|A|, Cols(A)))
    ensures RowReduction(A).Success? ==> R == RowReduction(A).value
  {
    GuardedAgrees(A, 0, Min(|A|, Cols(A)));
    GuardedReduce(A, 0, Min(|A|, Cols(A)))
  }

  /** The search as written reads past the last row of [[0, 1]], whose first column has
      no pivot, and fails; the corrected search leaves the matrix as it is, already in
      row echelon form. */
  lemma RowReductionRunsOffBottom()
    ensures RowReduction([[0.0, 1.0]]) == Failure(SingularPivot(0))
    ensures GuardedRowReduction([[0.0, 1.0]]) == [[0.0, 1.0]]
  {
    var A := [[0.0, 1.0]];
    assert PivotRow(A, 0, 1) == None;
    assert Step(A, 0) == Failure(SingularPivot(0));
  }
}
