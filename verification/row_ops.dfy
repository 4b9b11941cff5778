/** The elementary row operations of laguide.py. Each returns a new matrix and
    leaves its argument as it was (values are immutable here). Row indices are
    trusted, as in the source; they must lie within the matrix. */
module RowOps {
  import opened Shapes
  import opened RealMatrix

  /** RowSwap: rows k and l exchanged. */
  function RowSwap(A: seq<seq<real>>, k: nat, l: nat): (B: seq<seq<real>>)
    requires IsRect(A) && k < |A| && l < |A|
    ensures IsMatrix(B, |A|, Cols(A)) && IsRect(B) && Cols(B) == Cols(A)
    ensures B[k] == A[l] && B[l] == A[k]
    ensures forall i :: 0 <= i < |A| && i != k && i != l ==> B[i] == A[i]
  {
    var n := Cols(A);
    seq(|A|, i requires 0 <= i < |A| =>
      seq(n, j requires 0 <= j < n => if i == k then A[l][j] else if i == l then A[k][j] else A[i][j]))
  }

  /** RowScale: row k multiplied by scale. */
  function RowScale(A: seq<seq<real>>, k: nat, scale: real): (B: seq<seq<real>>)
    requires IsRect(A) && k < |A|
    ensures IsMatrix(B, |A|, Cols(A)) && IsRect(B) && Cols(B) == Cols(A)
    ensures forall j :: 0 <= j < Cols(A) ==> B[k][j] == A[k][j] * scale
    ensures forall i :: 0 <= i < |A| && i != k ==> B[i] == A[i]
  {
    var n := Cols(A);
    seq(|A|, i requires 0 <= i < |A| =>
      seq(n, j requires 0 <= j < n => if i == k then A[i][j] * scale else A[i][j]))
  }

  /** RowAdd: row l replaced by row l plus scale times row k. */
  function RowAdd(A: seq<seq<real>>, k: nat, l: nat, scale: real): (B: seq<seq<real>>)
    requires IsRect(A) && k < |A| && l < |A|
    ensures IsMatrix(B, |A|, Cols(A)) && IsRect(B) && Cols(B) == Cols(A)
    ensures k != l ==> forall j :: 0 <= j < Cols(A) ==> B[l][j] == A[l][j] + A[k][j] * scale
    ensures k == l ==> forall j :: 0 <= j < Cols(A) ==> B[l][j] == (1.0 + scale) * A[k][j]
    ensures forall i :: 0 <= i < |A| && i != l ==> B[i] == A[i]
  {
    var n := Cols(A);
    seq(|A|, i requires 0 <= i < |A| =>
      seq(n, j requires 0 <= j < n => if i == l then A[l][j] + A[k][j] * scale else A[i][j]))
  }

  /** Swapping the same two rows twice restores the matrix. */
  lemma RowSwapTwice(A: seq<seq<real>>, k: nat, l: nat)
    requires IsRect(A) && k < |A| && l < |A|
    ensures RowSwap(RowSwap(A, k, l), k, l) == A
  {
    var B := RowSwap(RowSwap(A, k, l), k, l);
    forall i | 0 <= i < |A|
      ensures B[i] == A[i]
    {
    }
  }

  /** Swapping a row with itself changes nothing. */
  lemma RowSwapSame(A: seq<seq<real>>, k: nat)
    requires IsRect(A) && k < |A|
    ensures RowSwap(A, k, k) == A
  {
    var B := RowSwap(A, k, k);
    forall i | 0 <= i < |A|
      ensures B[i] == A[i]
    {
    }
  }

  /** Scaling a row by a nonzero factor is undone by scaling with its reciprocal. */
  lemma RowScaleUndo(A: seq<seq<real>>, k: nat, scale: real)
    requires IsRect(A) && k < |A| && scale != 0.0
    ensures RowScale(RowScale(A, k, scale), k, 1.0 / scale) == A
  {
    var B := RowScale(RowScale(A, k, scale), k, 1.0 / scale);
    forall i | 0 <= i < |A|
      ensures B[i] == A[i]
    {
      if i == k {
        forall j | 0 <= j < Cols(A)
          ensures B[i][j] == A[i][j]
        {
          assert B[i][j] == (A[i][j] * scale) * (1.0 / scale);
        }
      }
    }
  }

  /** Adding a multiple of another row is undone by subtracting it again. */
  lemma RowAddUndo(A: seq<seq<real>>, k: nat, l: nat, scale: real)
    requires IsRect(A) && k < |A| && l < |A| && k != l
    ensures RowAdd(RowAdd(A, k, l, scale), k, l, -scale) == A
  {
    var B := RowAdd(RowAdd(A, k, l, scale), k, l, -scale);
    forall i | 0 <= i < |A|
      ensures B[i] == A[i]
    {
    }
  }

  /** Exchanging rows does not change the solutions of A v == 0. */
  lemma RowSwapKernel(A: seq<seq<real>>, k: nat, l: nat)
    requires IsRect(A) && k < |A| && l < |A|
    ensures SameKernel(A, RowSwap(A, k, l), Cols(A))
  {
    var B := RowSwap(A, k, l);
    forall v | |v| == Cols(A)
      ensures InKernel(A, v) <==> InKernel(B, v)
    {
      if InKernel(A, v) {
        assert forall i :: 0 <= i < |B| ==> Dot(B[i], v) == 0.0 by {
          forall i | 0 <= i < |B|
            ensures Dot(B[i], v) == 0.0
          {
            var s := if i == k then l else if i == l then k else i;
            assert B[i] == A[s];
          }
        }
      }
      if InKernel(B, v) {
        assert forall i :: 0 <= i < |A| ==> Dot(A[i], v) == 0.0 by {
          forall i | 0 <= i < |A|
            ensures Dot(A[i], v) == 0.0
          {
            var s := if i == k then l else if i == l then k else i;
            assert A[i] == B[s];
          }
        }
      }
    }
  }

  /** Scaling a row by a nonzero factor does not change the solutions of A v == 0. */
  lemma RowScaleKernel(A: seq<seq<real>>, k: nat, scale: real)
    requires IsRect(A) && k < |A| && scale != 0.0
    ensures SameKernel(A, RowScale(A, k, scale), Cols(A))
  {
    var B := RowScale(A, k, scale);
    var zero := seq(Cols(A), j => 0.0);
    forall v | |v| == Cols(A)
      ensures Dot(B[k], v) == scale * Dot(A[k], v)
    {
      DotRangeLinear(A[k], zero, B[k], scale, v, 0, Cols(A));
      DotRangeZero(zero, v, 0, Cols(A));
    }
  }

  /** Adding a multiple of another row does not change the solutions of A v == 0. */
  lemma RowAddKernel(A: seq<seq<real>>, k: nat, l: nat, scale: real)
    requires IsRect(A) && k < |A| && l < |A| && k != l
    ensures SameKernel(A, RowAdd(A, k, l, scale), Cols(A))
  {
    var B := RowAdd(A, k, l, scale);
    forall v | |v| == Cols(A)
      ensures Dot(B[l], v) == scale * Dot(A[k], v) + Dot(A[l], v)
    {
      DotRangeLinear(A[k], A[l], B[l], scale, v, 0, Cols(A));
    }
  }
}
