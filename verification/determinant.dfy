/** The integer determinant that hillcipher.py calls as `lag.DeterminantIteration`.
    Its body is not part of this model: it is defined here as cofactor expansion
    along row 0, which is an assumption about that routine. */
module Determinant {
  import opened Shapes

  /** Python's `(-1)**k`. */
  function Sign(k: nat): (s: int)
    ensures s == 1 || s == -1
    ensures s == 1 <==> k % 2 == 0
  {
    if k % 2 == 0 then 1 else -1
  }

  /** A row with entry j removed. */
  function DropAt(row: seq<int>, j: nat): (r: seq<int>)
    requires j < |row|
    ensures |r| == |row| - 1
    ensures forall c :: 0 <= c < |row| - 1 ==> r[c] == row[if c < j then c else c + 1]
  {
    row[..j] + row[j + 1..]
  }

  /** The minor of ModularInverseMatrix: row i and column j removed, the other rows
      and columns kept in order. */
  function Minor(A: seq<seq<int>>, i: nat, j: nat): (M: seq<seq<int>>)
    requires IsSquare(A) && i < |A| && j < |A|
    ensures IsSquare(M) && |M| == |A| - 1
    ensures forall r, c :: 0 <= r < |A| - 1 && 0 <= c < |A| - 1 ==>
              M[r][c] == A[if r < i then r else r + 1][if c < j then c else c + 1]
  {
    var M := seq(|A| - 1, r requires 0 <= r < |A| - 1 => DropAt(A[if r < i then r else r + 1], j));
    assert forall r :: 0 <= r < |A| - 1 ==> M[r] == DropAt(A[if r < i then r else r + 1], j);
    M
  }

  /** Cofactor expansion along row 0; a 1 x 1 matrix is its entry and the empty
      matrix has determinant 1. The minor of a 1 x 1 key is `np.array([])`, a 1-D
      array of shape (0,), and the routine is assumed to return 1 for it too. */
  function Det(A: seq<seq<int>>): (d: int)
    requires IsSquare(A)
    ensures |A| == 1 ==> d == A[0][0]
    ensures |A| > 0 && (forall j :: 0 <= j < |A| ==> A[0][j] == 0) ==> d == 0
    decreases |A|, 1
  {
    if |A| == 0 then 1
    else if |A| == 1 then A[0][0]
    else ExpandRow0(A, 0)
  }

  /** The terms j, j+1, ... of the expansion along row 0. */
  function ExpandRow0(A: seq<seq<int>>, j: nat): (s: int)
    requires IsSquare(A) && |A| >= 2 && j <= |A|
    ensures (forall c :: j <= c < |A| ==> A[0][c] == 0) ==> s == 0
    decreases |A|, 0, |A| - j
  {
    if j == |A| then 0
    else Sign(j) * A[0][j] * Det(Minor(A, 0, j)) + ExpandRow0(A, j + 1)
  }

  /** The (i, j) cofactor: `(-1)**(i+j) * det(minor(i, j))`. */
  function Cofactor(A: seq<seq<int>>, i: nat, j: nat): (c: int)
    requires IsSquare(A) && i < |A| && j < |A|
    ensures (i + j) % 2 == 0 ==> c == Det(Minor(A, i, j))
    ensures (i + j) % 2 == 1 ==> c == -Det(Minor(A, i, j))
  {
    Sign(i + j) * Det(Minor(A, i, j))
  }

  /** On 2 x 2 matrices the expansion is the closed form a*d - b*c. */
  lemma Det2(A: seq<seq<int>>)
    requires IsMatrix(A, 2, 2)
    ensures Det(A) == A[0][0] * A[1][1] - A[0][1] * A[1][0]
  {
    MatrixEq(Minor(A, 0, 0), [[A[1][1]]], 1, 1);
    MatrixEq(Minor(A, 0, 1), [[A[1][0]]], 1, 1);
    assert ExpandRow0(A, 2) == 0;
    assert ExpandRow0(A, 1) == -A[0][1] * A[1][0];
    assert ExpandRow0(A, 0) == A[0][0] * A[1][1] + ExpandRow0(A, 1);
  }

  /** The n x n identity matrix. */
  function Identity(n: nat): (I: seq<seq<int>>)
    ensures IsMatrix(I, n, n)
    ensures forall i, j :: 0 <= i < n && 0 <= j < n ==> I[i][j] == (if i == j then 1 else 0)
  {
    seq(n, i requires 0 <= i < n => seq(n, j requires 0 <= j < n => if i == j then 1 else 0))
  }

  /** Every identity matrix has determinant 1, so the identity is a valid key of any
      size: removing row 0 and column 0 leaves the next smaller identity, and the rest
      of row 0 is zero. */
  lemma {:induction false} DetIdentity(n: nat)
    ensures Det(Identity(n)) == 1
  {
    if n >= 2 {
      var I := Identity(n);
      MatrixEq(Minor(I, 0, 0), Identity(n - 1), n - 1, n - 1);
      DetIdentity(n - 1);
      assert ExpandRow0(I, 1) == 0;
      assert Det(I) == ExpandRow0(I, 0) == Sign(0) * 1 * Det(Identity(n - 1)) + ExpandRow0(I, 1);
    }
  }

  lemma DetExamples()
    ensures Det([[1, 2], [3, 4]]) == -2
    ensures Det([[1, 0, 0], [0, 1, 0], [0, 0, 1]]) == 1
  {
    Det2([[1, 2], [3, 4]]);
    var I3 := [[1, 0, 0], [0, 1, 0], [0, 0, 1]];
    MatrixEq(Minor(I3, 0, 0), [[1, 0], [0, 1]], 2, 2);
    Det2([[1, 0], [0, 1]]);
    MatrixEq(Minor(I3, 0, 1), [[0, 0], [0, 1]], 2, 2);
    Det2([[0, 0], [0, 1]]);
    MatrixEq(Minor(I3, 0, 2), [[0, 1], [0, 0]], 2, 2);
    assert ExpandRow0(I3, 0) == Det([[1, 0], [0, 1]]) + ExpandRow0(I3, 1);
    assert ExpandRow0(I3, 1) == -0 * Det([[0, 0], [0, 1]]) + ExpandRow0(I3, 2);
    assert ExpandRow0(I3, 2) == 0 * Det([[0, 1], [0, 0]]) + ExpandRow0(I3, 3);
    Det2([[0, 1], [0, 0]]);
  }
}
