/** Key validity and the modular inverse of a key (hillcipher.py's
    CheckEncryptionMatrix and ModularInverseMatrix). */
module KeyMatrix {
  import opened Results
  import opened Shapes
  import Modular
  import Codec
  import opened Determinant
  import opened IntMatrix

  /** Python truthiness of ModularInverse's result: `None` and `0` are false. */
  predicate Truthy(o: Option<nat>) {
    o.Some? && o.value != 0
  }

  lemma SquareShape<T>(A: seq<seq<T>>)
    requires IsRect(A)
    ensures IsSquare(A) <==> |A| == Cols(A)
  {
  }

  /** CheckEncryptionMatrix: false for a non-square matrix, otherwise whether
      det(A) has an inverse modulo 29. */
  function IsValidKey(A: seq<seq<int>>): (ok: bool)
    requires IsRect(A)
    ensures ok <==> IsSquare(A) && Modular.ModInverse(Det(A), Codec.AlphabetSize).Some?
    ensures ok <==> IsSquare(A) && Det(A) % Codec.AlphabetSize != 0
  {
    SquareShape(A);
    if |A| != Cols(A) then false
    else
      Modular.ModInverse29Exists(Det(A));
      Truthy(Modular.ModInverse(Det(A), Codec.AlphabetSize))
  }

  /** ModularInverseMatrix: the transposed cofactor matrix times the inverse of
      det(A) modulo 29, with no reduction of the entries. Nothing for a non-square
      matrix (Python returns `None`) or when det(A) has no inverse (Python fails
      multiplying by `None`). */
  function ModInverseMatrix(A: seq<seq<int>>): (r: Option<seq<seq<int>>>)
    requires IsRect(A)
    ensures r.Some? <==> IsValidKey(A)
    ensures r.Some? ==> IsMatrix(r.value, |A|, |A|)
    ensures r.Some? ==> forall i, j :: 0 <= i < |A| && 0 <= j < |A| ==>
              r.value[i][j] == Cofactor(A, j, i) * Modular.ModInverse(Det(A), Codec.AlphabetSize).value
  {
    SquareShape(A);
    if |A| != Cols(A) then None
    else
      match Modular.ModInverse(Det(A), Codec.AlphabetSize)
      case None => None
      case Some(t) =>
        var n := |A|;
        Some(seq(n, i requires 0 <= i < n => seq(n, j requires 0 <= j < n => Cofactor(A, j, i) * t)))
  }

  lemma Dot2(u: seq<int>, v: seq<int>)
    requires |u| == |v| == 2
    ensures Dot(u, v) == u[0] * v[0] + u[1] * v[1]
  {
    assert Dot(u[1..][1..], v[1..][1..]) == 0;
  }

  /** The four 1 x 1 minors of a 2 x 2 matrix. */
  lemma Minors2(A: seq<seq<int>>)
    requires IsMatrix(A, 2, 2)
    ensures Det(Minor(A, 0, 0)) == A[1][1] && Det(Minor(A, 0, 1)) == A[1][0]
    ensures Det(Minor(A, 1, 0)) == A[0][1] && Det(Minor(A, 1, 1)) == A[0][0]
  {
    MatrixEq(Minor(A, 0, 0), [[A[1][1]]], 1, 1);
    MatrixEq(Minor(A, 0, 1), [[A[1][0]]], 1, 1);
    MatrixEq(Minor(A, 1, 0), [[A[0][1]]], 1, 1);
    MatrixEq(Minor(A, 1, 1), [[A[0][0]]], 1, 1);
  }

  /** The adjugate identity for 2 x 2 matrices, as polynomial identities. */
  lemma Adjugate2(a: int, b: int, c: int, d: int, t: int)
    ensures (d * t) * a + (-b * t) * c == t * (a * d - b * c)
    ensures (d * t) * b + (-b * t) * d == 0
    ensures (-c * t) * a + (a * t) * c == 0
    ensures (-c * t) * b + (a * t) * d == t * (a * d - b * c)
  {
  }

  /** The entries of a 2 x 2 product. */
  lemma Product2(K: seq<seq<int>>, A: seq<seq<int>>)
    requires IsMatrix(K, 2, 2) && IsMatrix(A, 2, 2)
    ensures forall i, j :: 0 <= i < 2 && 0 <= j < 2 ==>
              MatMul(K, A, 2, 2, 2)[i][j] == K[i][0] * A[0][j] + K[i][1] * A[1][j]
  {
    forall i, j | 0 <= i < 2 && 0 <= j < 2
      ensures MatMul(K, A, 2, 2, 2)[i][j] == K[i][0] * A[0][j] + K[i][1] * A[1][j]
    {
      Dot2(K[i], Column(A, j));
    }
  }

  /** For a 2 x 2 key the inverse is the adjugate [[d, -b], [-c, a]] times t. */
  lemma ModInverseMatrix2Entries(A: seq<seq<int>>)
    requires IsMatrix(A, 2, 2) && IsValidKey(A)
    ensures ModInverseMatrix(A).Some?
    ensures var K, t := ModInverseMatrix(A).value, Modular.ModInverse(Det(A), Codec.AlphabetSize).value;
      && K[0][0] == A[1][1] * t && K[0][1] == -A[0][1] * t
      && K[1][0] == -A[1][0] * t && K[1][1] == A[0][0] * t
  {
    Minors2(A);
    assert Cofactor(A, 0, 0) == A[1][1] && Cofactor(A, 1, 1) == A[0][0];
    assert Cofactor(A, 1, 0) == -A[0][1] && Cofactor(A, 0, 1) == -A[1][0];
  }

  /** A 2 x 2 matrix [[e, 0], [0, e]] with e congruent to 1 is the identity modulo 29. */
  lemma IdentityMod2(P: seq<seq<int>>, e: int)
    requires IsMatrix(P, 2, 2) && e % Codec.AlphabetSize == 1
    requires P[0][0] == e && P[0][1] == 0 && P[1][0] == 0 && P[1][1] == e
    ensures forall i, j :: 0 <= i < 2 && 0 <= j < 2 ==>
              P[i][j] % Codec.AlphabetSize == (if i == j then 1 else 0)
  {
  }

  /** For a valid 2 x 2 key, ModInverseMatrix(A) times A is the identity modulo 29. */
  lemma ModInverseMatrix2(A: seq<seq<int>>)
    requires IsMatrix(A, 2, 2) && IsValidKey(A)
    ensures ModInverseMatrix(A).Some?
    ensures IsInverseMod(ModInverseMatrix(A).value, A, 2, Codec.AlphabetSize)
  {
    ModInverseMatrix2Entries(A);
    var K := ModInverseMatrix(A).value;
    var t := Modular.ModInverse(Det(A), Codec.AlphabetSize).value;
    var a, b, c, d := A[0][0], A[0][1], A[1][0], A[1][1];
    var D := Det(A);
    assert D == a * d - b * c by {
      Det2(A);
    }
    var P := MatMul(K, A, 2, 2, 2);
    assert P[0][0] == t * D && P[0][1] == 0 && P[1][0] == 0 && P[1][1] == t * D by {
      Product2(K, A);
      Adjugate2(a, b, c, d, t);
    }
    assert (t * D) % Codec.AlphabetSize == 1;
    IdentityMod2(P, t * D);
  }

  /** The entries are left unreduced: the key [[1, 2], [3, 5]] (det -1, whose inverse
      modulo 29 is 28) gets the inverse [[140, -56], [-84, 28]]. */
  lemma ModInverseMatrixExample()
    ensures IsValidKey([[1, 2], [3, 5]])
    ensures ModInverseMatrix([[1, 2], [3, 5]]) == Some([[140, -56], [-84, 28]])
  {
    var A := [[1, 2], [3, 5]];
    Det2(A);
    Modular.ModInverseOfMinusOne();
    Minors2(A);
    var K := ModInverseMatrix(A).value;
    MatrixEq(K, [[140, -56], [-84, 28]], 2, 2);
  }
}
