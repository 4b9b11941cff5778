/** Shape bookkeeping for matrices stored as sequences of rows. */
module Shapes {

  /** Number of columns; a matrix without rows has none. */
  function Cols<T>(A: seq<seq<T>>): nat {
    if |A| == 0 then 0 else |A[0]|
  }

  /** Every row has the same length. */
  predicate IsRect<T>(A: seq<seq<T>>) {
    forall i :: 0 <= i < |A| ==> |A[i]| == Cols(A)
  }

  /** A has exactly m rows of n entries each. */
  predicate IsMatrix<T>(A: seq<seq<T>>, m: nat, n: nat) {
    |A| == m && forall i :: 0 <= i < m ==> |A[i]| == n
  }

  /** An n x n matrix, n = |A|. */
  predicate IsSquare<T>(A: seq<seq<T>>) {
    IsMatrix(A, |A|, |A|)
  }

  /** Matrices of one shape are equal when their entries are. */
  lemma MatrixEq<T>(A: seq<seq<T>>, B: seq<seq<T>>, m: nat, n: nat)
    requires IsMatrix(A, m, n) && IsMatrix(B, m, n)
    requires forall i, j :: 0 <= i < m && 0 <= j < n ==> A[i][j] == B[i][j]
    ensures A == B
  {
    forall i | 0 <= i < m
      ensures A[i] == B[i]
    {
    }
  }

  /** Column j of A. */
  function Column<T>(A: seq<seq<T>>, j: nat): (c: seq<T>)
    requires forall i :: 0 <= i < |A| ==> j < |A[i]|
    ensures |c| == |A|
    ensures forall i :: 0 <= i < |A| ==> c[i] == A[i][j]
  {
    seq(|A|, i requires 0 <= i < |A| => A[i][j])
  }

  /** The transpose of an m x n matrix, an n x m matrix. */
  function Transpose<T>(A: seq<seq<T>>, m: nat, n: nat): (t: seq<seq<T>>)
    requires IsMatrix(A, m, n)
    ensures IsMatrix(t, n, m)
    ensures forall i, j :: 0 <= i < n && 0 <= j < m ==> t[i][j] == A[j][i]
  {
    seq(n, i requires 0 <= i < n => seq(m, j requires 0 <= j < m => A[j][i]))
  }

  lemma MulSucc(j: int, N: int)
    ensures (j + 1) * N == j * N + N
  {
  }

  lemma MulMono(a: nat, b: nat, N: nat)
    requires a <= b
    ensures a * N <= b * N
  {
  }

  /** Piece j of a sequence of L pieces of N entries lies within the sequence. */
  lemma ChunkInBounds(j: nat, L: nat, N: nat)
    requires j < L
    ensures j * N + N <= L * N
  {
    MulSucc(j, N);
    MulMono(j + 1, L, N);
  }

  /** Piece j of a sequence made of L pieces of N entries. */
  function Piece<T>(s: seq<T>, N: nat, L: nat, j: nat): (p: seq<T>)
    requires |s| == L * N && j < L
    ensures |p| == N
  {
    ChunkInBounds(j, L, N);
    s[j * N .. j * N + N]
  }

  /** Cuts a sequence of L * N entries into L consecutive pieces of N entries
      (numpy's row-major `reshape((L, N))`). */
  function Chunks<T>(s: seq<T>, N: nat, L: nat): (rows: seq<seq<T>>)
    requires |s| == L * N
    ensures IsMatrix(rows, L, N)
    ensures forall j :: 0 <= j < L ==> rows[j] == Piece(s, N, L, j)
  {
    seq(L, j requires 0 <= j < L => Piece(s, N, L, j))
  }

  /** Concatenates the rows in order (numpy's row-major `reshape((1, L * N))`). */
  function Flatten<T>(rows: seq<seq<T>>): seq<T> {
    if |rows| == 0 then [] else rows[0] + Flatten(rows[1..])
  }

  /** Past a leading piece, piece j of the whole is piece j-1 of the rest. */
  lemma PieceAfterHead<T>(head: seq<T>, rest: seq<T>, N: nat, L: nat, j: nat)
    requires |head| == N && 0 < j < L && |rest| == (L - 1) * N
    ensures |head + rest| == L * N
    ensures Piece(head + rest, N, L, j) == Piece(rest, N, L - 1, j - 1)
  {
    MulSucc(L - 1, N);
    MulSucc(j - 1, N);
    ChunkInBounds(j - 1, L - 1, N);
    var s := head + rest;
    var lo := (j - 1) * N;
    assert j * N == N + lo;
    var p, q := s[j * N .. j * N + N], rest[lo .. lo + N];
    assert forall t :: 0 <= t < N ==> p[t] == q[t];
  }

  /** Flattening L rows of N entries lays row j out as piece j. */
  lemma {:induction false} FlattenLayout<T>(rows: seq<seq<T>>, L: nat, N: nat)
    requires IsMatrix(rows, L, N)
    ensures |Flatten(rows)| == L * N
    ensures forall j :: 0 <= j < L ==> Piece(Flatten(rows), N, L, j) == rows[j]
    decreases L
  {
    if L > 0 {
      FlattenLayout(rows[1..], L - 1, N);
      MulSucc(L - 1, N);
      var rest := Flatten(rows[1..]);
      assert Flatten(rows) == rows[0] + rest;
      forall j | 0 <= j < L
        ensures Piece(Flatten(rows), N, L, j) == rows[j]
      {
        if j > 0 {
          PieceAfterHead(rows[0], rest, N, L, j);
        }
      }
    }
  }

  /** Cutting into chunks and flattening again gives back the sequence. */
  lemma {:induction false} FlattenChunks<T>(s: seq<T>, N: nat, L: nat)
    requires |s| == L * N
    ensures Flatten(Chunks(s, N, L)) == s
    decreases L
  {
    if L > 0 {
      MulSucc(L - 1, N);
      var rows := Chunks(s, N, L);
      var tail := Chunks(s[N..], N, L - 1);
      forall j | 0 <= j < L - 1
        ensures rows[1..][j] == tail[j]
      {
        MulSucc(j, N);
        ChunkInBounds(j, L - 1, N);
      }
      assert rows[1..] == tail;
      FlattenChunks(s[N..], N, L - 1);
      assert rows[0] == s[..N];
      assert s == s[..N] + s[N..];
    }
  }
}
