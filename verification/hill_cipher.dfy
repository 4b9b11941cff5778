/** Hill cipher encryption and decryption over the 29-symbol alphabet
    (hillcipher.py's HillCipherEncryption and HillCipherDecryption). */
module HillCipher {
  import opened Shapes
  import opened Codec
  import opened IntMatrix
  import opened KeyMatrix
  import Modular

  /** The values `random.randint(0, 28)` may return, supplied by the caller in the
      order they are drawn; a key of dimension N never needs more than N - 1 of them. */
  predicate ValidDraws(draws: seq<int>, N: nat) {
    |draws| + 1 >= N && forall i :: 0 <= i < |draws| ==> 0 <= draws[i] < AlphabetSize
  }

  predicate AllCodes(s: seq<int>) {
    forall i :: 0 <= i < |s| ==> 0 <= s[i] < AlphabetSize
  }

  predicate IsMultiple(m: int, N: nat)
    requires N > 0
  {
    m % N == 0
  }

  /** How many codes `while len % N != 0: append(...)` appends: the fewest that make
      the length a multiple of N. */
  function PadCount(len: nat, N: nat): (k: nat)
    requires N > 0
    ensures k < N && IsMultiple(len + k, N)
    ensures forall m :: len <= m < len + k ==> !IsMultiple(m, N)
  {
    var r := len % N;
    if r == 0 then 0
    else
      Modular.ModUnique(len + (N - r), N, len / N + 1, 0);
      assert forall m :: len <= m < len + (N - r) ==> !IsMultiple(m, N) by {
        forall m | len <= m < len + (N - r)
          ensures m % N == r + (m - len)
        {
          Modular.ModUnique(m, N, len / N, r + (m - len));
        }
      }
      N - r
  }

  /** The code stream followed by as many drawn pad codes as the loop appends. */
  function Pad(codes: seq<int>, draws: seq<int>, N: nat): (padded: seq<int>)
    requires N > 0 && |draws| + 1 >= N
    ensures |padded| == |codes| + PadCount(|codes|, N)
    ensures |padded| % N == 0 && |codes| <= |padded| < |codes| + N
    ensures padded[..|codes|] == codes
    ensures AllCodes(codes) && ValidDraws(draws, N) ==> AllCodes(padded)
  {
    codes + draws[..PadCount(|codes|, N)]
  }

  lemma LengthSplit(len: nat, N: nat)
    requires N > 0 && len % N == 0
    ensures len == (len / N) * N
  {
  }

  /** hillcipher.py lines 112-120 (and 165-175): cut the stream into N-code chunks that become the
      columns of P, compute (K P) mod 29, and read the result back column by column. */
  function CipherCodes(K: seq<seq<int>>, N: nat, codes: seq<int>): (out: seq<int>)
    requires N > 0 && IsMatrix(K, N, N) && |codes| % N == 0
    ensures |out| == |codes| && |out| == (|codes| / N) * N
    ensures AllCodes(out)
    ensures forall j :: 0 <= j < |codes| / N ==>
              Piece(out, N, |codes| / N, j) == MatVecMod(K, Piece(codes, N, |codes| / N, j), AlphabetSize)
  {
    var L := |codes| / N;
    LengthSplit(|codes|, N);
    var P := Transpose(Chunks(codes, N, L), L, N);
    var C := ModMatrix(MatMul(K, P, N, N, L), N, L, AlphabetSize);
    var T := Transpose(C, N, L);
    var out := Flatten(T);
    FlattenLayout(T, L, N);
    FlattenRange(T, L, N);
    forall j | 0 <= j < L
      ensures Piece(out, N, L, j) == MatVecMod(K, Piece(codes, N, L, j), AlphabetSize)
    {
      forall i | 0 <= i < N
        ensures T[j][i] == MatVecMod(K, Piece(codes, N, L, j), AlphabetSize)[i]
      {
        assert Column(P, j) == Piece(codes, N, L, j);
      }
    }
    out
  }

  /** Flattening rows of codes gives codes. */
  lemma {:induction false} FlattenRange(rows: seq<seq<int>>, L: nat, N: nat)
    requires IsMatrix(rows, L, N)
    requires forall j, i :: 0 <= j < L && 0 <= i < N ==> 0 <= rows[j][i] < AlphabetSize
    ensures AllCodes(Flatten(rows))
    decreases L
  {
    if L > 0 {
      FlattenRange(rows[1..], L - 1, N);
      assert Flatten(rows) == rows[0] + Flatten(rows[1..]);
    }
  }

  /** Two streams of L chunks are equal when all their chunks are. */
  lemma PiecesEq(s: seq<int>, t: seq<int>, N: nat, L: nat)
    requires |s| == L * N && |t| == L * N
    requires forall j :: 0 <= j < L ==> Piece(s, N, L, j) == Piece(t, N, L, j)
    ensures s == t
  {
    MatrixEq(Chunks(s, N, L), Chunks(t, N, L), L, N);
    FlattenChunks(s, N, L);
    FlattenChunks(t, N, L);
  }

  /** HillCipherEncryption. A non-square key, or one whose determinant has no inverse
      modulo 29, is refused and the message comes back unchanged. */
  function Encrypt(msg: string, A: seq<seq<int>>, draws: seq<int>): (r: string)
    requires IsAscii(msg) && IsRect(A) && |A| > 0 && ValidDraws(draws, |A|)
    ensures !IsValidKey(A) ==> r == msg
    ensures IsValidKey(A) ==> |r| % |A| == 0 && |Encode(msg)| <= |r| < |Encode(msg)| + |A|
    ensures IsValidKey(A) ==> forall i :: 0 <= i < |r| ==> IsSymbol(r[i])
  {
    SquareShape(A);
    if |A| != Cols(A) then msg
    else if !IsValidKey(A) then msg
    else
      var N := |A|;
      var padded := Pad(Encode(msg), draws, N);
      Decode(CipherCodes(A, N, padded))
  }

  /** HillCipherDecryption: the same pipeline with ModInverseMatrix(A) as the key. */
  function Decrypt(msg: string, A: seq<seq<int>>, draws: seq<int>): (r: string)
    requires IsAscii(msg) && IsRect(A) && |A| > 0 && ValidDraws(draws, |A|)
    ensures !IsValidKey(A) ==> r == msg
    ensures IsValidKey(A) ==> |r| % |A| == 0 && |Encode(msg)| <= |r| < |Encode(msg)| + |A|
    ensures IsValidKey(A) ==> forall i :: 0 <= i < |r| ==> IsSymbol(r[i])
  {
    SquareShape(A);
    if |A| != Cols(A) then msg
    else if !IsValidKey(A) then msg
    else
      var N := |A|;
      var padded := Pad(Encode(msg), draws, N);
      var K := ModInverseMatrix(A).value;
      Decode(CipherCodes(K, N, padded))
  }

  /** Encryption works chunk by chunk: re-encoding the ciphertext gives, for every
      N-code chunk j of the padded plaintext codes, (A chunk_j) mod 29. */
  lemma EncryptBlocks(msg: string, A: seq<seq<int>>, draws: seq<int>)
    requires IsAscii(msg) && IsRect(A) && |A| > 0 && ValidDraws(draws, |A|) && IsValidKey(A)
    ensures IsAscii(Encrypt(msg, A, draws))
    ensures var c, p := Encode(Encrypt(msg, A, draws)), Pad(Encode(msg), draws, |A|);
      && |c| == |p| && |p| % |A| == 0
      && forall j :: 0 <= j < |p| / |A| ==>
           Piece(c, |A|, |p| / |A|, j) == MatVecMod(A, Piece(p, |A|, |p| / |A|, j), AlphabetSize)
  {
    SquareShape(A);
    var out := CipherCodes(A, |A|, Pad(Encode(msg), draws, |A|));
    DecodeIsAscii(out);
    EncodeDecodeCodes(out);
  }

  /** Decryption works chunk by chunk with ModInverseMatrix(A) in place of A. */
  lemma DecryptBlocks(msg: string, A: seq<seq<int>>, draws: seq<int>)
    requires IsAscii(msg) && IsRect(A) && |A| > 0 && ValidDraws(draws, |A|) && IsValidKey(A)
    ensures IsAscii(Decrypt(msg, A, draws))
    ensures var c, p := Encode(Decrypt(msg, A, draws)), Pad(Encode(msg), draws, |A|);
      && |c| == |p| && |p| % |A| == 0
      && forall j :: 0 <= j < |p| / |A| ==>
           Piece(c, |A|, |p| / |A|, j)
             == MatVecMod(ModInverseMatrix(A).value, Piece(p, |A|, |p| / |A|, j), AlphabetSize)
  {
    SquareShape(A);
    var out := CipherCodes(ModInverseMatrix(A).value, |A|, Pad(Encode(msg), draws, |A|));
    DecodeIsAscii(out);
    EncodeDecodeCodes(out);
  }

  /** Running the cipher pipeline with K after the pipeline with A restores every
      chunk of a code stream, when K A is the identity modulo 29. */
  lemma CipherCodesInverse(A: seq<seq<int>>, K: seq<seq<int>>, N: nat, codes: seq<int>)
    requires N > 0 && IsInverseMod(K, A, N, AlphabetSize)
    requires |codes| % N == 0 && AllCodes(codes)
    ensures CipherCodes(K, N, CipherCodes(A, N, codes)) == codes
  {
    var L := |codes| / N;
    var c := CipherCodes(A, N, codes);
    var d := CipherCodes(K, N, c);
    forall j | 0 <= j < L
      ensures Piece(d, N, L, j) == Piece(codes, N, L, j)
    {
      var p := Piece(codes, N, L, j);
      ChunkInBounds(j, L, N);
      assert forall l :: 0 <= l < N ==> p[l] == codes[j * N + l];
      MatVecModInverse(K, A, N, AlphabetSize, p);
    }
    PiecesEq(d, codes, N, L);
  }

  /** Decrypting an encryption gives back the padded code stream as text, whatever
      the second run draws: decryption never pads, since ciphertext length is
      already a multiple of N, and the pad symbols of the encryption stay in. */
  lemma RoundTrip(msg: string, A: seq<seq<int>>, draws: seq<int>, draws': seq<int>)
    requires IsAscii(msg) && IsRect(A) && |A| > 0 && ValidDraws(draws, |A|) && ValidDraws(draws', |A|)
    requires IsValidKey(A) && IsInverseMod(ModInverseMatrix(A).value, A, |A|, AlphabetSize)
    ensures IsAscii(Encrypt(msg, A, draws))
    ensures Decrypt(Encrypt(msg, A, draws), A, draws') == Decode(Pad(Encode(msg), draws, |A|))
  {
    var N := |A|;
    SquareShape(A);
    var padded := Pad(Encode(msg), draws, N);
    var out := CipherCodes(A, N, padded);
    var enc := Decode(out);
    assert Encrypt(msg, A, draws) == enc;
    EncodeDecodeCodes(out);
    assert Pad(Encode(enc), draws', N) == out;
    CipherCodesInverse(A, ModInverseMatrix(A).value, N, padded);
  }

  /** The message as the cipher sees it is a prefix of the decryption of its encryption,
      and all of it when no padding was needed. */
  lemma RoundTripPrefix(msg: string, A: seq<seq<int>>, draws: seq<int>, draws': seq<int>)
    requires IsAscii(msg) && IsRect(A) && |A| > 0 && ValidDraws(draws, |A|) && ValidDraws(draws', |A|)
    requires IsValidKey(A) && IsInverseMod(ModInverseMatrix(A).value, A, |A|, AlphabetSize)
    ensures IsAscii(Encrypt(msg, A, draws))
    ensures Keep(msg) <= Decrypt(Encrypt(msg, A, draws), A, draws')
    ensures |Encode(msg)| % |A| == 0 ==> Decrypt(Encrypt(msg, A, draws), A, draws') == Keep(msg)
  {
    RoundTrip(msg, A, draws, draws');
    var codes := Encode(msg);
    var padded := Pad(codes, draws, |A|);
    assert padded == codes + padded[|codes|..];
    DecodeAppend(codes, padded[|codes|..]);
    DecodeEncode(msg);
    if |codes| % |A| == 0 {
      assert padded == codes;
    }
  }

  /** For 2 x 2 keys the inverse condition always holds, so every valid key round-trips. */
  lemma RoundTrip2(msg: string, A: seq<seq<int>>, draws: seq<int>, draws': seq<int>)
    requires IsAscii(msg) && IsMatrix(A, 2, 2) && ValidDraws(draws, 2) && ValidDraws(draws', 2)
    requires IsValidKey(A)
    ensures IsAscii(Encrypt(msg, A, draws))
    ensures Keep(msg) <= Decrypt(Encrypt(msg, A, draws), A, draws')
    ensures |Encode(msg)| % 2 == 0 ==> Decrypt(Encrypt(msg, A, draws), A, draws') == Keep(msg)
  {
    ModInverseMatrix2(A);
    RoundTripPrefix(msg, A, draws, draws');
  }

  /** With the key [[1, 2], [3, 5]] a message of even encoded length round-trips exactly. */
  lemma RoundTripExample(draws: seq<int>, draws': seq<int>)
    requires ValidDraws(draws, 2) && ValidDraws(draws', 2)
    ensures Decrypt(Encrypt("Hi", [[1, 2], [3, 5]], draws), [[1, 2], [3, 5]], draws') == "HI"
  {
    var A := [[1, 2], [3, 5]];
    ModInverseMatrixExample();
    assert Upper('H') == 'H' && Upper('i') == 'I';
    assert "Hi"[1..] == "i";
    assert Keep("i") == "I";
    assert Keep("Hi") == "HI";
    DecodeEncode("Hi");
    assert |Encode("Hi")| == 2;
    RoundTrip2("Hi", A, draws, draws');
  }
}
