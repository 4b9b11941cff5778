# Hill cipher and elementary elimination, modelled in Dafny

This project models the computational core of the Jupyter Guide to Linear
Algebra's helper modules and proves properties of that model.

**The Hill cipher (`hillcipher.py`).** Messages are written in the 29-symbol
alphabet `' .?ABC…Z'`.
- Encoding upper-cases the text and turns each symbol into its position, skipping
  every other character. Decoding turns each code, reduced modulo 29, back into a
  symbol.
- A key is a square integer matrix A whose determinant has an inverse modulo 29.
- Encryption pads the code stream with random codes until its length is a
  multiple of the key size N. It then cuts the stream into N-code chunks,
  replaces each chunk p by (A p) mod 29, and decodes the result.
- Decryption does the same with the modular inverse matrix of A. That matrix is
  the transposed cofactor matrix times the inverse of det A modulo 29, and its
  entries are not reduced.

**Elimination (`laguide.py`).**
- The three elementary row operations are RowSwap, RowScale and RowAdd.
- Back substitution solves an upper triangular system.
- RowReduction is forward elimination with a downward pivot search.
- SolveSystem reduces the augmented matrix [A | B] and back-substitutes.

RowReduction's pivot search runs past the last row whenever, after columns
0..k-1 have been eliminated, column k is zero from row k down (see "## Findings"). The model keeps that
behaviour in `Reduction.RowReduction`. It also gives a corrected reduction,
`Reduction.GuardedRowReduction`, whose search stops at the last row and which
leaves such a column alone. SolveSystem is modelled on the corrected reduction.

Matrices are sequences of rows. Cipher arithmetic is on unbounded `int`: Python's
`%` with a positive modulus agrees with Dafny's. The elimination routines work on
exact `real` numbers in place of numpy's float64.

Main results:
- `Decode(Encode(msg))` is the message as the cipher sees it: upper-cased, with
  non-alphabet characters dropped.
- `Encode(Decode(codes))` is the codes reduced modulo 29.
- ModularInverse finds the least inverse modulo 29 exactly when the number is not
  a multiple of 29.
- CheckEncryptionMatrix is true exactly for square keys whose determinant is not
  a multiple of 29.
- Encryption and decryption refuse invalid keys. Otherwise they work chunk by
  chunk and produce a multiple of N symbols, fewer than N more than the encoded
  input.
- When ModularInverseMatrix(A) · A is the identity modulo 29, decryption of an
  encryption gives back the padded message. This holds for every valid 2 × 2 key.
  So the message as the cipher sees it (upper-cased, with non-alphabet characters
  dropped) is a prefix of the result. It is the whole result when its length is
  already a multiple of N.
- The row operations change only the rows they name. A swap undoes itself and
  always keeps the solutions of A v = 0. Scaling by a nonzero factor, and adding a
  multiple of one row to a different row, are undone by the opposite operation
  and keep those solutions. The source does not guard either case: a zero scale,
  or adding -1 times a row to itself, zeroes the row.
- A successful RowReduction leaves zeros below a unit diagonal in its first
  min(m, n) columns. It fails exactly when, after columns 0..k-1 have been
  eliminated, column k is zero from row k down, and the failure names that k.
- The corrected reduction always returns a matrix with zeros below a diagonal of
  0s and 1s, with the same solutions as A. It agrees with RowReduction whenever
  RowReduction succeeds, and its diagonal is all 1s exactly then.
- BackSubstitution computes the unique solution of a triangular system with a
  nonzero diagonal.
- SolveSystem succeeds on a square A exactly when A is nonsingular, that is,
  when A v = 0 only for v = 0. A successful SolveSystem returns the one and only
  x with A x = B.

The determinant that `hillcipher.py` calls (`lag.DeterminantIteration`) is not
part of this model's source. It is defined here as cofactor expansion along the
first row, and everything said about ModularInverseMatrix rests on that
definition.

On a non-square key, or one whose determinant has no inverse modulo 29,
HillCipherEncryption and HillCipherDecryption print a diagnostic and return the
message unchanged (hillcipher.py lines 90-99 and 143-152). The model does the
same: Encrypt and Decrypt return the message.

Files: `results.dfy` (Option, Result, error kinds), `shapes.dfy` (matrix shapes,
transpose, chunking, flattening), `modular.dfy`, `codec.dfy`, `int_matrix.dfy`,
`determinant.dfy`, `key_matrix.dfy`, `hill_cipher.dfy`, `real_matrix.dfy`,
`row_ops.dfy`, `reduction.dfy`, `null_space.dfy` (a null vector for a zero
pivot), `solver.dfy`.

## Model

| member | source | states |
|---|---|---|
| Codec.AlphabetFacts | hillcipher.py:14-17 | the alphabet has 29 symbols, all distinct, so a symbol's position is its code |
| Codec.SymbolInAlphabet | hillcipher.py:14-17 | a character is in the alphabet exactly when it is a space, a full stop, a question mark or a capital letter |
| Codec.Upper | hillcipher.py:37 | `str.upper` on an ASCII character: lower-case letters move to upper case, everything else is kept, and no lower-case letter remains |
| Codec.IndexOf | hillcipher.py:39 | `alphabet.index(c)` is the position of the first occurrence of c |
| Codec.CodeOf | hillcipher.py:38-39 | every alphabet symbol has a code below 29 that maps back to it |
| Codec.Encode | hillcipher.py:35-43 | every code is in [0, 29) and there are never more codes than characters |
| Codec.DecodeEncode | hillcipher.py:35-43 | decoding the codes gives the upper-cased message with every non-alphabet character dropped |
| Codec.EncodeKeepsAll | hillcipher.py:37-41 | encoding keeps one code per character exactly when every upper-cased character is in the alphabet |
| Codec.Decode | hillcipher.py:265-272 | one alphabet symbol per code, so the text is as long as the code stream |
| Codec.EncodeDecode | hillcipher.py:265-272 | re-encoding decoded text gives the codes reduced modulo 29 |
| Codec.EncodeDecodeCodes | hillcipher.py:265-272 | decoded text is ASCII, and codes already in [0, 29) survive decoding and re-encoding unchanged |
| Modular.SearchInverse | hillcipher.py:196-198 | the search from i upward finds the first j < N with (j a) mod N = 1, or reports that no j in [i, N) works |
| Modular.ModInverse | hillcipher.py:181-198 | the result is the least inverse of a modulo N in [0, N), and nothing is returned only when no such inverse exists |
| Modular.ModInverse29Exists | hillcipher.py:196-198 | modulo 29 an inverse exists exactly when a is not a multiple of 29, negative a included |
| Modular.ModInverseOfMinusOne | hillcipher.py:196-198 | the inverse of -1 modulo 29 is 28 |
| Determinant.Det | hillcipher.py:67 | the determinant routine, whose body is not part of this model, assumed to be cofactor expansion along row 0: a 1 x 1 matrix is its entry, and a zero first row gives 0 |
| Determinant.Minor | hillcipher.py:232-241 | an (n-1) x (n-1) matrix holding A's entries with row i and column j skipped, the others in order |
| Determinant.Cofactor | hillcipher.py:244 | the minor's determinant, negated exactly when i + j is odd |
| Determinant.DetIdentity | hillcipher.py:67 | under the assumed definition, every identity matrix has determinant 1 |
| Determinant.Det2 | hillcipher.py:227 | on 2 x 2 matrices the determinant is a d - b c |
| Determinant.DetExamples | hillcipher.py:227 | det [[1, 2], [3, 4]] = -2 and the 3 x 3 identity has determinant 1 |
| KeyMatrix.IsValidKey | hillcipher.py:46-70 | false for a non-square key; for a square key, true exactly when det A has an inverse modulo 29, that is, when det A is not a multiple of 29 |
| KeyMatrix.ModInverseMatrix | hillcipher.py:201-247 | a result exactly for valid keys; it is n x n with entry (i, j) equal to cofactor (j, i) times the inverse of det A, unreduced |
| KeyMatrix.ModInverseMatrix2Entries | hillcipher.py:230-245 | for a 2 x 2 key the inverse is t [[d, -b], [-c, a]], with t the inverse of det A |
| KeyMatrix.ModInverseMatrix2 | hillcipher.py:225-247 | for every valid 2 x 2 key, ModInverseMatrix(A) times A is the identity modulo 29 |
| KeyMatrix.ModInverseMatrixExample | hillcipher.py:225-247 | the key [[1, 2], [3, 5]] is valid and its inverse is [[140, -56], [-84, 28]], unreduced |
| IntMatrix.MatMul | hillcipher.py:118 | the matrix product `A@P`: an m x n result whose entry (i, j) is row i of A against column j of P |
| IntMatrix.DotCongruent | hillcipher.py:118 | dot products of entrywise congruent vectors are congruent modulo N |
| IntMatrix.MatVecModInverse | hillcipher.py:173 | when K A is the identity modulo N, applying A and then K modulo N gives back any chunk of codes in [0, N) |
| Shapes.Chunks | hillcipher.py:112-113 | reshaping L N codes gives L rows of N codes, row j being the j-th N-code slice |
| Shapes.FlattenLayout | hillcipher.py:119-120 | flattening L rows of N entries places row j at slice j, for L N entries in all |
| Shapes.FlattenChunks | hillcipher.py:112-120 | cutting into chunks and flattening again gives back the stream |
| HillCipher.PadCount | hillcipher.py:107-108 | the padding loop appends fewer than N codes, the fewest that make the length a multiple of N |
| HillCipher.Pad | hillcipher.py:105-108 | the padded stream starts with the codes, has a length that is a multiple of N and less than N beyond the codes, and holds only codes in [0, 29) |
| HillCipher.CipherCodes | hillcipher.py:110-120 | the output has the input's length, holds codes in [0, 29), and chunk j of it is (K chunk_j) mod 29 |
| HillCipher.Encrypt | hillcipher.py:73-123 | an invalid key returns the message unchanged; a valid one gives alphabet symbols, a multiple of N of them, at least as many as the message's codes and fewer than N more |
| HillCipher.EncryptBlocks | hillcipher.py:103-122 | re-encoding the ciphertext gives, chunk by chunk, (A chunk_j) mod 29 of the padded codes |
| HillCipher.Decrypt | hillcipher.py:126-178 | an invalid key returns the message unchanged; a valid one gives alphabet symbols, a multiple of N of them, at least as many as the message's codes and fewer than N more |
| HillCipher.DecryptBlocks | hillcipher.py:154-177 | re-encoding the decryption gives, chunk by chunk, (ModInverseMatrix(A) chunk_j) mod 29 of the padded codes |
| HillCipher.CipherCodesInverse | hillcipher.py:165-175 | running the pipeline with K after the pipeline with A restores any code stream when K A is the identity modulo 29 |
| HillCipher.RoundTrip | hillcipher.py:126-178 | for a valid key A with ModInverseMatrix(A) · A ≡ I (mod 29), decrypting an encryption gives back the padded plaintext, whatever the second run would have drawn |
| HillCipher.RoundTripPrefix | hillcipher.py:103-108 | for a valid key A with ModInverseMatrix(A) · A ≡ I (mod 29), the upper-cased, filtered message is a prefix of the decryption of its encryption, and all of it when no padding was needed |
| HillCipher.RoundTrip2 | hillcipher.py:126-178 | every valid 2 x 2 key round-trips: the upper-cased, filtered message Keep(msg) is a prefix of the decryption of the encryption, and is the whole result when the encoded length is a multiple of N |
| HillCipher.RoundTripExample | hillcipher.py:73-178 | "Hi" under the key [[1, 2], [3, 5]] decrypts back to "HI" |
| RowOps.RowSwap | laguide.py:31-44 | a fresh m x n matrix with rows k and l exchanged and every other row unchanged |
| RowOps.RowSwapTwice | laguide.py:39-42 | swapping the same rows twice gives back the matrix |
| RowOps.RowSwapSame | laguide.py:39-42 | swapping a row with itself changes nothing |
| RowOps.RowSwapKernel | laguide.py:31-44 | a swap keeps the solutions of A v = 0 |
| RowOps.RowScale | laguide.py:63-73 | row k is multiplied by scale and every other row is unchanged |
| RowOps.RowScaleUndo | laguide.py:70-71 | for s ≠ 0, scaling by s and then by 1/s gives back the matrix |
| RowOps.RowScaleKernel | laguide.py:63-73 | scaling by a nonzero factor keeps the solutions of A v = 0 |
| RowOps.RowAdd | laguide.py:93-104 | row l becomes row l plus scale times row k (or (1 + scale) times the row when k = l) and every other row is unchanged |
| RowOps.RowAddUndo | laguide.py:101-102 | for two distinct rows k ≠ l, adding scale times row k and then -scale times row k gives back the matrix |
| RowOps.RowAddKernel | laguide.py:93-104 | adding a multiple of row k to a different row l keeps the solutions of A v = 0 |
| Reduction.PivotRow | laguide.py:164-170 | the first row at or below p with a nonzero entry in column k, and nothing exactly when that part of the column is zero |
| Reduction.MovePivot | laguide.py:172-174 | after the swap the pivot sits on the diagonal, the reduced columns stay reduced and the solutions stay the same |
| Reduction.Normalize | laguide.py:177-178 | dividing row k by its pivot makes the pivot 1, keeps the reduced columns and keeps the solutions |
| Reduction.EliminateBelow | laguide.py:179-180 | rows above i are kept and every row r from i down becomes row r minus B[r][k] times row k |
| Reduction.EliminateBelowKernel | laguide.py:179-180 | clearing the column below the pivot keeps the solutions of B v = 0 |
| Reduction.EliminateZeros | laguide.py:176-180 | below a unit pivot the column is cleared and the earlier columns stay cleared |
| Reduction.SwapKeepsZeros | laguide.py:172-174 | swapping two rows at or below k keeps the cleared columns cleared and leaves the rows above k alone |
| Reduction.ClearBelow | laguide.py:179-180 | below a unit pivot, the elimination clears column k, leaves rows 0..k alone and keeps the solutions |
| Reduction.Pivoted | laguide.py:172-180 | swapping the pivot up, scaling it to 1 and clearing below it reduces columns 0..k, leaves the rows above k alone and keeps the solutions |
| Reduction.Step | laguide.py:162-180 | one step fails exactly when column k is zero from row k down; otherwise columns 0..k are reduced and the solutions are kept |
| Reduction.Reduce | laguide.py:162-181 | the remaining steps either reduce all columns up to `steps` with the same solutions, or fail at a column in range |
| Reduction.RowReduction | laguide.py:132-181 | on success an m x n matrix with a unit diagonal and zeros below it in its first min(m, n) columns and the same solutions as A; on failure a column index below min(m, n) |
| Reduction.RowReductionFailsAt | laguide.py:162-170 | a failure names the column k where the pivot search runs off the bottom: k is below min(m, n), the first k steps succeed, and they leave column k zero from row k down |
| Reduction.ReduceFailsAt | laguide.py:162-170 | when the remaining steps fail, the steps before the named column succeed and leave that column zero from the diagonal down |
| Reduction.RowReductionRunsOffBottom | laguide.py:166-170 | for [[0, 1]] the pivot search of RowReduction runs off the bottom, while the corrected reduction returns the matrix unchanged |
| Reduction.GuardedStep | laguide.py:162-180 | with the search stopped at the last row, one step is RowReduction's step when a pivot exists; otherwise it leaves a 0 on the diagonal; either way columns 0..k end up cleared below the diagonal, the rows above k are untouched and the solutions are kept |
| Reduction.GuardedReduce | laguide.py:162-181 | the corrected steps leave zeros below a diagonal of 0s and 1s, keep the rows already reduced and keep the solutions |
| Reduction.GuardedAgrees | laguide.py:162-181 | RowReduction's steps succeed exactly when the corrected steps leave a unit diagonal, and then both give the same matrix |
| Reduction.GuardedRowReduction | laguide.py:132-181 | the corrected reduction: an m x n matrix with zeros below a 0/1 diagonal and the same solutions as A, equal to RowReduction's result when that succeeds and with a unit diagonal exactly then |
| Solver.UpperTriangularSolves | laguide.py:122-130 | for an upper triangular U the equations back substitution uses are exactly U x = Y |
| Solver.TriangularRecurrence | laguide.py:125-129 | with a nonzero diagonal, U x = Y from the diagonal on holds exactly when each x[i] is (Y[i] minus the later terms) / U[i][i] |
| Solver.TriangularUnique | laguide.py:122-130 | with a nonzero diagonal the triangular system has at most one solution |
| Solver.BackSubstitution | laguide.py:106-130 | an m x 1 result exactly when the diagonal has no zero, computed last to first with X[m-1] = Y[m-1] / U[m-1][m-1] and solving U X = Y when U is upper triangular; otherwise the zero diagonal entry met first going up from the bottom row |
| Solver.Augment | laguide.py:204 | `np.hstack((A, B))`: row i is row i of A followed by row i of B, with the columns of both |
| Solver.LeftBlock | laguide.py:211 | `R[:, 0:n]`: an m x n block holding the first n entries of each row |
| Solver.RightColumn | laguide.py:210 | `R[:, n:n+1]`: an m x 1 column holding entry n of each row |
| Solver.AugmentedKernel | laguide.py:203-204 | x solves A x = B exactly when x extended by -1 solves [A, B] v = 0 |
| Solver.ReducedKernel | laguide.py:209-211 | for a reduced [R, c], x extended by -1 is a null vector exactly when x solves the triangular system R x = c |
| Solver.ReducedSystem | laguide.py:203-214 | x solves A x = B exactly when it solves the reduced triangular system |
| Solver.ReducedSolution | laguide.py:209-214 | the solution of the reduced system is the only solution of A x = B |
| Solver.RowSolvedBy | laguide.py:125-129 | the value back substitution stores in x[i] makes row i from the diagonal on sum to Y[i] |
| Solver.RowsBelowKept | laguide.py:125-129 | storing x[i] keeps the rows below i solved |
| Solver.UnitDiagonal | laguide.py:209-214 | for a reduced matrix with a 0/1 diagonal, the coefficient block has no zero on its diagonal exactly when the diagonal is all 1s |
| Solver.AugmentedHomogeneous | laguide.py:203-204 | w extended by 0 solves [A, B] v = 0 exactly when A w = 0 |
| Solver.UniqueSolutionNonsingular | laguide.py:183-215 | a system with exactly one solution has a matrix whose only null vector is zero |
| Solver.ZeroPivotSingular | laguide.py:207-214 | a zero left on the diagonal by the corrected reduction of [A, B] means A has a nonzero null vector |
| NullSpace.FirstZeroPivot | laguide.py:183-215 | proof helper for SolveSystem's failure case: the first diagonal position from i on holding a zero, with no zero before it |
| NullSpace.BackFill | laguide.py:183-215 | proof helper for SolveSystem's failure case: a vector that is 1 at the zero pivot c, 0 after it, and makes every row above c sum to zero from its diagonal on |
| NullSpace.ZeroPivotKernel | laguide.py:183-215 | proof helper for SolveSystem's failure case: a reduced matrix with a zero on its diagonal has a null vector, extended by 0, that is 1 at that pivot |
| Solver.SolveSystem | laguide.py:183-215 | nothing for a non-square A; for a square A a result exactly when A is nonsingular (and exactly when RowReduction of [A, B] succeeds), and then the one and only x with A x = B |

## Left out

- Floating point: laguide.py works on numpy float64 arrays. The model uses exact reals and makes no claim about rounding.
- Solver.BackSubstitution: a zero diagonal entry gives numpy's inf or nan with a warning, not an error. The model reports it as a failure at the lowest such row.
- Reduction.RowReduction: a column that is zero from row k down sends the pivot search past the last row, and Python raises IndexError. The model reports this as a failure naming column k. SolveSystem uses the corrected reduction instead (see "## Findings").
- Solver.SolveSystem: for a singular A the source, with the corrected reduction, would divide by a zero pivot in back substitution and return inf or nan. The model returns a failure naming that pivot.
- The determinant `lag.DeterminantIteration` is not part of this model's source. It is assumed to be cofactor expansion along the first row, with 1 for the empty matrix. For a 1 × 1 key the minor loop of hillcipher.py lines 233-241 leaves `Minor = []`, so line 244 hands the routine `np.array([])`, a 1-D array of shape (0,), not a 0 × 0 matrix. The model assumes the routine returns 1 for it. Every 1 × 1 key's inverse [[t]], and so Decrypt on 1 × 1 keys, rests on that assumption.
- KeyMatrix.ModInverseMatrix2: the adjugate identity A_inv · A ≡ I (mod 29) is proved for 2 × 2 keys only. For larger keys RoundTrip takes it as a hypothesis.
- Codec.Encode: upper-casing is modelled for ASCII text only, and Encode, Encrypt and Decrypt require ASCII input. Python's `str.upper` on other characters can change the length or produce capital letters.
- The `print` diagnostics of the cipher and of SolveSystem are not modelled. Only the returned values are.
- `random.randint(0, 28)` in the padding loops is replaced by a caller-supplied sequence of draws, each in [0, 28]. A key of size N needs at most N - 1 of them.
- numpy's int64 arithmetic could overflow on very large keys. The model uses unbounded integers. The integer array of ModularInverseMatrix (`dtype='int'`) is taken to hold the exact products.
- Encrypt, Decrypt: they require a key with at least one row. Because a matrix is a sequence of rows, this excludes two source cases that the model cannot tell apart. A 0 × n key with n ≥ 1 is not square, so hillcipher.py lines 90-93 and 143-146 return the message unchanged. A 0 × 0 key passes the shape test and reaches `len(plaintext) % N` at line 107 with N = 0, which raises ZeroDivisionError if `lag.DeterminantIteration` of the empty array has an inverse modulo 29.
- HillCipher.RoundTrip: holds for keys with ModInverseMatrix(A) · A ≡ I (mod 29). That hypothesis is proved for 2 × 2 keys only (RoundTrip2), not for every valid key.
- HillCipher.RoundTripPrefix: carries the same hypothesis as RoundTrip, proved for 2 × 2 keys only.
- Matrices are sequences of rows, so a matrix with no rows has no columns. numpy's 0 × n arrays are not distinguished.
- Row indices are trusted, as in the source, and must lie in range. Python's negative indices are not modelled.
- SolveSystem: B must be n × 1, as the docstring says. A wider B (numpy's hstack would accept it) is not modelled, and neither is a B whose row count makes hstack fail.
- ModInverseMatrix: a non-square key gives no result, as the source's bare `return` does. A determinant without an inverse also gives no result, where the source fails multiplying by `None`. The cipher never calls it in that case.

## Findings

| source | as written | input that shows it | evidently intended | confidence | as-written member | corrected member |
|---|---|---|---|---|---|---|
| laguide.py:168-170 | the pivot search loops while `pivot_row < m`, so when column k is zero from row k down it reads row m, one past the last row, and raises IndexError; the `pivot != 0` test at line 177 can then never be false | RowReduction([[0.0, 1.0]]): m = 1, the search moves to row 1 and fails | stop the search at the last row (`pivot_row < m - 1`), so the loop ends with a zero pivot and the elimination for column k is skipped, as the comment at line 176 describes | not executed | Reduction.RowReductionRunsOffBottom | Reduction.GuardedRowReduction |
