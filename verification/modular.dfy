/** Integer arithmetic modulo a positive modulus, as Python's `%` computes it
    (for a positive modulus Python's floored `%` and Dafny's Euclidean `%` agree),
    and the scalar modular inverse of hillcipher.py. */
module Modular {
  import opened Results

  lemma MulAtLeast(N: int, k: int)
    requires N > 0 && k >= 1
    ensures N * k >= N
  {
  }

  /** The remainder is determined by any decomposition x == N * q + r with 0 <= r < N. */
  lemma ModUnique(x: int, N: int, q: int, r: int)
    requires N > 0 && 0 <= r < N && x == N * q + r
    ensures x % N == r
  {
    var q0, r0 := x / N, x % N;
    assert x == N * q0 + r0;
    assert N * (q0 - q) == r - r0;
    if q0 > q {
      MulAtLeast(N, q0 - q);
    } else if q0 < q {
      MulAtLeast(N, q - q0);
    }
  }

  lemma ModSmall(a: int, N: int)
    requires 0 <= a < N
    ensures a % N == a
  {
    ModUnique(a, N, 0, a);
  }

  lemma ModMod(a: int, N: int)
    requires N > 0
    ensures (a % N) % N == a % N
  {
    ModUnique(a % N, N, 0, a % N);
  }

  /** Adding a multiple of N does not change the remainder. */
  lemma ModAddMultiple(x: int, k: int, N: int)
    requires N > 0
    ensures (x + N * k) % N == x % N
  {
    ModUnique(x + N * k, N, x / N + k, x % N);
  }

  lemma ModAdd(a: int, b: int, N: int)
    requires N > 0
    ensures (a + b) % N == (a % N + b % N) % N
  {
    var s := a % N + b % N;
    var q := a / N + b / N + s / N;
    assert a + b == N * q + s % N by {
      assert a == N * (a / N) + a % N && b == N * (b / N) + b % N && s == N * (s / N) + s % N;
      assert N * q == N * (a / N) + N * (b / N) + N * (s / N);
    }
    ModUnique(a + b, N, q, s % N);
  }

  lemma ModMul(a: int, b: int, N: int)
    requires N > 0
    ensures (a * b) % N == ((a % N) * (b % N)) % N
  {
    var qa, ra, qb, rb := a / N, a % N, b / N, b % N;
    assert a * b == ra * rb + N * (qa * b + ra * qb) by {
      assert a == N * qa + ra;
      assert b == N * qb + rb;
    }
    ModAddMultiple(ra * rb, qa * b + ra * qb, N);
  }

  /** Congruence modulo N is compatible with multiplication. */
  lemma MulCongruent(a: int, a': int, b: int, b': int, N: int)
    requires N > 0 && a % N == a' % N && b % N == b' % N
    ensures (a * b) % N == (a' * b') % N
  {
    ModMul(a, b, N);
    ModMul(a', b', N);
  }

  /** Congruence modulo N is compatible with addition. */
  lemma AddCongruent(a: int, a': int, b: int, b': int, N: int)
    requires N > 0 && a % N == a' % N && b % N == b' % N
    ensures (a + b) % N == (a' + b') % N
  {
    ModAdd(a, b, N);
    ModAdd(a', b', N);
  }

  /** The search loop of ModularInverse from candidate i upwards. */
  function SearchInverse(a: int, N: int, i: nat): (r: Option<nat>)
    requires N > 0
    ensures r.Some? ==> i <= r.value < N && (r.value * a) % N == 1
    ensures r.Some? ==> forall j :: i <= j < r.value ==> (j * a) % N != 1
    ensures r.None? ==> forall j :: i <= j < N ==> (j * a) % N != 1
    decreases N - i
  {
    if i >= N then None
    else if (i * a) % N == 1 then Some(i)
    else SearchInverse(a, N, i + 1)
  }

  /** `ModularInverse(a, N)`: the first i in [0, N) with (i * a) % N == 1, or
      nothing (Python's implicit `None`) when the search finds none. */
  function ModInverse(a: int, N: int): (r: Option<nat>)
    ensures N <= 0 ==> r.None?
    ensures r.Some? ==> 0 < r.value < N && (r.value * a) % N == 1
    ensures r.Some? ==> forall j :: 0 <= j < r.value ==> (j * a) % N != 1
    ensures r.None? && N > 0 ==> forall j :: 0 <= j < N ==> (j * a) % N != 1
  {
    if N <= 0 then None
    else
      SearchInverse(a, N, 0)
  }

  /** An inverse modulo N depends only on the residue of a. */
  lemma InverseOfResidue(i: int, a: int, N: int)
    requires N > 0
    ensures (i * a) % N == (i * (a % N)) % N
  {
    ModMul(i, a, N);
    ModMul(i, a % N, N);
    ModMod(a, N);
    assert (i * (a % N)) % N == ((i % N) * (a % N)) % N;
  }

  /** The modular inverses of 1 .. 28 modulo the prime 29. */
  const InversesMod29: seq<int> :=
    [0, 1, 15, 10, 22, 6, 5, 25, 11, 13, 3, 8, 17, 9, 27, 2, 20, 12, 21, 26, 16, 18, 4, 24, 23, 7, 19, 14, 28]

  lemma InversesMod29Correct(r: int)
    requires 1 <= r < 29
    ensures (InversesMod29[r] * r) % 29 == 1
  {
    assert r == 1 || r == 2 || r == 3 || r == 4 || r == 5 || r == 6 || r == 7 || r == 8 || r == 9
      || r == 10 || r == 11 || r == 12 || r == 13 || r == 14 || r == 15 || r == 16 || r == 17 || r == 18
      || r == 19 || r == 20 || r == 21 || r == 22 || r == 23 || r == 24 || r == 25 || r == 26 || r == 27
      || r == 28;
  }

  /** Modulo the prime 29, a has an inverse exactly when it is not a multiple of 29. */
  lemma {:induction false} ModInverse29Exists(a: int)
    ensures ModInverse(a, 29).Some? <==> a % 29 != 0
  {
    if a % 29 != 0 {
      var w := InversesMod29[a % 29];
      InversesMod29Correct(a % 29);
      InverseOfResidue(w, a, 29);
      assert (w * a) % 29 == 1;
    } else {
      forall j | 0 <= j < 29
        ensures (j * a) % 29 != 1
      {
        InverseOfResidue(j, a, 29);
      }
    }
  }

  /** Negative arguments are handled as Python does: the inverse of -1 modulo 29 is 28. */
  lemma ModInverseOfMinusOne()
    ensures ModInverse(-1, 29) == Some(28)
  {
    var r := ModInverse(-1, 29);
    assert (28 * -1) % 29 == 1;
    forall j | 0 <= j < 28
      ensures (j * -1) % 29 != 1
    {
      assert j * -1 == -j;
    }
  }
}
