/**
 * The Learning-With-Errors bit cipher of lwe_implementation.py.
 *
 * Key generation publishes `(A, b)` with `b = (A·s + e) mod q` for a binary
 * secret `s` and a small error `e`; one bit is encrypted as
 * `u = r·A mod q`, `v = r·b + bit·(q//2) mod q` for a fresh binary `r`; and
 * decryption decodes `(v - u·s) mod q` by comparing it with `q//2`.
 *
 * The random draws (`A`, `s`, `e`, `r`) are parameters here, constrained to
 * the ranges the source draws them from.  NumPy vectors and matrices are
 * sequences; `dot` is an unreduced sum of products and `% q` is applied
 * afterwards, exactly as in the source (Python's `%` with `q > 0` agrees with
 * Dafny's).
 */
module Lwe {
  import opened NumberTheory

  /** The default `bound` of `generate_error_vector`, the one key generation uses. */
  const ErrorBound := 2

  // ---------------------------------------------------------------------
  // The random draws, as conditions on inputs
  // ---------------------------------------------------------------------

  /** A vector `generate_binary_vector(n)` can return. */
  predicate IsBinaryVector(v: seq<int>, n: nat) {
    |v| == n && forall i :: 0 <= i < n ==> v[i] == 0 || v[i] == 1
  }

  /** A vector `generate_error_vector(n, bound)` can return. */
  predicate IsErrorVector(e: seq<int>, n: nat, bound: int) {
    |e| == n && forall i :: 0 <= i < n ==> -bound <= e[i] <= bound
  }

  /** `m` rows of `n` entries each. */
  predicate IsMatrix(A: seq<seq<int>>, m: nat, n: nat) {
    |A| == m && forall i :: 0 <= i < m ==> |A[i]| == n
  }

  /** A matrix the comprehension in `lwe_keygen` can draw: entries in `[0, q)`. */
  predicate IsUniformMatrix(A: seq<seq<int>>, m: nat, n: nat, q: int) {
    IsMatrix(A, m, n) && forall i, j :: 0 <= i < m && 0 <= j < n ==> 0 <= A[i][j] < q
  }

  /** Every entry lies in `[0, q)`. */
  predicate InRange(v: seq<int>, q: int) {
    forall i :: 0 <= i < |v| ==> 0 <= v[i] < q
  }

  // ---------------------------------------------------------------------
  // NumPy arithmetic on sequences
  // ---------------------------------------------------------------------

  /** `x.dot(y)` for two vectors of equal length. */
  function Dot(x: seq<int>, y: seq<int>): int
    requires |x| == |y|
    decreases |x|
  {
    if |x| == 0 then 0 else x[0] * y[0] + Dot(x[1..], y[1..])
  }

  /** `A.dot(s)`: one dot product per row. */
  function MatVec(A: seq<seq<int>>, s: seq<int>): (w: seq<int>)
    requires IsMatrix(A, |A|, |s|)
    ensures |w| == |A|
  {
    seq(|A|, i requires 0 <= i < |A| => Dot(A[i], s))
  }

  /** Column `j` of a matrix whose rows all have more than `j` entries. */
  function Column(A: seq<seq<int>>, j: nat): (c: seq<int>)
    requires forall i :: 0 <= i < |A| ==> j < |A[i]|
    ensures |c| == |A|
  {
    seq(|A|, i requires 0 <= i < |A| => A[i][j])
  }

  /** `r.dot(A)`: the row vector `r` times the `|r| × n` matrix `A`. */
  function VecMat(r: seq<int>, A: seq<seq<int>>, n: nat): (w: seq<int>)
    requires IsMatrix(A, |r|, n)
    ensures |w| == n
  {
    seq(n, j requires 0 <= j < n => Dot(r, Column(A, j)))
  }

  /** `v % q` applied elementwise. */
  function Reduce(v: seq<int>, q: int): (w: seq<int>)
    requires q > 0
    ensures |w| == |v| && InRange(w, q)
  {
    seq(|v|, i requires 0 <= i < |v| => v[i] % q)
  }

  // ---------------------------------------------------------------------
  // Keys, ciphertexts and the three operations
  // ---------------------------------------------------------------------

  datatype PublicKey = PublicKey(A: seq<seq<int>>, b: seq<int>)

  /** The pair `(u, v)` that encrypts one bit. */
  datatype Ciphertext = Ciphertext(u: seq<int>, v: int)

  /** The number of columns of `A` (the secret dimension `n`). */
  function Columns(A: seq<seq<int>>): nat {
    if |A| == 0 then 0 else |A[0]|
  }

  /** A public key NumPy can encrypt under: `A` is `len(b) × n` and `b` is not empty. */
  predicate WellFormed(pk: PublicKey) {
    |pk.b| >= 1 && IsMatrix(pk.A, |pk.b|, Columns(pk.A))
  }

  /** The draws `lwe_keygen(n, m, q)` makes. */
  predicate KeyGenDraws(n: nat, m: nat, q: int, A: seq<seq<int>>, s: seq<int>, e: seq<int>) {
    q >= 1 && m >= 1 &&
    IsUniformMatrix(A, m, n, q) && IsBinaryVector(s, n) && IsErrorVector(e, m, ErrorBound)
  }

  /**
   * `lwe_keygen(n, m, q)` once its draws `A`, `s` and `e` are given:
   * returns the public key `(A, b)` and the secret key `s`, where every
   * `b[i]` is the reduced LWE sample `A[i]·s + e[i] mod q`.
   */
  function KeyGen(n: nat, m: nat, q: int, A: seq<seq<int>>, s: seq<int>, e: seq<int>): (keys: (PublicKey, seq<int>))
    requires KeyGenDraws(n, m, q, A, s, e)
    ensures keys.0.A == A && keys.1 == s && IsBinaryVector(keys.1, n)
    ensures WellFormed(keys.0) && |keys.0.b| == m && Columns(keys.0.A) == n
    ensures InRange(keys.0.b, q)
    ensures forall i :: 0 <= i < m ==> (keys.0.b[i] - Dot(A[i], s)) % q == e[i] % q
  {
    var b := Reduce(seq(m, i requires 0 <= i < m => Dot(A[i], s) + e[i]), q);
    forall i | 0 <= i < m
      ensures (b[i] - Dot(A[i], s)) % q == e[i] % q
    {
      ModMod(Dot(A[i], s) + e[i], q);
      ModSubCongruent(b[i], Dot(A[i], s), Dot(A[i], s) + e[i], Dot(A[i], s), q);
    }
    (PublicKey(A, b), s)
  }

  /**
   * `lwe_encrypt(public_key, bit, q)` once its draw `r` is given: the
   * ciphertext has one reduced entry per column of `A` and a reduced `v`,
   * whatever the bit and the binary `r`.
   */
  function Encrypt(pk: PublicKey, bit: int, r: seq<int>, q: int): (ct: Ciphertext)
    requires q >= 1 && WellFormed(pk) && IsBinaryVector(r, |pk.b|)
    ensures |ct.u| == Columns(pk.A) && InRange(ct.u, q)
    ensures 0 <= ct.v < q
  {
    var u := Reduce(VecMat(r, pk.A, Columns(pk.A)), q);
    var v := (Dot(r, pk.b) + bit * (q / 2)) % q;
    Ciphertext(u, v)
  }

  /** The value `lwe_decrypt` decodes: `(v - u·s) mod q`. */
  function Noisy(s: seq<int>, ct: Ciphertext, q: int): (x: int)
    requires q >= 1 && |ct.u| == |s|
    ensures 0 <= x < q
  {
    (ct.v - Dot(ct.u, s)) % q
  }

  /**
   * `lwe_decrypt(s, (u, v), q)`: 1 when `(v - u·s) mod q` lies within
   * `q//4` (exclusive) of `q//2` as plain integers, otherwise 0.
   */
  function Decrypt(s: seq<int>, ct: Ciphertext, q: int): (bit: int)
    requires q >= 1 && |ct.u| == |s|
    ensures bit == 0 || bit == 1
  {
    if Abs(Noisy(s, ct, q) - q / 2) < q / 4 then 1 else 0
  }

  // ---------------------------------------------------------------------
  // Decoding matches the circular-distance decoder
  // ---------------------------------------------------------------------

  /** The distance between `x` and `t` around the ring of integers modulo `q`. */
  function CircularDistance(x: int, t: int, q: int): int {
    var d := Abs(x - t);
    if d <= q - d then d else q - d
  }

  /**
   * For a reduced value the plain `abs(result - q//2)` of the source is the
   * circular distance to `q//2`, so the threshold test decodes exactly as a
   * circular-distance decoder would.
   */
  lemma DecryptIsCircularDecoder(s: seq<int>, ct: Ciphertext, q: int)
    requires q >= 1 && |ct.u| == |s|
    ensures Decrypt(s, ct, q) == 1 <==> CircularDistance(Noisy(s, ct, q), q / 2, q) < q / 4
  {
    var x := Noisy(s, ct, q);
    assert Abs(x - q / 2) <= q - Abs(x - q / 2);
  }

  // ---------------------------------------------------------------------
  // Algebra of Dot
  // ---------------------------------------------------------------------

  lemma {:induction false} DotZeroLeft(z: seq<int>, s: seq<int>)
    requires |z| == |s| && forall j :: 0 <= j < |z| ==> z[j] == 0
    ensures Dot(z, s) == 0
    decreases |z|
  {
    if |z| > 0 {
      DotZeroLeft(z[1..], s[1..]);
    }
  }

  /** `Dot` is linear in its first argument. */
  lemma {:induction false} DotLinearLeft(z: seq<int>, x: seq<int>, w: seq<int>, s: seq<int>, c: int)
    requires |z| == |x| == |w| == |s|
    requires forall j :: 0 <= j < |z| ==> z[j] == c * x[j] + w[j]
    ensures Dot(z, s) == c * Dot(x, s) + Dot(w, s)
    decreases |z|
  {
    if |z| > 0 {
      DotLinearLeft(z[1..], x[1..], w[1..], s[1..], c);
      calc {
        Dot(z, s);
        (c * x[0] + w[0]) * s[0] + Dot(z[1..], s[1..]);
        c * (x[0] * s[0]) + w[0] * s[0] + c * Dot(x[1..], s[1..]) + Dot(w[1..], s[1..]);
        c * (x[0] * s[0] + Dot(x[1..], s[1..])) + (w[0] * s[0] + Dot(w[1..], s[1..]));
        c * Dot(x, s) + Dot(w, s);
      }
    }
  }

  /** `Dot` is additive in its second argument. */
  lemma {:induction false} DotAddRight(r: seq<int>, x: seq<int>, y: seq<int>, z: seq<int>)
    requires |r| == |x| == |y| == |z|
    requires forall i :: 0 <= i < |z| ==> z[i] == x[i] + y[i]
    ensures Dot(r, z) == Dot(r, x) + Dot(r, y)
    decreases |r|
  {
    if |r| > 0 {
      DotAddRight(r[1..], x[1..], y[1..], z[1..]);
      assert r[0] * z[0] == r[0] * x[0] + r[0] * y[0];
    }
  }

  /** `Dot` respects congruence modulo `q` entry by entry. */
  lemma {:induction false} DotCongruent(x: seq<int>, y: seq<int>, x': seq<int>, y': seq<int>, q: int)
    requires q > 0 && |x| == |y| == |x'| == |y'|
    requires forall i :: 0 <= i < |x| ==> x[i] % q == x'[i] % q && y[i] % q == y'[i] % q
    ensures Dot(x, y) % q == Dot(x', y') % q
    decreases |x|
  {
    if |x| > 0 {
      DotCongruent(x[1..], y[1..], x'[1..], y'[1..], q);
      ModMulCongruent(x[0], y[0], x'[0], y'[0], q);
      ModAddCongruent(x[0] * y[0], Dot(x[1..], y[1..]), x'[0] * y'[0], Dot(x'[1..], y'[1..]), q);
    }
  }

  /** `(r·A)·s == r·(A·s)`: the two ways of evaluating `r A s` agree. */
  lemma {:induction false} VecMatDot(r: seq<int>, A: seq<seq<int>>, s: seq<int>)
    requires IsMatrix(A, |r|, |s|)
    ensures Dot(VecMat(r, A, |s|), s) == Dot(r, MatVec(A, s))
    decreases |r|
  {
    var n := |s|;
    if |r| == 0 {
      DotZeroLeft(VecMat(r, A, n), s);
    } else {
      var tail := VecMat(r[1..], A[1..], n);
      forall j | 0 <= j < n
        ensures VecMat(r, A, n)[j] == r[0] * A[0][j] + tail[j]
      {
        assert Column(A, j)[1..] == Column(A[1..], j);
      }
      DotLinearLeft(VecMat(r, A, n), A[0], tail, s, r[0]);
      VecMatDot(r[1..], A[1..], s);
      assert MatVec(A, s)[1..] == MatVec(A[1..], s);
    }
  }

  // ---------------------------------------------------------------------
  // Correctness
  // ---------------------------------------------------------------------

  /**
   * The decrypted value differs from `bit·(q//2)` by exactly the noise
   * `r·e` modulo `q`: `(v - u·s) ≡ r·e + bit·(q//2)`.
   */
  lemma DecryptionNoise(n: nat, m: nat, q: int, A: seq<seq<int>>, s: seq<int>, e: seq<int>, bit: int, r: seq<int>)
    requires KeyGenDraws(n, m, q, A, s, e) && IsBinaryVector(r, m)
    ensures var keys := KeyGen(n, m, q, A, s, e);
            Noisy(keys.1, Encrypt(keys.0, bit, r, q), q) == (Dot(r, e) + bit * (q / 2)) % q
  {
    var keys := KeyGen(n, m, q, A, s, e);
    var b := keys.0.b;
    var ct := Encrypt(keys.0, bit, r, q);
    var As := MatVec(A, s);
    var W := VecMat(r, A, n);
    var h := bit * (q / 2);
    // r·b ≡ r·(A·s + e) = r·(A·s) + r·e
    var Ase := seq(m, i requires 0 <= i < m => As[i] + e[i]);
    forall i | 0 <= i < m
      ensures b[i] % q == Ase[i] % q
    {
      ModMod(As[i] + e[i], q);
    }
    DotCongruent(r, b, r, Ase, q);
    DotAddRight(r, As, e, Ase);
    // u·s ≡ (r·A)·s = r·(A·s)
    forall j | 0 <= j < n
      ensures ct.u[j] % q == W[j] % q
    {
      ModMod(W[j], q);
    }
    DotCongruent(ct.u, s, W, s, q);
    VecMatDot(r, A, s);
    // combine
    ModMod(Dot(r, b) + h, q);
    ModAddCongruent(Dot(r, b), h, Dot(r, As) + Dot(r, e), h, q);
    ModSubCongruent(ct.v, Dot(ct.u, s), Dot(r, As) + Dot(r, e) + h, Dot(r, As), q);
    assert Dot(r, As) + Dot(r, e) + h - Dot(r, As) == Dot(r, e) + h;
  }

  /** A noise sum of magnitude below `q//4` cannot disturb the decoded bit. */
  lemma ThresholdDecodes(noise: int, bit: int, q: int)
    requires q >= 1 && (bit == 0 || bit == 1) && Abs(noise) < q / 4
    ensures var x := (noise + bit * (q / 2)) % q;
            (Abs(x - q / 2) < q / 4) == (bit == 1)
  {
    var x := (noise + bit * (q / 2)) % q;
    if bit == 1 || noise >= 0 {
      ModUnique(noise + bit * (q / 2), 0, noise + bit * (q / 2), q);
    } else {
      ModUnique(noise, -1, noise + q, q);
    }
  }

  /** Whenever `|r·e| < q//4`, decryption returns the encrypted bit. */
  lemma DecryptionCorrect(n: nat, m: nat, q: int, A: seq<seq<int>>, s: seq<int>, e: seq<int>, bit: int, r: seq<int>)
    requires KeyGenDraws(n, m, q, A, s, e) && IsBinaryVector(r, m)
    requires bit == 0 || bit == 1
    requires Abs(Dot(r, e)) < q / 4
    ensures var keys := KeyGen(n, m, q, A, s, e);
            Decrypt(keys.1, Encrypt(keys.0, bit, r, q), q) == bit
  {
    DecryptionNoise(n, m, q, A, s, e, bit, r);
    ThresholdDecodes(Dot(r, e), bit, q);
  }

  /** The noise `r·e` of a binary `r` and an error vector bounded by `bound` is at most `bound·m` in size. */
  lemma {:induction false} NoiseBound(r: seq<int>, e: seq<int>, m: nat, bound: int)
    requires IsBinaryVector(r, m) && IsErrorVector(e, m, bound)
    ensures Abs(Dot(r, e)) <= bound * m
    decreases m
  {
    if m > 0 {
      NoiseBound(r[1..], e[1..], m - 1, bound);
      assert bound * m == bound + bound * (m - 1);
    }
  }

  /**
   * When the parameters satisfy `2·m < q//4`, every encryption decrypts
   * correctly, whatever the draws.
   */
  lemma DecryptionAlwaysCorrect(n: nat, m: nat, q: int, A: seq<seq<int>>, s: seq<int>, e: seq<int>, bit: int, r: seq<int>)
    requires KeyGenDraws(n, m, q, A, s, e) && IsBinaryVector(r, m)
    requires bit == 0 || bit == 1
    requires ErrorBound * m < q / 4
    ensures var keys := KeyGen(n, m, q, A, s, e);
            Decrypt(keys.1, Encrypt(keys.0, bit, r, q), q) == bit
  {
    NoiseBound(r, e, m, ErrorBound);
    DecryptionCorrect(n, m, q, A, s, e, bit, r);
  }

  lemma {:induction false} DotConstant(r: seq<int>, e: seq<int>, c: int)
    requires |r| == |e|
    requires forall i :: 0 <= i < |r| ==> r[i] == 1 && e[i] == c
    ensures Dot(r, e) == c * |r|
    decreases |r|
  {
    if |r| > 0 {
      DotConstant(r[1..], e[1..], c);
    }
  }

  /**
   * The demonstration parameters `n = 10, m = 20, q = 97` do not satisfy
   * that condition, and some draws make decryption fail: with `A = 0`, every
   * error 2 and `r` all ones, the noise is 40 and an encrypted 0 decrypts as 1.
   */
  lemma DemoParametersCanFail()
    ensures var A := seq(20, _ => seq(10, _ => 0));
            var s := seq(10, _ => 0);
            var e := seq(20, _ => 2);
            var r := seq(20, _ => 1);
            KeyGenDraws(10, 20, 97, A, s, e) && IsBinaryVector(r, 20) &&
            var keys := KeyGen(10, 20, 97, A, s, e);
            Decrypt(keys.1, Encrypt(keys.0, 0, r, 97), 97) == 1
  {
    var A := seq(20, _ => seq(10, _ => 0));
    var s := seq(10, _ => 0);
    var e := seq(20, _ => 2);
    var r := seq(20, _ => 1);
    assert KeyGenDraws(10, 20, 97, A, s, e);
    DecryptionNoise(10, 20, 97, A, s, e, 0, r);
    DotConstant(r, e, 2);
  }
}
