# LWE, textbook RSA and a classical Shor simulation, modelled in Dafny

This project models a small cryptography demonstration.

- **Learning-With-Errors (LWE).** A lattice-based bit cipher:
  - key generation publishes `(A, b)` with `b = (A·s + e) mod q`, for a binary secret `s` and an error `e` in `[-2, 2]`;
  - one bit is encrypted as `u = r·A mod q` and `v = r·b + bit·(q//2) mod q`, for a fresh binary `r`;
  - decryption returns 1 when `|(v − u·s) mod q − q//2| < q//4`.
- **Text ↔ bits codec.** Each character becomes 8 bits, most significant first.
- **Textbook RSA.** This includes:
  - the recursive extended Euclidean algorithm and the modular inverse;
  - a base-256 conversion between text and integers;
  - encryption with the `m >= n` rejection, and decryption. These are unpadded RSAEP and RSADP (sections 5.1.1 and 5.1.2 of RFC 8017), without the fixed-length octet-string layer and without RSADP's ciphertext range check: `rsa_decrypt` accepts any integer ciphertext.
- **A classical stand-in for Shor's algorithm.**
  - `find_period` computes the multiplicative order of `a` modulo `n` by repeated multiplication.
  - One attempt of `shor_factor`, with the random base `a` as a parameter.
- **The driver script.** It repeats seven helpers statement for statement. Five of them are modelled as copies: `extended_gcd`, `modinv`, `text_to_int`, `int_to_text` and `find_period`. The other two, `generate_binary_vector` and `generate_error_vector`, are random draws, which become the input predicates `IsBinaryVector` and `IsErrorVector`. The script then recovers the RSA private exponent from the factors that Shor's attempt returns, and decrypts the ciphertext.

Modules:

| file | module | contents |
|---|---|---|
| `wrappers.dfy` | `Wrappers` | `Option`, `Result` |
| `number_theory.dfy` | `NumberTheory` | Python's `//` and `%`, `pow(b, e, m)`, divisibility, `math.gcd` |
| `lwe.dfy` | `Lwe` | key generation, encryption, decryption, and the correctness theorem |
| `bit_codec.dfy` | `BitCodec` | `text_to_bits` and `bits_to_text`, with their round trips |
| `rsa.dfy` | `Rsa` | extended Euclid, `modinv`, the text/integer conversion, RSA, and the demonstration key |
| `shor.dfy` | `Shor` | `find_period` and one `shor_factor` attempt |
| `main_helpers.dfy` | `MainHelpers` | the driver's copies of the helpers, shown to coincide, and key recovery |

How the model is written:

- **Loops are methods.** The source loops in `text_to_bits`, `bits_to_text`, `text_to_int`, `int_to_text` and `find_period` are `method`s with `while` or `for` loops. Each is proved equal to a specification function (`TextBits`, `BitsText`, `TextValue`, `IntText`), or proved to satisfy `FindPeriodSpec`. The round trips and bounds are lemmas about those functions.
- **Expressions are functions.** Key generation, encryption, decryption, `extended_gcd`, `modinv`, and RSA encryption and decryption are pure functions.
- **Random draws are inputs.** `A`, `s`, `e`, `r` and Shor's base `a` are parameters. Predicates (`IsUniformMatrix`, `IsBinaryVector`, `IsErrorVector`) restrict them to the ranges the source draws from.
- **Python arithmetic is modelled exactly.**
  - `//` and `%` round toward minus infinity. `FloorDiv` and `FloorMod` model them wherever the divisor can be negative.
  - With a positive modulus, Python's `%` coincides with Dafny's.
  - `pow(b, e, m)` is `ModPow`, computed by repeated squaring. `ModPowIsPowMod` proves it equals `b^e mod m`.
- **Failures are results.**
  - An exception raised by `modinv` is a `None` result.
  - The `ValueError` of `rsa_encrypt` is an `Err` result.
  - `find_period`'s ordinary `return None` is also a `None` result.
  - `Retry` stands for a `continue` in `shor_factor`'s loop.

Four facts about the code that the model keeps:

- **No length check.** `bits_to_text` accepts bit sequences whose length is not a multiple of 8. A short last chunk is read as the high-order bits of one more character (`BitCodec.ShortChunkIsZeroPadded`).
- **No parameter validation.** Key generation does not check `n`, `m` or `q`.
- **Plain distance.** Decryption compares with a plain `abs(result - q//2)`, not a circular distance. For reduced values the two coincide (`Lwe.DecryptIsCircularDecoder`).
- **Late reduction.** Dot products are computed unreduced and reduced modulo `q` afterwards.

## Model

| member | source | states |
|---|---|---|
| NumberTheory.FloorDiv | rsa_implementation.py:9 | Python's `b // a` rounds toward minus infinity: `a·d <= b < a·d + a` for a positive divisor, and `a·d + a < b <= a·d` for a negative one |
| NumberTheory.FloorMod | rsa_implementation.py:8-9 | Python's `b % a`: `b == a*(b//a) + r`, with the remainder in `[0, a)` for a positive divisor and in `(a, 0]` for a negative one |
| NumberTheory.ModPow | rsa_implementation.py:34 | `pow(b, e, m)` for `m > 0` lies in `[0, m)` |
| NumberTheory.ModPowIsPowMod | rsa_implementation.py:34 | repeated squaring computes exactly `b^e mod m` |
| NumberTheory.Gcd | shors_algorithm.py:21-22 | `math.gcd(a, b)` is non-negative, divides both arguments, and is positive unless both are 0 |
| NumberTheory.GcdGreatest | shors_algorithm.py:21-22 | every common divisor of `a` and `b` divides `math.gcd(a, b)` |
| NumberTheory.GcdUnique | shors_algorithm.py:21-22 | a non-negative common divisor that every common divisor divides is `math.gcd(a, b)` |
| Lwe.IsBinaryVector | lwe_implementation.py:4-5 | the vectors `generate_binary_vector(n)` can return: length `n`, every entry 0 or 1 |
| Lwe.IsErrorVector | lwe_implementation.py:7-8 | the vectors `generate_error_vector(n, bound)` can return: length `n`, every entry in `[-bound, bound]` |
| Lwe.IsUniformMatrix | lwe_implementation.py:11 | the matrices the comprehension can draw: `m` rows of `n` entries, each in `[0, q)` |
| Lwe.Dot | lwe_implementation.py:14 | NumPy's `x.dot(y)` on two vectors of equal length: the unreduced sum of products |
| Lwe.MatVec | lwe_implementation.py:14 | `A.dot(s)` has one entry per row of `A` |
| Lwe.VecMat | lwe_implementation.py:21 | `r.dot(A)` has one entry per column of `A` |
| Lwe.Reduce | lwe_implementation.py:14 | elementwise `% q` keeps the length and puts every entry in `[0, q)` |
| Lwe.KeyGen | lwe_implementation.py:10-15 | returns `((A, b), s)`: `s` is binary of length `n`, `A` is `m×n` with entries in `[0, q)`, `b` has length `m` with entries in `[0, q)`, and `b[i] − A[i]·s ≡ e[i] (mod q)` for every row |
| Lwe.Encrypt | lwe_implementation.py:17-23 | for any bit and any binary `r` of length `m`, `u` has one entry per column of `A`, all in `[0, q)`, and `v` is in `[0, q)` |
| Lwe.Noisy | lwe_implementation.py:28 | the value `(v − u·s) mod q` that decryption decodes lies in `[0, q)` |
| Lwe.Decrypt | lwe_implementation.py:25-29 | decryption always returns 0 or 1 |
| Lwe.DecryptIsCircularDecoder | lwe_implementation.py:29 | the source's plain `abs(result − q//2) < q//4` test returns 1 exactly when the circular distance from `result` to `q//2` is below `q//4` |
| Lwe.VecMatDot | lwe_implementation.py:21 | `(r·A)·s == r·(A·s)` for any `r`, `A` and `s` of matching shapes |
| Lwe.DecryptionNoise | lwe_implementation.py:14-28 | for keys from `KeyGen` with `s, e` and a ciphertext made with `r`, `(v − u·s) mod q == (r·e + bit·(q//2)) mod q` |
| Lwe.ThresholdDecodes | lwe_implementation.py:29 | a noise of magnitude below `q//4` added to `bit·(q//2)` decodes to `bit` |
| Lwe.DecryptionCorrect | lwe_implementation.py:10-29 | whenever `|r·e| < q//4`, decrypting the encryption of a bit returns that bit |
| Lwe.NoiseBound | lwe_implementation.py:4-8 | for binary `r` and errors bounded by `bound`, `|r·e| <= bound·m` |
| Lwe.DecryptionAlwaysCorrect | lwe_implementation.py:10-29 | when `2·m < q//4`, every encryption decrypts to the encrypted bit, whatever the draws |
| Lwe.DemoParametersCanFail | lwe_implementation.py:51-59 | with `n, m, q = 10, 20, 97`, some admissible draws (`A = 0`, all errors 2, `r` all ones) make an encrypted 0 decrypt as 1 |
| BitCodec.TextBits | lwe_implementation.py:31-37 | the encoding has `8·len(t)` entries, all 0 or 1 |
| BitCodec.TextToBits | lwe_implementation.py:31-37 | the loop returns `8·len(t)` bits, where position `k` is bit `7 − k mod 8` of character `k div 8`, most significant first |
| BitCodec.EncodeA | lwe_implementation.py:55-56 | "A" encodes as `0,1,0,0,0,0,0,1` |
| BitCodec.BitAt | lwe_implementation.py:36 | `(ascii_val >> i) & 1` is always 0 or 1 |
| BitCodec.ChunkSum | lwe_implementation.py:43 | the sum of `b << (7 − j)` over a 0/1 chunk, from a given position, is below `2^(8 − start)` |
| BitCodec.ChunkValue | lwe_implementation.py:43 | the character code built from a 0/1 chunk of at most 8 bits lies in `[0, 256)` |
| BitCodec.Chunk | lwe_implementation.py:42 | the slice `bits[8k : 8k+8]` has between 1 and 8 bits |
| BitCodec.BitsText | lwe_implementation.py:39-45 | decoding 0/1 bits yields `ceil(len(bits)/8)` characters, including one for a partial last chunk |
| BitCodec.BitsToText | lwe_implementation.py:39-45 | the loop returns `ceil(len(bits)/8)` characters, all with codes below 256, character `k` being the value of chunk `k` |
| BitCodec.ChunkSumOfByte | lwe_implementation.py:36-43 | reading back the 8 bits of `v` from position `start` gives `v mod 2^(8 − start)` |
| BitCodec.ChunkSumInjective | lwe_implementation.py:43 | two 0/1 chunks of equal length with the same value agree bit for bit |
| BitCodec.TextRoundTrip | lwe_implementation.py:31-45 | `bits_to_text(text_to_bits(t)) == t` for every `t` whose character codes are all below 256 |
| BitCodec.BitsRoundTrip | lwe_implementation.py:31-45 | `text_to_bits(bits_to_text(bits)) == bits` for 0/1 sequences whose length is a multiple of 8 |
| BitCodec.ShortChunkIsZeroPadded | lwe_implementation.py:41-43 | a short last chunk has the value of the same bits padded with zeros to 8, so they are the character's high-order bits |
| BitCodec.ZeroChunk | lwe_implementation.py:43 | a chunk that is zero from `start` on contributes 0 |
| Rsa.ExtendedGcd | rsa_implementation.py:5-9 | returns `(g, x, y)` with `a·x + b·y == g` for all integers, and terminates for negative arguments too |
| Rsa.ExtendedGcdDivides | rsa_implementation.py:5-9 | for `a, b >= 0`, `g` is non-negative and divides both `a` and `b` |
| Rsa.ExtendedGcdIsGcd | rsa_implementation.py:5-9 | for `a, b >= 0`, `g == math.gcd(a, b)` |
| Rsa.ModInv | rsa_implementation.py:11-15 | for `m > 0` a returned `x` is in `[0, m)`; for `m > 1`, `(a·x) mod m == 1`; for `a >= 0, m >= 1`, it raises exactly when `gcd(a, m) != 1` |
| Rsa.ModInvRejectsZeroModulus | rsa_implementation.py:11-15 | `modinv(1, 0)` raises on `x % 0`, although `gcd(1, 0) == 1` |
| Rsa.ModInvRejectsNegativeModulus | rsa_implementation.py:11-15 | `modinv(0, -1)` raises, although `gcd(0, -1) == 1`, because `extended_gcd` returns `g = -1` |
| Rsa.ModInvRejectsNegativeUnit | rsa_implementation.py:11-15 | `modinv(-1, 5)` raises, although `gcd(-1, 5) == 1` and 4 inverts -1 modulo 5, because `extended_gcd` returns `g = -1` |
| Rsa.TextToInt | rsa_implementation.py:17-21 | the loop returns the value of the text read as base-256 digits, most significant first |
| Rsa.IntText | rsa_implementation.py:23-28 | the digits of `n` are empty exactly when `n <= 0`, all have codes below 256, and never start with `chr(0)` |
| Rsa.IntToText | rsa_implementation.py:23-28 | the loop returns the base-256 digits of `n`, most significant first |
| Rsa.TextValueBound | rsa_implementation.py:17-21 | a text of `L` characters with codes below 256 encodes a number below `256^L` |
| Rsa.LeadingNulIsLost | rsa_implementation.py:17-21 | prefixing `chr(0)` does not change the encoded number |
| Rsa.TextValuePositive | rsa_implementation.py:17-21 | a non-empty text that does not start with `chr(0)` encodes a positive number |
| Rsa.TextRoundTrip | rsa_implementation.py:17-28 | `int_to_text(text_to_int(t)) == t` for byte texts that do not start with `chr(0)` |
| Rsa.IntRoundTrip | rsa_implementation.py:17-28 | `text_to_int(int_to_text(n)) == n` for every `n >= 0`, so `int_to_text(0) == ""` |
| Rsa.RsaEncrypt | rsa_implementation.py:30-34 | raises `ValueError` exactly when `text_to_int(message) >= n`; otherwise returns `m^e mod n`, which lies in `[0, n)` |
| Rsa.RsaDecrypt | rsa_implementation.py:36-38 | the text's number is `pow(c, d, n)`, and the text has byte characters and no leading `chr(0)` |
| Rsa.DemoPrivateExponent | rsa_implementation.py:44-48 | `modinv(17, 60·52) == 2753` |
| Rsa.DemoEncryption | rsa_implementation.py:53-57 | `rsa_encrypt("A", 17, 3233) == 2790` |
| Rsa.DemoDecryption | rsa_implementation.py:60 | `rsa_decrypt(2790, 2753, 3233) == "A"` |
| Shor.FindPeriod | shors_algorithm.py:5-13 | for `0 <= a < n` the loop terminates. A returned `r` lies in `1..n` with `a^r mod n == 1` and `a^k mod n != 1` for all `1 <= k < r`. `None` is returned only when `a^k mod n != 1` for every `1 <= k <= n` |
| Shor.OrderUnique | shors_algorithm.py:5-13 | there is at most one order, so the returned period is determined |
| Shor.FindPeriodSpecUnique | shors_algorithm.py:5-13 | two results that both meet the period specification are equal |
| Shor.ShorAttempt | shors_algorithm.py:15-36 | an even `n` gives `(2, n//2)`. Any returned pair multiplies to `n`, and for odd `n` both factors lie strictly between 1 and `n`. A base sharing a factor with `n` yields `(gcd(a, n), n//gcd(a, n))`. A coprime base succeeds exactly when its order `r` is even, `a^(r/2) mod n != n−1` and the two gcds multiply to `n`; it then returns `(gcd(x+1, n), gcd(x−1, n))` |
| Shor.SharedFactor | shors_algorithm.py:20-23 | for `2 <= a <= n−1` with `gcd(a, n) != 1`, `1 < g < n`, `1 < n//g < n` and `g·(n//g) == n` |
| Shor.ProperCofactor | shors_algorithm.py:23 | the cofactor of a proper factor is proper |
| Shor.NontrivialSplit | shors_algorithm.py:29-36 | when the period branch succeeds on an odd `n`, both `gcd(x+1, n)` and `gcd(x−1, n)` lie strictly between 1 and `n` |
| MainHelpers.ExtendedGcd | main.py:10-19 | the copy returns `(g, x, y)` with `a·x + b·y == g`, as its doc-comment says |
| MainHelpers.ExtendedGcdAgrees | main.py:10-19 | the copy returns the same triple as rsa_implementation.py's `extended_gcd` on every input |
| MainHelpers.ExtendedGcdReturnsGcd | main.py:10-19 | for `a, b >= 0` the copy's `g` is `gcd(a, b)`, as its doc-comment says |
| MainHelpers.ModInv | main.py:21-29 | the copy's result `x` has `(a·x) mod m == 1` for `m > 1`, as its doc-comment says, lies in `[0, m)`, and for `a >= 0` and `m >= 1` the copy raises exactly when the gcd is not 1 |
| MainHelpers.ModInvAgrees | main.py:21-29 | the copy agrees with rsa_implementation.py's `modinv` on every input |
| MainHelpers.TextToInt | main.py:31-36 | the copy computes the same base-256 value as rsa_implementation.py's `text_to_int` |
| MainHelpers.IntToText | main.py:38-44 | the copy computes the same digits as rsa_implementation.py's `int_to_text` |
| MainHelpers.TextIntRoundTrip | main.py:31-44 | the copies compose to the identity on byte texts without a leading `chr(0)` |
| MainHelpers.FindPeriod | main.py:46-60 | the copy meets the same period specification as shors_algorithm.py's `find_period`, and so returns the same result |
| MainHelpers.PhiNonNegative | main.py:101-102 | factors whose product is positive give a non-negative `phi` |
| MainHelpers.RecoverMessage | main.py:101-104 | the step is skipped exactly when `p·q != n`. A recovered `d` lies in `[0, phi)` and inverts `e` modulo `phi`. For `e >= 0` and `phi >= 1`, `modinv` raises exactly when `gcd(e, phi) != 1`. The recovered message's number is `pow(c, d, n)`, and the message consists of byte characters and does not start with `chr(0)`, which together with `Rsa.TextRoundTrip` fixes it as `int_to_text(pow(c, d, n))` |
| MainHelpers.DemoModulusFactors | main.py:98-101 | the only factor pairs of 3233 above 1 are `(61, 53)` and `(53, 61)` |
| MainHelpers.DemoKeyRecovery | main.py:101-104 | every factor pair of 3233 above 1 recovers the original `d = 2753` and decrypts 2790 to "A" |
| MainHelpers.AttackDemoKey | main.py:98-104 | the attempt goes on to key recovery exactly when one pass of `shor_factor(3233)` returns factors: when `gcd(a, 3233) != 1`, or when the order of `a` splits 3233. Key recovery then yields `d = 2753` and the message "A" |

## Left out

- Random draws (`random.randint`) are not modelled. `A`, `s`, `e`, `r` and Shor's base `a` are inputs restricted to the ranges drawn from, so probabilities are not modelled. In particular, the failure rate of LWE decryption is not modelled: only the deterministic noise-bound theorems are stated.
- NumPy is not modelled as a library. Arrays are sequences of unbounded integers, so the 64-bit overflow of NumPy's integer arrays is not modelled. With the parameters used, every value fits in 64 bits.
- Lwe.KeyGen: requires `m >= 1` and `q >= 1`. With `m = 0`, `A` is a one-dimensional empty array of shape `(0,)`, so for `n >= 1` the `A.dot(s)` of line 14 raises ValueError, because the shapes `(0,)` and `(n,)` are not aligned. For `q <= 0` with `m·n >= 1`, `randint(0, q−1)` raises ValueError. With `n = 0` no draw happens, and `A` and `s` are empty float arrays, so line 14 computes a float array. NumPy's float `% 0` gives nan with a RuntimeWarning and raises nothing, so for `q == 0` the key's `b` is all nan. For `q < 0` the entries of `b` lie in `(q, 0]`. None of these cases is modelled.
- Lwe.Encrypt: requires a well-formed key with at least one sample. It also requires `q >= 1`. Lines 21-22 reduce NumPy integers: `r.dot(A)` is an int64 array and `r.dot(b)` an int64 scalar. NumPy's integer `% 0` gives 0 with a RuntimeWarning and raises nothing, so for `q == 0` `lwe_encrypt` returns `(zeros, 0)`. For `q < 0` the residues lie in `(q, 0]`. Neither case is modelled.
- Lwe.Noisy: requires `len(u) == len(s)` and `q >= 1`. NumPy's `u.dot(s)` at line 28 raises ValueError when the lengths differ. `v - u.dot(s)` is an int64 scalar, so for `q == 0` its `% q` gives 0 with a RuntimeWarning instead of raising. For `q < 0` it gives a residue in `(q, 0]`. None of these cases is modelled.
- Lwe.Decrypt: requires `len(u) == len(s)` and `q >= 1`, for the same reasons as `Lwe.Noisy`. The ValueError of a length mismatch is not modelled. Nor are the results for `q <= 0`: for `q == 0` the result is 0 and `abs(0 − 0) < 0` is false, so `lwe_decrypt` returns 0.
- `shor_factor`'s `while True` retry loop is not modelled. `Shor.ShorAttempt` models one pass, and `Retry` stands for `continue`.
- Shor.FindPeriod: requires `0 <= a < n`, which every caller guarantees. For larger `a` the returned `r` need not be minimal, and that behaviour is not modelled.
- Shor.ShorAttempt: requires `2 <= a <= n − 1` for odd `n`, the range `random.randint(2, n−1)` draws from. For odd `n < 3` (for example `shor_factor(1)`), that call raises ValueError (shors_algorithm.py:20), which is not modelled.
- Shor.ShorAttempt: the model does not prove that a coprime base always has an order of at most `n`, which is Euler's theorem. The `None` branch of `find_period` is therefore handled but not shown to be unreachable.
- The model has no general RSA correctness theorem (Euler/Fermat). Correctness is shown on the demonstration key (61, 53, 17).
- A general statement that any factor pair gives the original `d` is not modelled: it fails for composite factors, and needs unique factorisation. It is proved for the demonstration modulus 3233.
- Rsa.RsaDecrypt: has no ciphertext range check, as `rsa_decrypt` has none; RSADP's rejection of a ciphertext outside `[0, n−1]` is therefore not part of the model. It requires `n > 0` and `d >= 0`. Python's `pow` raises ValueError for `n == 0`. For `n < 0` it returns a residue in `(n, 0]`, so `rsa_decrypt` returns "". For a negative exponent it inverts the base. None of these cases is modelled.
- Rsa.RsaEncrypt: `e` is a natural number, so `pow` with a negative exponent is not modelled.
- Rsa.ModInv: the "raises exactly when the gcd is not 1" clause is stated only for `a >= 0` and `m >= 1`, because the source breaks it elsewhere. For negative `a`, `extended_gcd` can return `-1` (`modinv(-1, 5)` raises, `Rsa.ModInvRejectsNegativeUnit`). For `m == 0`, `x % 0` raises (`modinv(1, 0)`, `Rsa.ModInvRejectsZeroModulus`). For negative `m`, `extended_gcd` can return `-1` (`modinv(0, -1)`, `Rsa.ModInvRejectsNegativeModulus`). In each of these cases the gcd is 1.
- MainHelpers.ModInv: the same restriction to `a >= 0` and `m >= 1` as `Rsa.ModInv`, because the copy agrees with `Rsa.ModInv` on every input (`MainHelpers.ModInvAgrees`), so the same three inputs break the law for it.
- BitCodec.BitsToText: requires every bit to be 0 or 1. Other integers can make `chr` raise, or produce code points above 255, and that is not modelled.
- Characters are Dafny `char`s. Python code points that are not Unicode scalar values (surrogates) cannot occur in the model.
- The `main()` functions (printing, `try`/`except` and phase sequencing) are not modelled. Their concrete values appear in the demonstration lemmas.
