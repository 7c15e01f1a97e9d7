/**
 * The number-theory helpers and textbook RSA of rsa_implementation.py:
 * the extended Euclidean algorithm, the modular inverse, the base-256
 * conversion between text and integers, and unpadded RSA encryption and
 * decryption (RSAEP and RSADP of sections 5.1.1 and 5.1.2 of RFC 8017,
 * without the fixed-length octet-string layer and without RSADP's check
 * that the ciphertext lies in `[0, n-1]`).
 */
module Rsa {
  import opened Wrappers
  import opened NumberTheory

  // ---------------------------------------------------------------------
  // Extended Euclid and the modular inverse
  // ---------------------------------------------------------------------

  /**
   * `extended_gcd(a, b)`: a triple `(g, x, y)` with `a*x + b*y == g`.
   * Division and remainder are Python's (rounding toward minus infinity), so
   * the recursion also terminates for negative arguments.
   */
  function ExtendedGcd(a: int, b: int): (r: (int, int, int))
    ensures a * r.1 + b * r.2 == r.0
    decreases Abs(a)
  {
    if a == 0 then
      (b, 0, 1)
    else
      var (g, y, x) := ExtendedGcd(FloorMod(b, a), a);
      BezoutStep(a, b, FloorDiv(b, a), FloorMod(b, a), x, y, g);
      (g, x - FloorDiv(b, a) * y, y)
  }

  lemma BezoutStep(a: int, b: int, q: int, rem: int, x: int, y: int, g: int)
    requires b == a * q + rem && rem * y + a * x == g
    ensures a * (x - q * y) + b * y == g
  {
    calc {
      a * (x - q * y) + b * y;
      a * x - a * (q * y) + (a * q + rem) * y;
      a * x - (a * q) * y + (a * q) * y + rem * y;
      g;
    }
  }

  /** For non-negative arguments the first component divides both of them. */
  lemma {:induction false} ExtendedGcdDivides(a: int, b: int)
    requires a >= 0 && b >= 0
    ensures ExtendedGcd(a, b).0 >= 0
    ensures Divides(ExtendedGcd(a, b).0, a) && Divides(ExtendedGcd(a, b).0, b)
    decreases a
  {
    var g := ExtendedGcd(a, b).0;
    if a == 0 {
      DividesMultiple(b, 0);
      DividesMultiple(b, 1);
    } else {
      ExtendedGcdDivides(FloorMod(b, a), a);
      DividesLinear(g, a, FloorMod(b, a), FloorDiv(b, a));
    }
  }

  /** For non-negative arguments `extended_gcd` returns `math.gcd` as its first component. */
  lemma ExtendedGcdIsGcd(a: int, b: int)
    requires a >= 0 && b >= 0
    ensures ExtendedGcd(a, b).0 == Gcd(a, b)
  {
    var r := ExtendedGcd(a, b);
    ExtendedGcdDivides(a, b);
    GcdGreatest(r.0, a, b);
    var h := Gcd(a, b);
    DividesLinear(h, a, 0, r.1);
    DividesLinear(h, b, r.1 * a, r.2);
    assert r.2 * b + r.1 * a == r.0;
    DividesAntisymmetric(r.0, h);
  }

  /**
   * `modinv(a, m)`: `None` where Python raises, either the explicit exception
   * when the gcd returned by `extended_gcd` is not 1, or the division by zero
   * of `x % m` when `m == 0`.
   */
  function ModInv(a: int, m: int): (r: Option<int>)
    ensures m > 0 && r.Some? ==> 0 <= r.value < m
    ensures m > 1 && r.Some? ==> (a * r.value) % m == 1
    ensures a >= 0 && m >= 1 ==> (r.None? <==> Gcd(a, m) != 1)
  {
    var (g, x, y) := ExtendedGcd(a, m);
    GcdOfNonNegative(a, m);
    InverseFromBezout(a, m, x, y);
    if g != 1 || m == 0 then None else Some(FloorMod(x, m))
  }

  lemma GcdOfNonNegative(a: int, m: int)
    ensures a >= 0 && m >= 0 ==> ExtendedGcd(a, m).0 == Gcd(a, m)
  {
    if a >= 0 && m >= 0 {
      ExtendedGcdIsGcd(a, m);
    }
  }

  /** A Bezout identity `a*x + m*y == 1` makes `x mod m` an inverse of `a`. */
  lemma InverseFromBezout(a: int, m: int, x: int, y: int)
    ensures m > 1 && a * x + m * y == 1 ==> (a * (x % m)) % m == 1
  {
    if m > 1 && a * x + m * y == 1 {
      ModMod(x, m);
      ModMulRight(a, x % m, x, m);
      assert a * x == 1 + (-y) * m;
      ModAddMultiple(1, -y, m);
    }
  }

  /** For a negative first argument `extended_gcd` can return -1, and then `modinv` raises although 4 inverts -1 modulo 5. */
  lemma ModInvRejectsNegativeUnit()
    ensures Gcd(-1, 5) == 1 && (-1 * 4) % 5 == 1
    ensures ModInv(-1, 5) == None
  {
    assert ExtendedGcd(0, -1) == (-1, 0, 1);
    assert ExtendedGcd(-1, 5) == (-1, 1, 0);
    assert Divides(1, -1) && Divides(1, 5);
    DividesBound(Gcd(-1, 5), -1);
  }

  /** For `m == 0` the raise-iff-gcd law fails: `modinv(1, 0)` raises on `x % 0` although `gcd(1, 0) == 1`. */
  lemma ModInvRejectsZeroModulus()
    ensures Gcd(1, 0) == 1 && ModInv(1, 0) == None
  {
    assert Divides(1, 1) && Divides(1, 0);
    DividesBound(Gcd(1, 0), 1);
  }

  /** For `m < 0` it fails too: `extended_gcd(0, -1)` returns -1, so `modinv(0, -1)` raises although `gcd(0, -1) == 1`. */
  lemma ModInvRejectsNegativeModulus()
    ensures Gcd(0, -1) == 1 && ModInv(0, -1) == None
  {
    assert ExtendedGcd(0, -1) == (-1, 0, 1);
    assert Divides(1, 0) && Divides(1, -1);
    DividesBound(Gcd(0, -1), -1);
  }

  // ---------------------------------------------------------------------
  // Text <-> integer (base 256, most significant character first)
  // ---------------------------------------------------------------------

  /** The value `text_to_int` accumulates: `t`'s codes as base-256 digits, most significant first. */
  function TextValue(t: string): nat
    decreases |t|
  {
    if |t| == 0 then 0 else TextValue(t[..|t| - 1]) * 256 + t[|t| - 1] as int
  }

  /** `text_to_int`: the loop `result = result * 256 + ord(char)`. */
  method TextToInt(text: string) returns (result: nat)
    ensures result == TextValue(text)
  {
    result := 0;
    for i := 0 to |text|
      invariant result == TextValue(text[..i])
    {
      assert text[..i + 1][..i] == text[..i];
      result := result * 256 + text[i] as int;
    }
    assert text[..|text|] == text;
  }

  /**
   * The string `int_to_text` builds: base-256 digits of `n`, most significant
   * first, empty for `n <= 0`.  It never starts with a NUL character.
   */
  function IntText(n: int): (t: string)
    ensures t == [] <==> n <= 0
    ensures IsByteText(t)
    ensures t != [] ==> t[0] != 0 as char
    decreases n
  {
    if n <= 0 then [] else IntText(n / 256) + [(n % 256) as char]
  }

  /** `int_to_text`: the loop prepending `chr(n % 256)` while `n > 0`. */
  method IntToText(n: int) returns (result: string)
    ensures result == IntText(n)
  {
    var k := n;
    result := "";
    while k > 0
      invariant IntText(n) == IntText(k) + result
      decreases k
    {
      assert IntText(k) == IntText(k / 256) + [(k % 256) as char];
      result := [(k % 256) as char] + result;
      k := k / 256;
    }
  }

  /** A text of `L` byte characters encodes a number below `256^L`. */
  lemma {:induction false} TextValueBound(t: string)
    requires IsByteText(t)
    ensures TextValue(t) < Pow(256, |t|)
    decreases |t|
  {
    if |t| > 0 {
      var init := t[..|t| - 1];
      assert IsByteText(init);
      TextValueBound(init);
      assert TextValue(t) <= (Pow(256, |t| - 1) - 1) * 256 + 255;
    }
  }

  /** Leading NUL characters do not change the encoded number, so they cannot survive a round trip. */
  lemma {:induction false} LeadingNulIsLost(t: string)
    ensures TextValue([0 as char] + t) == TextValue(t)
    decreases |t|
  {
    if |t| > 0 {
      var init := t[..|t| - 1];
      assert ([0 as char] + t)[..|t|] == [0 as char] + init;
      LeadingNulIsLost(init);
    }
  }

  lemma {:induction false} TextValuePositive(t: string)
    requires |t| > 0 && t[0] != 0 as char
    ensures TextValue(t) > 0
    decreases |t|
  {
    if |t| > 1 {
      TextValuePositive(t[..|t| - 1]);
    }
  }

  /** `int_to_text(text_to_int(t)) == t` for byte texts without a leading NUL. */
  lemma {:induction false} TextRoundTrip(t: string)
    requires IsByteText(t)
    requires t == [] || t[0] != 0 as char
    ensures IntText(TextValue(t)) == t
    decreases |t|
  {
    if |t| > 0 {
      var init := t[..|t| - 1];
      var c := t[|t| - 1] as int;
      TextValuePositive(t);
      ModUnique(TextValue(t), TextValue(init), c, 256);
      assert IsByteText(init);
      TextRoundTrip(init);
      assert t == init + [c as char];
    }
  }

  /** `text_to_int(int_to_text(n)) == n` for every non-negative `n`. */
  lemma {:induction false} IntRoundTrip(n: int)
    requires n >= 0
    ensures TextValue(IntText(n)) == n
    decreases n
  {
    if n > 0 {
      IntRoundTrip(n / 256);
      var t := IntText(n);
      assert t[..|t| - 1] == IntText(n / 256);
    }
  }

  // ---------------------------------------------------------------------
  // Textbook RSA
  // ---------------------------------------------------------------------

  datatype RsaError = MessageTooLarge

  /**
   * `rsa_encrypt`: `ValueError` when the message number is not below the
   * modulus, otherwise `m^e mod n`.
   */
  function RsaEncrypt(message: string, e: nat, n: int): (r: Result<int, RsaError>)
    ensures r.Err? <==> TextValue(message) >= n
    ensures r.Ok? ==> 0 <= r.value < n && r.value == Pow(TextValue(message), e) % n
  {
    var m := TextValue(message);
    if m >= n then
      Err(MessageTooLarge)
    else
      ModPowIsPowMod(m, e, n);
      Ok(ModPow(m, e, n))
  }

  /**
   * `rsa_decrypt`: the text whose number is `pow(c, d, n)`, that is
   * `c^d mod n` (`ModPowIsPowMod`).  Any integer ciphertext is accepted.
   */
  function RsaDecrypt(ciphertext: int, d: nat, n: int): (r: string)
    requires n > 0
    ensures TextValue(r) == ModPow(ciphertext, d, n)
    ensures IsByteText(r) && (r == [] || r[0] != 0 as char)
  {
    var m := ModPow(ciphertext, d, n);
    IntRoundTrip(m);
    IntText(m)
  }

  /** The demonstration key p = 61, q = 53, e = 17: `modinv(17, phi)` is 2753. */
  lemma DemoPrivateExponent()
    ensures ModInv(17, (61 - 1) * (53 - 1)) == Some(2753)
  {
    assert ExtendedGcd(0, 1) == (1, 0, 1);
    assert ExtendedGcd(1, 8) == (1, 1, 0);
    assert ExtendedGcd(8, 9) == (1, -1, 1);
    assert ExtendedGcd(9, 17) == (1, 2, -1);
    assert ExtendedGcd(17, 3120) == (1, -367, 2);
  }

  /** Encrypting "A" (the number 65) under (e, n) = (17, 3233) gives 2790. */
  lemma DemoEncryption()
    ensures RsaEncrypt("A", 17, 61 * 53) == Ok(2790)
  {
    assert TextValue("A") == 65;
    assert ModPow(65, 0, 3233) == 1;
    assert ModPow(65, 1, 3233) == 65;
    assert ModPow(65, 2, 3233) == 992;
    assert ModPow(65, 4, 3233) == 1232;
    assert ModPow(65, 8, 3233) == 1547;
    assert ModPow(65, 16, 3233) == 789;
    assert ModPow(65, 17, 3233) == 2790;
  }

  /** Decrypting 2790 with d = 2753 gives back "A". */
  lemma DemoDecryption()
    ensures RsaDecrypt(2790, 2753, 61 * 53) == "A"
  {
    assert ModPow(2790, 0, 3233) == 1;
    assert ModPow(2790, 1, 3233) == 2790;
    assert ModPow(2790, 2, 3233) == 2269;
    assert ModPow(2790, 4, 3233) == 1425;
    assert ModPow(2790, 5, 3233) == 2393;
    assert ModPow(2790, 10, 3233) == 806;
    assert ModPow(2790, 20, 3233) == 3036;
    assert ModPow(2790, 21, 3233) == 3213;
    assert ModPow(2790, 42, 3233) == 400;
    assert ModPow(2790, 43, 3233) == 615;
    assert ModPow(2790, 86, 3233) == 3197;
    assert ModPow(2790, 172, 3233) == 1296;
    assert ModPow(2790, 344, 3233) == 1689;
    assert ModPow(2790, 688, 3233) == 1215;
    assert ModPow(2790, 1376, 3233) == 1977;
    assert ModPow(2790, 2752, 3233) == 3065;
    assert ModPow(2790, 2753, 3233) == 65;
    assert IntText(65) == IntText(0) + [65 as char];
  }
}
