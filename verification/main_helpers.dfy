/**
 * main.py repeats `extended_gcd`, `modinv`, `text_to_int`, `int_to_text` and
 * `find_period` statement for statement (its `modinv` shadows the one it imports from
 * rsa_implementation.py), and then recovers the RSA private key from the factors that `shor_factor`
 * returns.  The copies are modelled as written and proved to coincide with
 * the definitions in the Rsa and Shor modules.
 */
module MainHelpers {
  import opened Wrappers
  import opened NumberTheory
  import Rsa
  import Shor

  // ---------------------------------------------------------------------
  // The duplicated helpers
  // ---------------------------------------------------------------------

  /** main.py's `extended_gcd`; its doc-comment promises `a*x + b*y == g`. */
  function ExtendedGcd(a: int, b: int): (r: (int, int, int))
    ensures a * r.1 + b * r.2 == r.0
    decreases Abs(a)
  {
    if a == 0 then
      (b, 0, 1)
    else
      var (g, y, x) := ExtendedGcd(FloorMod(b, a), a);
      Rsa.BezoutStep(a, b, FloorDiv(b, a), FloorMod(b, a), x, y, g);
      (g, x - FloorDiv(b, a) * y, y)
  }

  /** The copy computes the same triple as rsa_implementation.py's `extended_gcd`. */
  lemma {:induction false} ExtendedGcdAgrees(a: int, b: int)
    ensures ExtendedGcd(a, b) == Rsa.ExtendedGcd(a, b)
    decreases Abs(a)
  {
    if a != 0 {
      ExtendedGcdAgrees(FloorMod(b, a), a);
    }
  }

  /** The doc-comment's "gcd": for non-negative arguments the first component is `math.gcd(a, b)`. */
  lemma ExtendedGcdReturnsGcd(a: int, b: int)
    requires a >= 0 && b >= 0
    ensures ExtendedGcd(a, b).0 == Gcd(a, b)
  {
    ExtendedGcdAgrees(a, b);
    Rsa.ExtendedGcdIsGcd(a, b);
  }

  /**
   * main.py's `modinv`: `None` where it raises.  Its doc-comment promises
   * `(a * x) % m == 1`; for `a >= 0` and `m >= 1` it raises exactly when
   * the gcd is not 1.
   */
  function ModInv(a: int, m: int): (r: Option<int>)
    ensures m > 0 && r.Some? ==> 0 <= r.value < m
    ensures m > 1 && r.Some? ==> (a * r.value) % m == 1
    ensures a >= 0 && m >= 1 ==> (r.None? <==> Gcd(a, m) != 1)
  {
    ExtendedGcdAgrees(a, m);
    Rsa.GcdOfNonNegative(a, m);
    var (g, x, y) := ExtendedGcd(a, m);
    Rsa.InverseFromBezout(a, m, x, y);
    if g != 1 || m == 0 then None else Some(FloorMod(x, m))
  }

  /** The copy agrees with rsa_implementation.py's `modinv` on every input. */
  lemma ModInvAgrees(a: int, m: int)
    ensures ModInv(a, m) == Rsa.ModInv(a, m)
  {
    ExtendedGcdAgrees(a, m);
  }

  /** main.py's `text_to_int`, the same accumulation as rsa_implementation.py's. */
  method TextToInt(text: string) returns (result: nat)
    ensures result == Rsa.TextValue(text)
  {
    result := 0;
    for i := 0 to |text|
      invariant result == Rsa.TextValue(text[..i])
    {
      assert text[..i + 1][..i] == text[..i];
      result := result * 256 + text[i] as int;
    }
    assert text[..|text|] == text;
  }

  /** main.py's `int_to_text`, the same digit loop as rsa_implementation.py's. */
  method IntToText(n: int) returns (result: string)
    ensures result == Rsa.IntText(n)
  {
    var k := n;
    result := "";
    while k > 0
      invariant Rsa.IntText(n) == Rsa.IntText(k) + result
      decreases k
    {
      assert Rsa.IntText(k) == Rsa.IntText(k / 256) + [(k % 256) as char];
      result := [(k % 256) as char] + result;
      k := k / 256;
    }
  }

  /** The copies compose to the identity on byte texts without a leading NUL. */
  method TextIntRoundTrip(t: string) returns (back: string)
    requires IsByteText(t)
    requires t == [] || t[0] != 0 as char
    ensures back == t
  {
    var v := TextToInt(t);
    back := IntToText(v);
    Rsa.TextRoundTrip(t);
  }

  /**
   * main.py's `find_period`: its doc-comment promises `a^r ≡ 1 (mod n)`; the
   * specification it meets determines the result (`Shor.FindPeriodSpecUnique`),
   * so it returns what shors_algorithm.py's copy returns.
   */
  method FindPeriod(a: int, n: int) returns (res: Option<int>)
    requires 0 <= a < n
    ensures Shor.FindPeriodSpec(a, n, res)
  {
    var x := a;
    var r := 1;
    ModUnique(a, 0, a, n);
    while x != 1
      invariant 1 <= r <= n
      invariant x == Pow(a, r) % n
      invariant forall k :: 1 <= k < r ==> Pow(a, k) % n != 1
      decreases n - r
    {
      MultiplyStep(a, r + 1, x, n);
      assert x * a == a * x;
      x := (x * a) % n;
      r := r + 1;
      if r > n {
        return None;
      }
    }
    return Some(r);
  }

  // ---------------------------------------------------------------------
  // Recovering the private key from the factors
  // ---------------------------------------------------------------------

  /** How the key-recovery step ends: factors rejected, `modinv` raising, or a key and a message. */
  datatype Recovery = NotFactored | NoInverse | Recovered(d: int, message: string)

  /** A factorisation of a positive number leaves `(p-1)*(q-1)` non-negative. */
  lemma PhiNonNegative(p: int, q: int, n: int)
    requires n > 0 && p * q == n
    ensures (p - 1) * (q - 1) >= 0
  {
    var x, y := p - 1, q - 1;
    if p > 0 {
      assert q > 0;
      assert x >= 0 && y >= 0;
    } else {
      assert q < 0;
      assert x * y == (-x) * (-y);
    }
  }

  /**
   * The step after `shor_factor` in main.py: when the factors multiply to
   * `n`, `phi = (p-1)*(q-1)`, `d = modinv(e, phi)`, and the ciphertext is
   * decrypted with `d`.
   */
  function RecoverMessage(n: int, e: int, ciphertext: int, p: int, q: int): (res: Recovery)
    requires n > 0
    ensures res.NotFactored? <==> p * q != n
    ensures res.Recovered? ==> 0 <= res.d < (p - 1) * (q - 1)
    ensures res.Recovered? && (p - 1) * (q - 1) > 1 ==> (e * res.d) % ((p - 1) * (q - 1)) == 1
    ensures e >= 0 && p * q == n && (p - 1) * (q - 1) >= 1 ==>
      (res.NoInverse? <==> Gcd(e, (p - 1) * (q - 1)) != 1)
    ensures res.Recovered? ==> Rsa.TextValue(res.message) == ModPow(ciphertext, res.d, n)
    ensures res.Recovered? ==> IsByteText(res.message) && (res.message == [] || res.message[0] != 0 as char)
  {
    if p * q != n then
      NotFactored
    else
      var phi := (p - 1) * (q - 1);
      PhiNonNegative(p, q, n);
      match ModInv(e, phi)
      case None => NoInverse
      case Some(d) => Recovered(d, Rsa.RsaDecrypt(ciphertext, d, n))
  }

  /** `n % lo`, ..., `n % (hi-1)` are all non-zero (evaluated on literals). */
  function NoDivisorIn(n: nat, lo: nat, hi: nat): bool
    decreases hi - lo
  {
    lo >= hi || (lo > 0 && n % lo != 0 && NoDivisorIn(n, lo + 1, hi))
  }

  lemma {:induction false} NoDivisorInSound(n: nat, lo: nat, hi: nat, k: int)
    requires NoDivisorIn(n, lo, hi) && lo <= k < hi
    ensures k > 0 && n % k != 0
    decreases hi - lo
  {
    if k > lo {
      NoDivisorInSound(n, lo + 1, hi, k);
    }
  }

  /** 3233 = 61 * 53 has no other factorisation into two numbers above 1. */
  lemma DemoModulusFactors(p: int, q: int)
    requires p > 1 && q > 1 && p * q == 61 * 53
    ensures (p == 61 && q == 53) || (p == 53 && q == 61)
  {
    if p <= q {
      SmallerFactorIs53(p, q);
    } else {
      SmallerFactorIs53(q, p);
    }
  }

  lemma SmallerFactorIs53(s: int, t: int)
    requires 1 < s <= t && s * t == 3233
    ensures s == 53 && t == 61
  {
    SmallerFactorBound(s, t);
    ModUnique(3233, t, 0, s);
    DemoModulusDivisors();
    if s < 53 {
      NoDivisorInSound(3233, 2, 53, s);
    } else if s > 53 {
      NoDivisorInSound(3233, 54, 57, s);
    }
  }

  /** The smaller of two factors of 3233 is at most 56, since 57 * 57 > 3233. */
  lemma SmallerFactorBound(s: int, t: int)
    requires 1 < s <= t && s * t == 3233
    ensures s <= 56
  {
    if s >= 57 {
      MulAtLeast(s, 57);
    }
  }

  /** Trial division of 3233 by 2..52 and 54..56, evaluated in steps of eight divisors. */
  lemma DemoModulusDivisors()
    ensures NoDivisorIn(3233, 2, 53) && NoDivisorIn(3233, 54, 57)
  {
    assert NoDivisorIn(3233, 45, 53);
    assert NoDivisorIn(3233, 37, 53);
    assert NoDivisorIn(3233, 29, 53);
    assert NoDivisorIn(3233, 21, 53);
    assert NoDivisorIn(3233, 13, 53);
    assert NoDivisorIn(3233, 5, 53);
  }

  /**
   * For the demonstration key (p, q, e) = (61, 53, 17) and ciphertext 2790,
   * every factor pair above 1 gives back the original private exponent 2753
   * and the message "A".
   */
  lemma DemoKeyRecovery(p: int, q: int)
    requires p > 1 && q > 1 && p * q == 61 * 53
    ensures ModInv(17, (61 - 1) * (53 - 1)) == Some(2753)
    ensures RecoverMessage(61 * 53, 17, 2790, p, q) == Recovered(2753, "A")
  {
    DemoModulusFactors(p, q);
    assert (p - 1) * (q - 1) == 3120;
    ModInvAgrees(17, 3120);
    Rsa.DemoPrivateExponent();
    Rsa.DemoDecryption();
  }

  /**
   * One attempt at the demonstration key, as main.py chains it: factor 3233
   * with base `a`, then recover the key and decrypt 2790.  Whenever the
   * attempt returns factors, the recovery yields d = 2753 and "A".
   */
  method AttackDemoKey(a: int) returns (outcome: Option<Recovery>)
    requires 2 <= a <= 61 * 53 - 1
    ensures outcome.None? || outcome == Some(Recovered(2753, "A"))
    ensures outcome.Some? <==>
      (Gcd(a, 61 * 53) != 1 || exists r :: Shor.IsOrder(a, 61 * 53, r) && Shor.Splits(a, 61 * 53, r))
  {
    var attempt := Shor.ShorAttempt(61 * 53, a);
    if attempt.Retry? {
      return None;
    }
    DemoKeyRecovery(attempt.p, attempt.q);
    return Some(RecoverMessage(61 * 53, 17, 2790, attempt.p, attempt.q));
  }
}
