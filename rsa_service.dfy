/** The deterministic parts of `RSAService` (lab2): the range checks of RSAEP and RSADP
 *  (sections 5.1.1 and 5.1.2 of RFC 8017) around `modPow`, the binary-search square root,
 *  selection of the public exponent, the private exponent as a modular inverse, the two
 *  security predicates and the argument checks of `KeyGenerator`. */
module RsaService {
  import opened Wrappers
  import opened Integers
  import NT = NumberTheoryService

  datatype PublicKey = PublicKey(n: int, e: int)
  datatype PrivateKey = PrivateKey(n: int, d: int)

  datatype PrimalityTestType = Fermat | SolovayStrassen | MillerRabin

  /** What a `KeyGenerator` keeps of its arguments (its random source is not modelled). */
  datatype KeyGenerator = KeyGenerator(testType: PrimalityTestType, minProbability: real, bitLength: int)

  const ProbabilityRange := "minProbability must be in [0.5, 1)"
  const BitLengthTooSmall := "bitLength must be at least 8"

  /** The `KeyGenerator` constructor: `minProbability` must lie in [0.5, 1) and `bitLength`
   *  must be at least 8, checked in that order. */
  function NewKeyGenerator(testType: PrimalityTestType, minProbability: real, bitLength: int): (r: Result<KeyGenerator>)
    ensures !(0.5 <= minProbability < 1.0) ==> r == Err(IllegalArgument(ProbabilityRange))
    ensures 0.5 <= minProbability < 1.0 && bitLength < 8 ==> r == Err(IllegalArgument(BitLengthTooSmall))
    ensures r.Ok? <==> 0.5 <= minProbability < 1.0 && bitLength >= 8
    ensures r.Ok? ==> r.value == KeyGenerator(testType, minProbability, bitLength)
  {
    if minProbability < 0.5 || minProbability >= 1.0 then Err(IllegalArgument(ProbabilityRange))
    else if bitLength < 8 then Err(IllegalArgument(BitLengthTooSmall))
    else Ok(KeyGenerator(testType, minProbability, bitLength))
  }

  // ----------------------------------------------------------------------------------------
  // RSAEP and RSADP

  const MessageRange := "Message must be in range [0, n)"
  const CiphertextRange := "Ciphertext must be in range [0, n)"

  /** `encrypt(message, publicKey)`: RSAEP, `message^e mod n` for a message in [0, n). */
  method Encrypt(message: int, publicKey: PublicKey) returns (r: Result<int>)
    ensures !(0 <= message < publicKey.n) ==> r == Err(IllegalArgument(MessageRange))
    ensures 0 <= message < publicKey.n && publicKey.n == 1 ==> r == Ok(0)
    ensures 0 <= message < publicKey.n && publicKey.n > 1 && publicKey.e < 0 ==>
              r == Err(IllegalArgument("Negative exponent not supported"))
    ensures 0 <= message < publicKey.n && publicKey.e >= 0 ==>
              r == Ok(Pow(message, publicKey.e) % publicKey.n)
  {
    if message < 0 || message >= publicKey.n {
      return Err(IllegalArgument(MessageRange));
    }
    r := NT.ModPow(message, publicKey.e, publicKey.n);
  }

  /** `decrypt(ciphertext, privateKey)`: RSADP, `ciphertext^d mod n` for a ciphertext in
   *  [0, n). */
  method Decrypt(ciphertext: int, privateKey: PrivateKey) returns (r: Result<int>)
    ensures !(0 <= ciphertext < privateKey.n) ==> r == Err(IllegalArgument(CiphertextRange))
    ensures 0 <= ciphertext < privateKey.n && privateKey.n == 1 ==> r == Ok(0)
    ensures 0 <= ciphertext < privateKey.n && privateKey.n > 1 && privateKey.d < 0 ==>
              r == Err(IllegalArgument("Negative exponent not supported"))
    ensures 0 <= ciphertext < privateKey.n && privateKey.d >= 0 ==>
              r == Ok(Pow(ciphertext, privateKey.d) % privateKey.n)
  {
    if ciphertext < 0 || ciphertext >= privateKey.n {
      return Err(IllegalArgument(CiphertextRange));
    }
    r := NT.ModPow(ciphertext, privateKey.d, privateKey.n);
  }

  /** Whatever the key, a successful encryption or decryption lies in [0, n). */
  lemma {:induction false} ResultInRange(x: int, e: nat, n: int)
    requires n >= 1
    ensures 0 <= Pow(x, e) % n < n
  {
  }

  // ----------------------------------------------------------------------------------------
  // Integer square root

  const NegativeSqrt := "Cannot compute square root of negative number"

  /** `sqrt`: binary search for the largest `mid` with `mid * mid <= n`, returning early on an
   *  exact square. */
  method Sqrt(n: int) returns (r: Result<int>)
    ensures n < 0 ==> r == Err(IllegalArgument(NegativeSqrt))
    ensures n >= 0 ==> r == Ok(FloorSqrt(n)) && IsFloorSqrt(r.value, n)
  {
    if n < 0 {
      return Err(IllegalArgument(NegativeSqrt));
    }
    if n == 0 || n == 1 {
      FloorSqrtUnique(n, FloorSqrt(n), n);
      return Ok(n);
    }
    var left := 1;
    var right := n;
    var result := n;
    while left <= right
      invariant 1 <= left <= right + 1 && right <= n
      invariant (left - 1) * (left - 1) <= n < (right + 1) * (right + 1)
      invariant left >= 2 ==> result == left - 1
      decreases right - left
    {
      var mid := (left + right) / 2;
      var square := mid * mid;
      if square == n {
        assert IsFloorSqrt(mid, n) by {
          SquareMonotonic(mid, mid + 1);
          assert (mid + 1) * (mid + 1) == n + 2 * mid + 1;
        }
        FloorSqrtUnique(mid, FloorSqrt(n), n);
        return Ok(mid);
      } else if square < n {
        left := mid + 1;
        result := mid;
      } else {
        right := mid - 1;
      }
    }
    assert left >= 2;
    FloorSqrtUnique(result, FloorSqrt(n), n);
    r := Ok(result);
  }

  // ----------------------------------------------------------------------------------------
  // Exponents

  const StandardExponent := 65537

  /** An odd number just above twice `k` is coprime to `k`: the search for an odd coprime
   *  exponent stops by `2 * |phi| + 1`. */
  lemma {:induction false} CoprimeAboveDouble(k: nat)
    requires k >= 1
    ensures Euclid(2 * k + 1, k) == 1
  {
    if k > 1 {
      ModAddMultiple(k, 2, 1);
      NT.SmallMod(1, k);
      assert (2 * k + 1) % k == 1;
      assert Euclid(2 * k + 1, k) == Euclid(k, 1);
    }
  }

  /** `e` is the least odd number from 3 up that is coprime to `phi`. */
  predicate IsLeastOddCoprime(e: int, phi: int)
  {
    3 <= e && e % 2 == 1 && Euclid(e, Abs(phi)) == 1 &&
    forall e' | 3 <= e' < e && e' % 2 == 1 :: Euclid(e', Abs(phi)) != 1
  }

  /** The fallback loop of `selectPublicExponent` and `generateSmallD`: counting up through
   *  the odd numbers from 3 until one is coprime to `phi`, which happens by `2 * |phi| + 1`. */
  method LeastOddCoprime(phi: int) returns (e: int)
    requires phi != 0
    ensures e <= 2 * Abs(phi) + 1 && IsLeastOddCoprime(e, phi)
  {
    var bound := Abs(phi);
    e := 3;
    var g := NT.Gcd(e, phi);
    while g != 1
      invariant 3 <= e <= 2 * bound + 1 && e % 2 == 1
      invariant g == Euclid(e, bound)
      invariant forall e' | 3 <= e' < e && e' % 2 == 1 :: Euclid(e', bound) != 1
      decreases 2 * bound + 1 - e
    {
      OddSearchStep(e, bound);
      e := e + 2;
      g := NT.Gcd(e, phi);
    }
  }

  /** One step of the odd search: an odd `e` not coprime to `bound` is below `2 * bound + 1`,
   *  and every odd number up to `e + 2` has then been ruled out. */
  lemma {:induction false} OddSearchStep(e: int, bound: nat)
    requires 3 <= e <= 2 * bound + 1 && e % 2 == 1 && Euclid(e, bound) != 1
    requires forall e' | 3 <= e' < e && e' % 2 == 1 :: Euclid(e', bound) != 1
    ensures e + 2 <= 2 * bound + 1 && (e + 2) % 2 == 1
    ensures forall e' | 3 <= e' < e + 2 && e' % 2 == 1 :: Euclid(e', bound) != 1
  {
    CoprimeAboveDouble(bound);
    forall e' | 3 <= e' < e + 2 && e' % 2 == 1
      ensures Euclid(e', bound) != 1
    {
      if e' >= e {
        NextOdd(e, e');
      }
    }
  }

  /** The only odd number in [e, e + 2) is the odd `e` itself. */
  lemma {:induction false} NextOdd(e: int, e': int)
    requires e % 2 == 1 && e' % 2 == 1 && e <= e' < e + 2
    ensures e' == e
  {
  }

  /** `selectPublicExponent`: 65537 when it is below `phi` and coprime to it, otherwise the
   *  least odd exponent from 3 up coprime to `phi`. The modulus `n` is not used. */
  method SelectPublicExponent(phi: int, n: int) returns (e: int)
    requires phi != 0
    ensures StandardExponent < phi && Euclid(StandardExponent, Abs(phi)) == 1 ==> e == StandardExponent
    ensures !(StandardExponent < phi && Euclid(StandardExponent, Abs(phi)) == 1) ==>
              IsLeastOddCoprime(e, phi)
  {
    e := StandardExponent;
    var g := NT.Gcd(e, phi);
    if e >= phi || g != 1 {
      e := LeastOddCoprime(phi);
    }
  }

  /** If `e * x + phi * y == 1`, then `e * (x mod phi)` is 1 modulo `phi`. */
  lemma {:induction false} InverseOfBezout(e: int, x: int, y: int, phi: int)
    requires phi > 0 && e * x + phi * y == 1
    ensures (e * (x % phi)) % phi == 1 % phi
  {
    calc {
      (e * (x % phi)) % phi;
      { Integers.ModMul(e, x % phi, phi); Integers.ModMod(x, phi); Integers.ModMul(e, x, phi); }
      (e * x) % phi;
      { assert e * x == phi * -y + 1; Integers.ModAddMultiple(phi, -y, 1); }
      1 % phi;
    }
  }

  /** `computePrivateExponent`: the Bezout coefficient of `e` reduced modulo `phi`; `mod`
   *  rejects a `phi` that is not positive. The `d < 0` correction never applies, since `mod`
   *  already returns a value in [0, phi). */
  method ComputePrivateExponent(e: int, phi: int) returns (r: Result<int>)
    ensures phi <= 0 ==> r == Err(Arithmetic)
    ensures phi > 0 ==> r.Ok? && 0 <= r.value < phi
    ensures phi > 0 && Euclid(Abs(e), phi) == 1 ==> r.Ok? && (e * r.value) % phi == 1 % phi
  {
    var result := NT.ExtendedGcd(e, phi);
    if phi <= 0 {
      return Err(Arithmetic);
    }
    var d := result.x % phi;
    if Euclid(Abs(e), phi) == 1 {
      InverseOfBezout(e, result.x, result.y, phi);
    }
    r := Ok(d);
  }

  // ----------------------------------------------------------------------------------------
  // Security predicates

  /** `isSecureAgainstFermatAttack`: the primes differ by more than a third of their sum,
   *  with Java's truncating division. */
  function IsSecureAgainstFermatAttack(p: int, q: int): bool
  {
    Abs(p - q) > JavaDiv(p + q, 3)
  }

  /** For a non-negative sum the check is free of division: three times the difference exceeds
   *  the sum. */
  lemma {:induction false} FermatSecureIff(p: int, q: int)
    requires p + q >= 0
    ensures IsSecureAgainstFermatAttack(p, q) <==> p + q < 3 * Abs(p - q)
  {
    var s := p + q;
    assert s == 3 * (s / 3) + s % 3;
  }

  /** `isSecureAgainstWienerAttack`: `d` must exceed the floor square root of the floor square
   *  root of `n`; the value `n / 3` computed first is overwritten before use. */
  method IsSecureAgainstWienerAttack(e: int, d: int, n: int) returns (r: Result<bool>)
    ensures n < 0 ==> r == Err(IllegalArgument(NegativeSqrt))
    ensures n >= 0 ==> r == Ok(d > FloorSqrt(FloorSqrt(n)))
  {
    var sqrtN := Sqrt(n);
    if sqrtN.Err? {
      return Err(sqrtN.error);
    }
    var threshold := FloorSqrt(sqrtN.value);
    r := Ok(d > threshold);
  }

  /** The threshold is a fourth root: its fourth power is at most `n`. */
  lemma {:induction false} WienerThresholdBound(n: nat)
    ensures Pow(FloorSqrt(FloorSqrt(n)), 4) <= n
  {
    var s := FloorSqrt(n);
    var t := FloorSqrt(s);
    PowAdd(t, 2, 2);
    assert Pow(t, 1) == t;
    assert Pow(t, 2) == t * t;
    SquareMonotonic(t * t, s);
  }

  // ----------------------------------------------------------------------------------------
  // Prime and key generation, with the random draws given

  /** What `generatePrime` tests for a draw: a draw below 2 as it is, an even draw moved up
   *  to the next odd number. */
  function PrimeCandidate(draw: int): (c: int)
    ensures draw < 2 ==> c == draw
    ensures draw >= 2 ==> c % 2 == 1 && draw <= c <= draw + 1
  {
    if draw < 2 then draw else if draw % 2 == 0 then draw + 1 else draw
  }

  /** The candidate of the first draw that the primality test accepts. */
  function FirstPrime(draws: seq<int>, isProbablyPrime: int -> bool): Option<int>
  {
    if |draws| == 0 then None
    else if isProbablyPrime(PrimeCandidate(draws[0])) then Some(PrimeCandidate(draws[0]))
    else FirstPrime(draws[1..], isProbablyPrime)
  }

  /** `generatePrime` over the given draws (the values of `new BigInteger(bitLength, random)`),
   *  with `isProbablyPrime` standing for the configured test and its random witnesses.
   *  `None` means the draws ran out before a candidate passed. */
  method GeneratePrime(draws: seq<int>, isProbablyPrime: int -> bool) returns (r: Option<int>)
    ensures r == FirstPrime(draws, isProbablyPrime)
  {
    var i := 0;
    while i < |draws|
      invariant 0 <= i <= |draws|
      invariant FirstPrime(draws[i..], isProbablyPrime) == FirstPrime(draws, isProbablyPrime)
    {
      var candidate := draws[i];
      assert draws[i..][1..] == draws[i + 1..];
      if candidate >= 2 && candidate % 2 == 0 {
        candidate := candidate + 1;
      }
      if isProbablyPrime(candidate) {
        return Some(candidate);
      }
      i := i + 1;
    }
    r := None;
  }

  /** When the test rejects everything below 2, as `isProbablyPrime` does, a generated prime is
   *  odd and at least 3, the candidate of one of the draws, and accepted by the test. */
  lemma {:induction false} GeneratedPrimeIsOdd(draws: seq<int>, isProbablyPrime: int -> bool)
    requires forall c | c < 2 :: !isProbablyPrime(c)
    ensures FirstPrime(draws, isProbablyPrime).Some? ==>
              var c := FirstPrime(draws, isProbablyPrime).value;
              c >= 3 && c % 2 == 1 && isProbablyPrime(c) &&
              exists i | 0 <= i < |draws| :: c == PrimeCandidate(draws[i])
  {
    if |draws| > 0 && !isProbablyPrime(PrimeCandidate(draws[0])) {
      GeneratedPrimeIsOdd(draws[1..], isProbablyPrime);
      if FirstPrime(draws, isProbablyPrime).Some? {
        var c := FirstPrime(draws, isProbablyPrime).value;
        var i :| 0 <= i < |draws[1..]| && c == PrimeCandidate(draws[1..][i]);
        assert c == PrimeCandidate(draws[i + 1]);
      }
    } else if |draws| > 0 {
      assert PrimeCandidate(draws[0]) >= 2;
    }
  }

  datatype KeyPair = KeyPair(publicKey: PublicKey, privateKey: PrivateKey)

  /** How `generateKeyPair` ends on the primes it is given: with a key pair; without one,
   *  because the primes ran out before a `q` far enough from `p`; or in its Wiener retry loop,
   *  which recomputes the same exponents `e` and `d` on every pass and so never ends. */
  datatype Generation = Generated(keyPair: KeyPair) | PrimesExhausted | RetriesForever(e: int, d: int)

  /** The position of the first of `qs` that is far enough from `p` for the Fermat check. */
  function FirstSecure(p: int, qs: seq<int>): (r: Option<nat>)
    ensures r.Some? ==> r.value < |qs| && IsSecureAgainstFermatAttack(p, qs[r.value])
    ensures r.Some? ==> forall j | 0 <= j < r.value :: !IsSecureAgainstFermatAttack(p, qs[j])
    ensures r.None? <==> forall j | 0 <= j < |qs| :: !IsSecureAgainstFermatAttack(p, qs[j])
  {
    if |qs| == 0 then None
    else if IsSecureAgainstFermatAttack(p, qs[0]) then Some(0)
    else match FirstSecure(p, qs[1..])
      case None => None
      case Some(j) => Some(j + 1)
  }

  /** The exponent `selectPublicExponent` picks for `phi`. */
  predicate IsSelectedPublicExponent(e: int, phi: int)
  {
    (StandardExponent < phi && Euclid(StandardExponent, Abs(phi)) == 1 ==> e == StandardExponent) &&
    (!(StandardExponent < phi && Euclid(StandardExponent, Abs(phi)) == 1) ==> IsLeastOddCoprime(e, phi))
  }

  /** `r` is how key generation ends for the primes `p, q >= 2`: with `n = p * q` and
   *  `phi = (p - 1) * (q - 1)`, the selected public exponent `e`, its inverse `d` modulo `phi`,
   *  and a key pair exactly when `d` passes the Wiener check. */
  predicate IsKeyGeneration(r: Generation, p: int, q: int)
  {
    var n, phi := p * q, (p - 1) * (q - 1);
    p >= 2 && q >= 2 && (r.Generated? || r.RetriesForever?) &&
    var e := if r.Generated? then r.keyPair.publicKey.e else r.e;
    var d := if r.Generated? then r.keyPair.privateKey.d else r.d;
    phi >= 2 && IsSelectedPublicExponent(e, phi) && Euclid(e, phi) == 1 &&
    0 <= d < phi && (e * d) % phi == 1 &&
    (r.Generated? <==> d > FloorSqrt(FloorSqrt(n))) &&
    (r.Generated? ==> r.keyPair == KeyPair(PublicKey(n, e), PrivateKey(n, d)))
  }

  /** The part of `generateKeyPair` after both primes are fixed. */
  method KeyPairFromPrimes(p: int, q: int) returns (r: Generation)
    requires p >= 2 && q >= 2 && p != q
    ensures IsKeyGeneration(r, p, q)
  {
    var n := p * q;
    var phi := (p - 1) * (q - 1);
    assert phi >= 2 by {
      MulAtLeast(p - 1, q - 1);
      MulAtLeast(q - 1, p - 1);
    }
    var e := SelectPublicExponent(phi, n);
    var d := ComputePrivateExponent(e, phi);
    NT.SmallMod(1, phi);
    var secure := IsSecureAgainstWienerAttack(e, d.value, n);
    if !secure.value {
      return RetriesForever(e, d.value);
    }
    r := Generated(KeyPair(PublicKey(n, e), PrivateKey(n, d.value)));
  }

  /** `generateKeyPair` with its primes given: `p`, then the primes drawn for `q` in turn, the
   *  first included, until one passes the Fermat check; then `n`, `phi`, the public exponent,
   *  its inverse, and the Wiener check. */
  method GenerateKeyPair(p: int, qs: seq<int>) returns (r: Generation)
    requires p >= 2 && forall j | 0 <= j < |qs| :: qs[j] >= 2
    ensures r == PrimesExhausted <==> FirstSecure(p, qs).None?
    ensures r != PrimesExhausted ==> IsKeyGeneration(r, p, qs[FirstSecure(p, qs).value])
  {
    var i := 0;
    while i < |qs| && !IsSecureAgainstFermatAttack(p, qs[i])
      invariant 0 <= i <= |qs|
      invariant forall j | 0 <= j < i :: !IsSecureAgainstFermatAttack(p, qs[j])
    {
      i := i + 1;
    }
    if i == |qs| {
      return PrimesExhausted;
    }
    assert FirstSecure(p, qs) == Some(i);
    r := KeyPairFromPrimes(p, qs[i]);
  }
}
