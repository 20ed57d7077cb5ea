/** `VulnerableRSAGenerator` (lab2): an RSA key whose private exponent is deliberately small,
 *  below the fourth root of the modulus, so that Wiener's attack recovers it.
 *
 *  The primes and the random draws for `d` are parameters. A list of draws stands for the
 *  values `new BigInteger(bits, random)` returns, in order; a result of `None` means that the
 *  list ran out before the draw loop ended. */
module VulnerableRsaGenerator {
  import opened Wrappers
  import opened Integers
  import NT = NumberTheoryService
  import Rsa = RsaService

  datatype KeyPair = KeyPair(n: int, e: int, d: int, p: int, q: int, phi: int)

  /** The draw loop gives up after this many counted attempts. */
  const MaxAttempts := 10000

  // ----------------------------------------------------------------------------------------
  // generateSmallD as written

  /** The draw loop of `generateSmallD` as written: `continue` in a `do`/`while` jumps to the
   *  loop condition, so a draw of at most 1 is tested like any other. A draw of 0 is rejected
   *  by the gcd test (unless `phi` is a unit) but a draw of 1 passes it and is kept. */
  function DrawLoop(phi: int, draws: seq<nat>, attempts: nat): (r: Option<nat>)
    ensures r.Some? ==> r.value in draws
    decreases |draws|
  {
    if |draws| == 0 then None
    else
      var d := draws[0];
      var counted := if d <= 1 then attempts else attempts + 1;
      if Euclid(d, Abs(phi)) != 1 && counted < MaxAttempts then DrawLoop(phi, draws[1..], counted)
      else Some(d)
  }

  /** The draw loop gives up after 10000 counted draws that are not coprime to `phi`: it stops
   *  on the last of them, and the fallback search runs. */
  lemma {:induction false} DrawLoopGivesUp(phi: int, draws: seq<nat>, attempts: nat)
    requires attempts < MaxAttempts && |draws| >= MaxAttempts - attempts
    requires forall i | 0 <= i < MaxAttempts - attempts :: draws[i] >= 2 && Euclid(draws[i], Abs(phi)) != 1
    ensures DrawLoop(phi, draws, attempts) == Some(draws[MaxAttempts - attempts - 1])
    decreases MaxAttempts - attempts
  {
    if attempts + 1 < MaxAttempts {
      var rest := draws[1..];
      assert forall i | 0 <= i < MaxAttempts - (attempts + 1) :: rest[i] == draws[i + 1];
      DrawLoopGivesUp(phi, rest, attempts + 1);
    }
  }

  /** `generateSmallD` as written: the draw loop, then the search for the least odd coprime
   *  number from 3 up when the loop stopped on a draw that is not coprime to `phi`. */
  method GenerateSmallD(phi: int, draws: seq<nat>) returns (r: Option<int>)
    requires phi != 0
    ensures DrawLoop(phi, draws, 0).None? ==> r.None?
    ensures DrawLoop(phi, draws, 0).Some? && Euclid(DrawLoop(phi, draws, 0).value, Abs(phi)) == 1 ==>
              r == Some(DrawLoop(phi, draws, 0).value as int)
    ensures DrawLoop(phi, draws, 0).Some? && Euclid(DrawLoop(phi, draws, 0).value, Abs(phi)) != 1 ==>
              r.Some? && Rsa.IsLeastOddCoprime(r.value, phi)
    ensures r.Some? ==> r.value >= 0 && Euclid(r.value, Abs(phi)) == 1
  {
    var attempts := 0;
    var used := 0;
    var d: nat;
    var g: int;
    while true
      invariant used <= |draws|
      invariant DrawLoop(phi, draws[used..], attempts) == DrawLoop(phi, draws, 0)
      decreases |draws| - used
    {
      if used == |draws| {
        return None;
      }
      d := draws[used];
      used := used + 1;
      if d > 1 {
        attempts := attempts + 1;
      }
      g := NT.Gcd(d, phi);
      assert draws[used - 1..][1..] == draws[used..];
      if !(g != 1 && attempts < MaxAttempts) {
        break;
      }
    }
    if g != 1 {
      var e := Rsa.LeastOddCoprime(phi);
      return Some(e);
    }
    r := Some(d);
  }

  /** Finding: a first draw of 1 ends the loop as written, and `generateSmallD` returns 1. */
  lemma {:induction false} DrawLoopKeepsOne(phi: int, rest: seq<nat>)
    ensures DrawLoop(phi, [1] + rest, 0) == Some(1)
  {
    assert ([1] + rest)[0] == 1;
    OneIsCoprime(phi);
  }

  /** 1 is coprime to every number. */
  lemma {:induction false} OneIsCoprime(phi: int)
    ensures Euclid(1, Abs(phi)) == 1
  {
    EuclidSymmetric(1, Abs(phi));
    if Abs(phi) > 0 {
      assert Euclid(Abs(phi), 1) == Euclid(1, 0);
    }
  }

  /** With `d = 1` the public exponent computed from it is 1 too (for `phi > 1`), and
   *  encryption with exponent 1 leaves every message unchanged. */
  lemma {:induction false} UnitExponentIsIdentity(e: int, phi: int, m: int, n: int)
    requires phi > 1 && 0 <= e < phi && (1 * e) % phi == 1 % phi
    requires 0 <= m < n
    ensures e == 1
    ensures Pow(m, e) % n == m
  {
    UnitInverseIsOne(e, phi);
    NT.SmallMod(m, n);
  }

  /** The only inverse of 1 in `[0, phi)` is 1, for `phi > 1`. */
  lemma {:induction false} UnitInverseIsOne(e: int, phi: int)
    requires phi > 1 && 0 <= e < phi && (1 * e) % phi == 1 % phi
    ensures e == 1
  {
    NT.SmallMod(e, phi);
    NT.SmallMod(1, phi);
  }

  // ----------------------------------------------------------------------------------------
  // generateSmallD as evidently intended

  /** The draw loop as evidently intended: a draw of at most 1 is skipped, and the next draw
   *  is taken without counting an attempt. */
  function DrawLoopSkipping(phi: int, draws: seq<nat>, attempts: nat): (r: Option<nat>)
    ensures r.Some? ==> r.value in draws && r.value >= 2
    decreases |draws|
  {
    if |draws| == 0 then None
    else
      var d := draws[0];
      if d <= 1 then DrawLoopSkipping(phi, draws[1..], attempts)
      else if Euclid(d, Abs(phi)) != 1 && attempts + 1 < MaxAttempts then
        DrawLoopSkipping(phi, draws[1..], attempts + 1)
      else Some(d)
  }

  /** The skipping loop never stops on a 1; it draws again. */
  lemma {:induction false} DrawLoopSkipsOne(phi: int, rest: seq<nat>)
    ensures DrawLoopSkipping(phi, [1] + rest, 0) == DrawLoopSkipping(phi, rest, 0)
  {
    assert ([1] + rest)[1..] == rest;
  }

  /** `generateSmallD` with draws of at most 1 skipped: the result is at least 2 and coprime
   *  to `phi`, so the public exponent is never the identity exponent 1. */
  method GenerateSmallDSkipping(phi: int, draws: seq<nat>) returns (r: Option<int>)
    requires phi != 0
    ensures DrawLoopSkipping(phi, draws, 0).None? ==> r.None?
    ensures DrawLoopSkipping(phi, draws, 0).Some? && Euclid(DrawLoopSkipping(phi, draws, 0).value, Abs(phi)) == 1 ==>
              r == Some(DrawLoopSkipping(phi, draws, 0).value as int)
    ensures DrawLoopSkipping(phi, draws, 0).Some? && Euclid(DrawLoopSkipping(phi, draws, 0).value, Abs(phi)) != 1 ==>
              r.Some? && Rsa.IsLeastOddCoprime(r.value, phi)
    ensures r.Some? ==> r.value >= 2 && Euclid(r.value, Abs(phi)) == 1
  {
    var attempts := 0;
    var used := 0;
    var d: nat;
    var g: int;
    while true
      invariant used <= |draws|
      invariant DrawLoopSkipping(phi, draws[used..], attempts) == DrawLoopSkipping(phi, draws, 0)
      decreases |draws| - used
    {
      if used == |draws| {
        return None;
      }
      d := draws[used];
      used := used + 1;
      assert draws[used - 1..][1..] == draws[used..];
      if d <= 1 {
        continue;
      }
      attempts := attempts + 1;
      g := NT.Gcd(d, phi);
      if !(g != 1 && attempts < MaxAttempts) {
        break;
      }
    }
    if g != 1 {
      var e := Rsa.LeastOddCoprime(phi);
      return Some(e);
    }
    r := Some(d);
  }

  // ----------------------------------------------------------------------------------------
  // Key generation

  /** `generateVulnerableKeyPair` after its two primes are drawn: `n` and `phi`, the threshold
   *  `sqrt(sqrt(n))` (whose bit length bounds the draws, which are given here), a small `d`
   *  from `generateSmallD` as written, and its inverse `e` modulo `phi`. */
  method GenerateVulnerableKeyPair(p: int, q: int, draws: seq<nat>) returns (r: Option<Result<KeyPair>>)
    requires (p - 1) * (q - 1) != 0
    ensures p * q < 0 ==> r == Some(Err(IllegalArgument(Rsa.NegativeSqrt)))
    ensures p * q >= 0 && (p - 1) * (q - 1) < 0 ==> r.Some? ==> r.value == Err(Arithmetic)
    ensures p * q >= 0 && DrawLoop((p - 1) * (q - 1), draws, 0).None? ==> r.None?
    ensures r.Some? && r.value.Ok? ==>
              var key := r.value.value;
              key.n == p * q && key.phi == (p - 1) * (q - 1) && key.p == p && key.q == q &&
              key.d >= 0 && Euclid(key.d, key.phi) == 1 &&
              0 <= key.e < key.phi && (key.e * key.d) % key.phi == 1 % key.phi
    ensures r.Some? && r.value.Ok? && DrawLoop((p - 1) * (q - 1), draws, 0).Some? &&
            Euclid(DrawLoop((p - 1) * (q - 1), draws, 0).value, Abs((p - 1) * (q - 1))) == 1 ==>
              r.value.value.d == DrawLoop((p - 1) * (q - 1), draws, 0).value
    ensures p * q >= 0 && (p - 1) * (q - 1) > 0 && DrawLoop((p - 1) * (q - 1), draws, 0).Some? ==>
              r.Some? && r.value.Ok?
    ensures p * q >= 0 && (p - 1) * (q - 1) > 1 && |draws| > 0 && draws[0] == 1 ==>
              r == Some(Ok(KeyPair(p * q, 1, 1, p, q, (p - 1) * (q - 1))))
  {
    var n := p * q;
    var phi := (p - 1) * (q - 1);
    var root := Rsa.Sqrt(n);
    if root.Err? {
      return Some(Err(root.error));
    }
    var threshold := Rsa.Sqrt(root.value);
    if |draws| > 0 && draws[0] == 1 {
      assert draws == [1] + draws[1..];
      DrawLoopKeepsOne(phi, draws[1..]);
    }
    var d := GenerateSmallD(phi, draws);
    if d.None? {
      return None;
    }
    var e := Rsa.ComputePrivateExponent(d.value, phi);
    if e.Err? {
      return Some(Err(e.error));
    }
    assert (d.value * e.value) % phi == 1 % phi;
    assert d.value * e.value == e.value * d.value;
    if phi > 1 && |draws| > 0 && draws[0] == 1 {
      OneIsCoprime(phi);
      assert d.value == 1;
      assert (1 * e.value) % phi == 1 % phi;
      UnitInverseIsOne(e.value, phi);
    }
    r := Some(Ok(KeyPair(n, e.value, d.value, p, q, phi)));
  }
}
