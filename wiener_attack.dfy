/** `WienerAttackService` (lab2): the continued-fraction expansion of `e / n`, its convergents
 *  and the search among them for a denominator that works as a private exponent.
 *
 *  The expansion is specified by `ContinuedFraction`, the convergents by the recurrences `H`
 *  and `K`; the lemmas show what makes the attack sound: the denominators are positive, every
 *  convergent is in lowest terms, and a finished expansion ends on `e / n` itself. */
module WienerAttackService {
  import opened Wrappers
  import opened Integers
  import NT = NumberTheoryService

  datatype Fraction = Fraction(numerator: int, denominator: int)

  /** `d` and `phi` are Java's `null` (`None`) when the attack fails. */
  datatype AttackResult = AttackResult(d: Option<int>, phi: Option<int>, convergents: seq<Fraction>, success: bool)

  /** The expansion stops after this many terms even when Euclid's algorithm has not. */
  const MaxTerms := 1000

  // ----------------------------------------------------------------------------------------
  // Continued fraction

  /** The quotients Euclid's algorithm produces on `(a, b)`, at most `limit` of them. */
  function Quotients(a: nat, b: nat, limit: nat): (r: seq<int>)
    ensures |r| <= limit
    decreases limit
  {
    if b == 0 || limit == 0 then [] else [a / b] + Quotients(b, a % b, limit - 1)
  }

  /** The expansion of `e / n` for `n >= 0`: the first quotient uses Java's truncating
   *  division (`e` may be negative), after which both operands are non-negative. */
  function ContinuedFraction(e: int, n: nat): (r: seq<int>)
    ensures |r| <= MaxTerms
  {
    if n == 0 then [] else [JavaDiv(e, n)] + Quotients(n, e % n, MaxTerms - 1)
  }

  /** `computeContinuedFraction`: repeated division with remainder; `mod` rejects a negative
   *  `n` on the first step. */
  method ComputeContinuedFraction(e: int, n: int) returns (r: Result<seq<int>>)
    ensures n < 0 ==> r == Err(Arithmetic)
    ensures n >= 0 ==> r == Ok(ContinuedFraction(e, n))
  {
    var terms: seq<int> := [];
    var a := e;
    var b := n;
    while b != 0 && |terms| < MaxTerms
      invariant |terms| <= MaxTerms
      invariant |terms| == 0 ==> a == e && b == n
      invariant |terms| > 0 ==>
                  n > 0 && a >= 0 && b >= 0 &&
                  terms + Quotients(a, b, MaxTerms - |terms|) == ContinuedFraction(e, n)
      decreases MaxTerms - |terms|
    {
      var q := JavaDiv(a, b);
      if b < 0 {
        return Err(Arithmetic);
      }
      if |terms| > 0 {
        JavaDivNonNegative(a, b);
      }
      terms := terms + [q];
      a, b := b, a % b;
    }
    if n < 0 {
      // the loop runs at least once for a non-zero n and returns on its first step
      assert false;
    }
    if |terms| > 0 {
      assert b == 0 || MaxTerms - |terms| == 0;
      assert Quotients(a, b, MaxTerms - |terms|) == [];
      assert terms == terms + [];
    }
    r := Ok(terms);
  }

  /** Every quotient after the first is at least 1. */
  lemma {:induction false} QuotientsPositive(a: nat, b: nat, limit: nat)
    requires a > b
    ensures forall i | 0 <= i < |Quotients(a, b, limit)| :: Quotients(a, b, limit)[i] >= 1
  {
    if b != 0 && limit != 0 {
      QuotientsPositive(b, a % b, limit - 1);
      var rest := Quotients(b, a % b, limit - 1);
      assert Quotients(a, b, limit) == [a / b] + rest;
    }
  }

  // ----------------------------------------------------------------------------------------
  // Convergents

  /** Numerator of the `i`-th convergent, with `h(-2) = 0` and `h(-1) = 1`. */
  function H(t: seq<int>, i: int): int
    requires -2 <= i < |t|
    decreases i + 2
  {
    if i == -2 then 0 else if i == -1 then 1 else t[i] * H(t, i - 1) + H(t, i - 2)
  }

  /** Denominator of the `i`-th convergent, with `k(-2) = 1` and `k(-1) = 0`. */
  function K(t: seq<int>, i: int): int
    requires -2 <= i < |t|
    decreases i + 2
  {
    if i == -2 then 1 else if i == -1 then 0 else t[i] * K(t, i - 1) + K(t, i - 2)
  }

  function Convergents(t: seq<int>): (r: seq<Fraction>)
    ensures |r| == |t|
    ensures forall i | 0 <= i < |t| :: r[i] == Fraction(H(t, i), K(t, i))
  {
    seq(|t|, i requires 0 <= i < |t| => Fraction(H(t, i), K(t, i)))
  }

  /** `computeConvergents`: the first two convergents written out, then the recurrences with
   *  the last two numerators and denominators kept in variables. */
  method ComputeConvergents(e: int, n: int) returns (r: Result<seq<Fraction>>)
    ensures n < 0 ==> r == Err(Arithmetic)
    ensures n >= 0 ==> r == Ok(Convergents(ContinuedFraction(e, n)))
  {
    var cf := ComputeContinuedFraction(e, n);
    if cf.Err? {
      return Err(cf.error);
    }
    var t := cf.value;
    ghost var all := Convergents(t);
    if |t| == 0 {
      return Ok([]);
    }
    var h0 := t[0];
    var h1 := if |t| > 1 then t[0] * t[1] + 1 else 1;
    var k0 := 1;
    var k1 := if |t| > 1 then t[1] else 0;
    var convergents := [Fraction(h0, k0)];
    assert H(t, 0) == h0 && K(t, 0) == k0;
    if |t| > 1 {
      convergents := convergents + [Fraction(h1, k1)];
    }
    if |t| == 1 {
      assert convergents == all;
      return Ok(convergents);
    }
    assert H(t, 1) == h1 && K(t, 1) == k1;
    assert convergents == all[..2];
    convergents := ExtendConvergents(t, convergents, h0, h1, k0, k1);
    r := Ok(convergents);
  }

  /** The recurrence loop of `computeConvergents`, from the third convergent on. */
  method ExtendConvergents(t: seq<int>, start: seq<Fraction>, h0: int, h1: int, k0: int, k1: int)
    returns (convergents: seq<Fraction>)
    requires |t| >= 2 && start == Convergents(t)[..2]
    requires h0 == H(t, 0) && h1 == H(t, 1) && k0 == K(t, 0) && k1 == K(t, 1)
    ensures convergents == Convergents(t)
  {
    ghost var all := Convergents(t);
    convergents := start;
    var h0, h1, k0, k1 := h0, h1, k0, k1;
    var i := 2;
    while i < |t|
      invariant 2 <= i <= |t|
      invariant h0 == H(t, i - 2) && h1 == H(t, i - 1)
      invariant k0 == K(t, i - 2) && k1 == K(t, i - 1)
      invariant convergents == all[..i]
    {
      var a := t[i];
      var h := a * h1 + h0;
      var k := a * k1 + k0;
      assert h == H(t, i) && k == K(t, i);
      assert all[..i + 1] == all[..i] + [Fraction(h, k)];
      convergents := convergents + [Fraction(h, k)];
      h0, h1 := h1, h;
      k0, k1 := k1, k;
      i := i + 1;
    }
    assert all[..i] == all;
  }

  lemma {:induction false} DenominatorsFrom(t: seq<int>, i: int)
    requires forall j | 1 <= j < |t| :: t[j] >= 1
    requires 0 <= i < |t|
    ensures K(t, i) >= 1 && K(t, i - 1) >= 0
  {
    if i >= 1 {
      DenominatorsFrom(t, i - 1);
      assert K(t, i) == t[i] * K(t, i - 1) + K(t, i - 2);
      MulAtLeast(K(t, i - 1), t[i]);
    }
  }

  /** Every convergent of an expansion has a positive denominator, so the attack only hands
   *  positive candidates for `d` to `modPow`. */
  lemma {:induction false} DenominatorsPositive(e: int, n: nat)
    ensures forall i | 0 <= i < |ContinuedFraction(e, n)| :: K(ContinuedFraction(e, n), i) >= 1
  {
    var t := ContinuedFraction(e, n);
    if n > 0 {
      QuotientsPositive(n, e % n, MaxTerms - 1);
      assert forall j | 1 <= j < |t| :: t[j] == Quotients(n, e % n, MaxTerms - 1)[j - 1];
    }
    forall i | 0 <= i < |t|
      ensures K(t, i) >= 1
    {
      DenominatorsFrom(t, i);
    }
  }

  /** Consecutive convergents differ by a unit: `h(i) k(i-1) - h(i-1) k(i)` alternates between
   *  1 and -1. */
  lemma {:induction false} Determinant(t: seq<int>, i: int)
    requires -1 <= i < |t|
    ensures H(t, i) * K(t, i - 1) - H(t, i - 1) * K(t, i) == if i % 2 == 0 then -1 else 1
  {
    if i >= 0 {
      Determinant(t, i - 1);
      var a, h1, h2, k1, k2 := t[i], H(t, i - 1), H(t, i - 2), K(t, i - 1), K(t, i - 2);
      DeterminantStep(a, H(t, i), K(t, i), h1, h2, k1, k2);
      ParityStep(i);
    }
  }

  lemma {:induction false} ParityStep(i: int)
    ensures (i % 2 == 0) == ((i - 1) % 2 == 1)
  {
  }

  lemma {:induction false} DeterminantStep(a: int, h0: int, k0: int, h1: int, h2: int, k1: int, k2: int)
    requires h0 == a * h1 + h2 && k0 == a * k1 + k2
    ensures h0 * k1 - h1 * k0 == -(h1 * k2 - h2 * k1)
  {
    assert (a * h1 + h2) * k1 == a * h1 * k1 + h2 * k1;
    assert h1 * (a * k1 + k2) == a * h1 * k1 + h1 * k2;
  }

  /** Two numbers with a unit integer combination `h u - v k` are coprime. */
  lemma {:induction false} UnitCombinationCoprime(h: int, k: int, u: int, v: int)
    requires h * u - v * k == 1 || h * u - v * k == -1
    ensures Euclid(Abs(h), Abs(k)) == 1
  {
    var g := Euclid(Abs(h), Abs(k));
    EuclidIsGcd(h, k);
    var hu, vk := h * u, v * k;
    DividesMultiple(g, h, u);
    DividesMultiple(g, k, v);
    DividesLinear(g, hu, vk, -1);
    assert hu + -1 * vk == hu - vk;
    DividesSign(g, hu - vk);
    DividesBound(g, 1);
  }

  /** Every convergent is in lowest terms. */
  lemma {:induction false} LowestTerms(t: seq<int>, i: int)
    requires 0 <= i < |t|
    ensures Euclid(Abs(H(t, i)), Abs(K(t, i))) == 1
  {
    Determinant(t, i);
    UnitCombinationCoprime(H(t, i), K(t, i), K(t, i - 1), H(t, i - 1));
  }

  // ----------------------------------------------------------------------------------------
  // The last convergent

  /** The pair of operands after `i` steps of Euclid's algorithm on `(a, b)` (unchanged once
   *  the second is 0). */
  function Pair(a: nat, b: nat, i: nat): (nat, nat)
    decreases i
  {
    if i == 0 || b == 0 then (a, b) else Pair(b, a % b, i - 1)
  }

  lemma {:induction false} PairStep(a: nat, b: nat, i: nat)
    requires Pair(a, b, i).1 != 0
    ensures Pair(a, b, i + 1) == (Pair(a, b, i).1, Pair(a, b, i).0 % Pair(a, b, i).1)
    decreases i
  {
    if i > 0 && b != 0 {
      PairStep(b, a % b, i - 1);
    }
  }

  /** The `i`-th quotient is the quotient of the `i`-th pair; an expansion shorter than its
   *  limit ended on a zero remainder. */
  lemma {:induction false} QuotientsArePairs(a: nat, b: nat, limit: nat)
    ensures forall i | 0 <= i < |Quotients(a, b, limit)| ::
              Pair(a, b, i).1 != 0 && Quotients(a, b, limit)[i] == Pair(a, b, i).0 / Pair(a, b, i).1
    ensures |Quotients(a, b, limit)| < limit ==> Pair(a, b, |Quotients(a, b, limit)|).1 == 0
    decreases limit
  {
    if b != 0 && limit != 0 {
      QuotientsArePairs(b, a % b, limit - 1);
      var t := Quotients(a, b, limit);
      assert t == [a / b] + Quotients(b, a % b, limit - 1);
      forall i | 1 <= i < |t|
        ensures Pair(a, b, i) == Pair(b, a % b, i - 1)
      {
      }
    }
  }

  /** One step of the recurrence: with `p0 == x q + y`, the combination through the newer
   *  convergent and the next pair equals the one through the older convergent and this pair. */
  lemma {:induction false} RecurrenceStep(q: int, h1: int, h2: int, x: int, y: int, p0: int)
    requires p0 == x * q + y
    ensures (q * h1 + h2) * x + h1 * y == h1 * p0 + h2 * x
  {
    assert (q * h1 + h2) * x == h1 * (x * q) + h2 * x;
    assert h1 * p0 == h1 * (x * q) + h1 * y;
  }

  /** After `i` steps, `a` and `b` are recovered from the current pair through the two
   *  previous convergents. */
  lemma {:induction false} PairsThroughConvergents(a: nat, b: nat, limit: nat, i: nat)
    requires i <= |Quotients(a, b, limit)|
    ensures var t, p := Quotients(a, b, limit), Pair(a, b, i);
            a == H(t, i - 1) * p.0 + H(t, i - 2) * p.1 &&
            b == K(t, i - 1) * p.0 + K(t, i - 2) * p.1
  {
    var t := Quotients(a, b, limit);
    if i > 0 {
      PairsThroughConvergents(a, b, limit, i - 1);
      QuotientsArePairs(a, b, limit);
      var p := Pair(a, b, i - 1);
      PairStep(a, b, i - 1);
      var x, y := p.1, p.0 % p.1;
      var q := t[i - 1];
      assert q == p.0 / x;
      DivMod(p.0, x);
      assert Pair(a, b, i) == (x, y);
      var h1, h2, k1, k2 := H(t, i - 2), H(t, i - 3), K(t, i - 2), K(t, i - 3);
      assert H(t, i - 1) == q * h1 + h2 && K(t, i - 1) == q * k1 + k2;
      RecurrenceStep(q, h1, h2, x, y, p.0);
      RecurrenceStep(q, k1, k2, x, y, p.0);
    }
  }

  lemma {:induction false} DivMod(a: nat, b: nat)
    requires b > 0
    ensures a == b * (a / b) + a % b
  {
  }

  lemma {:induction false} ProductRearranged(h: int, k: int, x: int)
    ensures h * (k * x) == (h * x) * k
  {
  }

  /** A finished expansion of `e / n` (fewer than `MaxTerms` terms) ends on a convergent equal
   *  to `e / n`: `h * n == e * k`. */
  lemma {:induction false} LastConvergent(e: nat, n: nat)
    requires n > 0 && |ContinuedFraction(e, n)| < MaxTerms
    ensures var t := ContinuedFraction(e, n);
            |t| >= 1 && H(t, |t| - 1) * n == e * K(t, |t| - 1)
  {
    JavaDivNonNegative(e, n);
    var t := ContinuedFraction(e, n);
    assert t == Quotients(e, n, MaxTerms);
    QuotientsArePairs(e, n, MaxTerms);
    PairsThroughConvergents(e, n, MaxTerms, |t|);
    var x := Pair(e, n, |t|).0;
    var h, k := H(t, |t| - 1), K(t, |t| - 1);
    assert e == h * x && n == k * x;
    ProductRearranged(h, k, x);
  }

  // ----------------------------------------------------------------------------------------
  // The attack

  /** `isValidPhi`: a candidate for `phi` must lie strictly between 0 and `n`. */
  predicate IsValidPhi(phi: int, n: int)
  {
    0 < phi < n
  }

  /** The candidate the attack derives from a convergent `k / d`: `(e d - 1) / k`, with Java's
   *  truncating division. */
  function CandidatePhi(e: int, c: Fraction): int
    requires c.numerator != 0
  {
    JavaDiv(e * c.denominator - 1, c.numerator)
  }

  /** When the convergent is the true `k / d` of a key, `e d - 1 == k phi`, the candidate is
   *  exactly `phi`. */
  lemma {:induction false} CandidatePhiExact(e: int, d: int, k: int, phi: int)
    requires k > 0 && phi >= 0 && e * d - 1 == k * phi
    ensures CandidatePhi(e, Fraction(k, d)) == phi
  {
    MulNonNegative(k, phi);
    JavaDivNonNegative(e * d - 1, k);
    ModOfDecomposition(e * d - 1, k, phi, 0);
  }

  /** The test message: 42, or 2 when 42 is not below `n`. */
  function TestMessage(n: int): int
  {
    if 42 >= n then 2 else 42
  }

  /** What `verifyDecryptionExponent` accepts, for non-negative exponents: `e d` is 1 modulo
   *  `phi` and decryption with `d` undoes encryption with `e` on the test message. */
  predicate DecryptsTestMessage(e: nat, d: nat, n: int, phi: int)
    requires phi > 0 && n > phi
  {
    (e * d) % phi == 1 &&
    Pow(Pow(TestMessage(n), e) % n, d) % n == TestMessage(n)
  }

  /** `verifyDecryptionExponent`; its caller has checked `0 < phi < n`. A negative exponent
   *  reaches `modPow` only after the remainder test has passed. */
  method VerifyDecryptionExponent(e: int, d: int, n: int, phi: int) returns (r: Result<bool>)
    requires 0 < phi < n
    ensures e >= 0 && d >= 0 ==> r == Ok(DecryptsTestMessage(e, d, n, phi))
    ensures (e * d) % phi != 1 ==> r == Ok(false)
    ensures (e * d) % phi == 1 && e < 0 ==> r == Err(IllegalArgument("Negative exponent not supported"))
    ensures r == Ok(true) ==> (e * d) % phi == 1
  {
    var remainder := (e * d) % phi;
    if remainder != 1 {
      return Ok(false);
    }
    var message := 42;
    if message >= n {
      message := 2;
    }
    var encrypted := NT.ModPow(message, e, n);
    if encrypted.Err? {
      return Err(encrypted.error);
    }
    var decrypted := NT.ModPow(encrypted.value, d, n);
    if decrypted.Err? {
      return Err(decrypted.error);
    }
    r := Ok(decrypted.value == message);
  }

  /** A convergent breaks the key `(e, n)`: it yields a valid `phi` and its denominator passes
   *  the decryption test. */
  predicate Breaks(e: nat, n: int, c: Fraction)
  {
    c.numerator != 0 && c.denominator >= 0 &&
    IsValidPhi(CandidatePhi(e, c), n) && DecryptsTestMessage(e, c.denominator, n, CandidatePhi(e, c))
  }

  /** The index of the first convergent from `from` on that breaks the key, if any. */
  function FirstBreaking(e: nat, n: int, cs: seq<Fraction>, from: nat): (r: Option<nat>)
    ensures r.Some? ==> from <= r.value < |cs| && Breaks(e, n, cs[r.value])
    decreases |cs| - from
  {
    if from >= |cs| then None
    else if Breaks(e, n, cs[from]) then Some(from)
    else FirstBreaking(e, n, cs, from + 1)
  }

  /** The search finds the least breaking index, and finds none only when none breaks. */
  lemma {:induction false} FirstBreakingSpec(e: nat, n: int, cs: seq<Fraction>, from: nat)
    ensures FirstBreaking(e, n, cs, from).None? <==>
              forall j | from <= j < |cs| :: !Breaks(e, n, cs[j])
    ensures FirstBreaking(e, n, cs, from).Some? ==>
              forall j | from <= j < FirstBreaking(e, n, cs, from).value :: !Breaks(e, n, cs[j])
    decreases |cs| - from
  {
    if from < |cs| && !Breaks(e, n, cs[from]) {
      FirstBreakingSpec(e, n, cs, from + 1);
    }
  }

  /** `attack`: tries the convergents of `e / n` in order and stops at the first one whose
   *  denominator works as a private exponent. */
  method Attack(e: int, n: int) returns (r: Result<AttackResult>)
    ensures n < 0 ==> r == Err(Arithmetic)
    ensures r.Ok? ==> n >= 0 && r.value.convergents == Convergents(ContinuedFraction(e, n))
    ensures r.Ok? && r.value.success ==>
              r.value.d.Some? && r.value.phi.Some? &&
              IsValidPhi(r.value.phi.value, n) && (e * r.value.d.value) % r.value.phi.value == 1
    ensures r.Ok? && !r.value.success ==> r.value.d.None? && r.value.phi.None?
    ensures e >= 0 && n >= 0 ==> r.Ok?
    ensures e >= 0 && r.Ok? ==>
              var cs := r.value.convergents;
              var first := FirstBreaking(e, n, cs, 0);
              (r.value.success <==> first.Some?) &&
              (first.Some? ==> r.value.d == Some(cs[first.value].denominator) &&
                               r.value.phi == Some(CandidatePhi(e, cs[first.value])))
  {
    var convs := ComputeConvergents(e, n);
    if convs.Err? {
      return Err(convs.error);
    }
    var cs := convs.value;
    if e >= 0 && n >= 0 {
      DenominatorsPositive(e, n);
    }
    var i := 0;
    while i < |cs|
      invariant 0 <= i <= |cs|
      invariant e >= 0 ==> FirstBreaking(e, n, cs, 0) == FirstBreaking(e, n, cs, i)
    {
      var phi := TryConvergent(e, n, cs[i]);
      if phi.Err? {
        return Err(phi.error);
      }
      if phi.value.Some? {
        return Ok(AttackResult(Some(cs[i].denominator), phi.value, cs, true));
      }
      i := i + 1;
    }
    r := Ok(AttackResult(None, None, cs, false));
  }

  /** One turn of the attack loop: the candidate `phi` of convergent `c` when it is valid and
   *  the convergent's denominator passes the decryption test, `None` when it does not. */
  method TryConvergent(e: int, n: int, c: Fraction) returns (r: Result<Option<int>>)
    ensures e >= 0 && c.denominator >= 0 ==> r.Ok? && (r.value.Some? <==> Breaks(e, n, c))
    ensures r.Ok? && r.value.Some? ==>
              c.numerator != 0 && r.value.value == CandidatePhi(e, c) &&
              IsValidPhi(r.value.value, n) && (e * c.denominator) % r.value.value == 1
  {
    if c.numerator == 0 {
      return Ok(None);
    }
    var phi := JavaDiv(e * c.denominator - 1, c.numerator);
    if !IsValidPhi(phi, n) {
      return Ok(None);
    }
    var verified := VerifyDecryptionExponent(e, c.denominator, n, phi);
    if verified.Err? {
      return Err(verified.error);
    }
    r := if verified.value then Ok(Some(phi)) else Ok(None);
  }

  /** The last three steps of Euclid's algorithm on the example key. */
  lemma {:induction false} ExampleKeyQuotientsEnd()
    ensures Quotients(29, 13, 994) == [2, 4, 3]
  {
    assert Quotients(3, 1, 992) == [3];
    assert Quotients(13, 3, 993) == [4, 3];
  }

  /** The three steps before them. */
  lemma {:induction false} ExampleKeyQuotientsMiddle()
    ensures Quotients(616, 129, 997) == [4, 1, 3, 2, 4, 3]
  {
    ExampleKeyQuotientsEnd();
    assert Quotients(100, 29, 995) == [3, 2, 4, 3];
    assert Quotients(129, 100, 996) == [1, 3, 2, 4, 3];
  }

  /** The step before them. */
  lemma {:induction false} ExampleKeyQuotientsStart()
    ensures Quotients(17993, 616, 998) == [29, 4, 1, 3, 2, 4, 3]
  {
    ExampleKeyQuotientsMiddle();
  }

  /** The published example key `n = 90581`, `e = 17993`: the expansion of `e / n` is
   *  [0; 5, 29, 4, 1, 3, 2, 4, 3]. */
  lemma {:induction false} ExampleKeyExpansion()
    ensures ContinuedFraction(17993, 90581) == [0, 5, 29, 4, 1, 3, 2, 4, 3]
  {
    ExampleKeyQuotientsStart();
    assert Quotients(90581, 17993, 999) == [5, 29, 4, 1, 3, 2, 4, 3];
  }

  /** For the example key the first convergent 0/1 is skipped (its numerator is 0) and the
   *  second is 1/5. */
  lemma {:induction false} ExampleKeyConvergents()
    ensures Convergents(ContinuedFraction(17993, 90581))[..2] == [Fraction(0, 1), Fraction(1, 5)]
  {
    ExampleKeyExpansion();
    var t: seq<int> := [0, 5, 29, 4, 1, 3, 2, 4, 3];
    assert H(t, 0) == 0 && K(t, 0) == 1;
    assert H(t, 1) == 1 && K(t, 1) == 5;
  }

  /** The convergent 1/5 of the example key gives the candidate `phi = 89964`, which lies in
   *  (0, n) and makes `e * 5` equal to 1 modulo `phi`. */
  lemma {:induction false} ExampleKeyCandidate()
    ensures CandidatePhi(17993, Fraction(1, 5)) == 89964 && IsValidPhi(89964, 90581)
    ensures (17993 * 5) % 89964 == 1
  {
    assert 17993 * 5 - 1 == 89964;
    NT.SmallMod(1, 89964);
    ModAddMultiple(89964, 1, 1);
  }

  /** `b^e mod m` by recursive square-and-multiply: a definition the verifier can evaluate on
   *  constants in a few dozen steps, where `Pow` would take `e` steps. */
  function SquareMultiply(b: int, e: nat, m: int): (r: int)
    requires m > 0
    decreases e
  {
    if e == 0 then 1 % m
    else if e % 2 == 0 then
      var h := SquareMultiply(b, e / 2, m);
      (h * h) % m
    else ((b % m) * SquareMultiply(b, e - 1, m)) % m
  }

  /** Square-and-multiply computes the power modulo `m`. */
  lemma {:induction false} SquareMultiplyIsPow(b: int, e: nat, m: int)
    requires m > 0
    ensures SquareMultiply(b, e, m) == Pow(b, e) % m
    decreases e
  {
    if e == 0 {
    } else if e % 2 == 0 {
      SquareMultiplyIsPow(b, e / 2, m);
      PowModDouble(b, e / 2, m, SquareMultiply(b, e / 2, m));
      assert e / 2 + e / 2 == e;
    } else {
      SquareMultiplyIsPow(b, e - 1, m);
      PowModNext(b, e - 1, m, SquareMultiply(b, e - 1, m));
    }
  }

  /** The test message 42 encrypted with the example key is 82677. */
  lemma {:induction false} ExampleKeyEncrypts()
    ensures Pow(42, 17993) % 90581 == 82677
  {
    SquareMultiplyIsPow(42, 17993, 90581);
    EncryptedValue();
  }

  /** Square-and-multiply evaluated on the example key's encryption. */
  lemma {:induction false} EncryptedValue()
    ensures SquareMultiply(42, 17993, 90581) == 82677
  {
    assert SquareMultiply(42, 1, 90581) == 42;
    assert SquareMultiply(42, 2, 90581) == 1764;
    assert SquareMultiply(42, 4, 90581) == 31942;
    assert SquareMultiply(42, 8, 90581) == 77561;
    assert SquareMultiply(42, 16, 90581) == 43349;
    assert SquareMultiply(42, 17, 90581) == 9038;
    assert SquareMultiply(42, 34, 90581) == 71963;
    assert SquareMultiply(42, 35, 90581) == 33273;
    assert SquareMultiply(42, 70, 90581) == 11547;
    assert SquareMultiply(42, 140, 90581) == 88558;
    assert SquareMultiply(42, 280, 90581) == 16384;
    assert SquareMultiply(42, 281, 90581) == 54061;
    assert SquareMultiply(42, 562, 90581) == 86337;
    assert SquareMultiply(42, 1124, 90581) == 76498;
    assert SquareMultiply(42, 2248, 90581) == 49080;
    assert SquareMultiply(42, 2249, 90581) == 68578;
    assert SquareMultiply(42, 4498, 90581) == 67145;
    assert SquareMultiply(42, 8996, 90581) == 53493;
    assert SquareMultiply(42, 17992, 90581) == 47259;
  }

  /** Decrypting 82677 with `d = 5` gives the test message 42 back. */
  lemma {:induction false} ExampleKeyDecrypts()
    ensures Pow(82677, 5) % 90581 == 42
  {
    SquareMultiplyIsPow(82677, 5, 90581);
    DecryptedValue();
  }

  /** Square-and-multiply evaluated on the example key's decryption. */
  lemma {:induction false} DecryptedValue()
    ensures SquareMultiply(82677, 5, 90581) == 42
  {
    assert SquareMultiply(82677, 1, 90581) == 82677;
    assert SquareMultiply(82677, 2, 90581) == 62907;
    assert SquareMultiply(82677, 4, 90581) == 78502;
  }

  /** The attack breaks the example key at its second convergent 1/5: the first convergent
   *  0/1 is skipped, and 1/5 gives `phi = 89964` and passes the decryption test, so `attack`
   *  reports `d = 5`. */
  lemma {:induction false} ExampleKeyBroken()
    ensures FirstBreaking(17993, 90581, Convergents(ContinuedFraction(17993, 90581)), 0) == Some(1)
  {
    var cs := Convergents(ContinuedFraction(17993, 90581));
    ExampleKeyConvergents();
    assert cs[0] == Fraction(0, 1) && cs[1] == Fraction(1, 5);
    ExampleKeyCandidate();
    ExampleKeyEncrypts();
    ExampleKeyDecrypts();
    assert TestMessage(90581) == 42;
    assert DecryptsTestMessage(17993, 5, 90581, 89964);
    assert Breaks(17993, 90581, cs[1]);
  }

  /** The published example: `attack(17993, 90581)` succeeds with `d = 5` and `phi = 89964`. */
  method AttackExampleKey() returns (r: Result<AttackResult>)
    ensures r.Ok? && r.value.success && r.value.d == Some(5) && r.value.phi == Some(89964)
  {
    ExampleKeyBroken();
    ExampleKeyConvergents();
    ExampleKeyCandidate();
    r := Attack(17993, 90581);
  }
}
