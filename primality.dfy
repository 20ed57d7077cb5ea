/** The probabilistic primality tests of lab2: the shared driver of `AbstractPrimalityTest`
 *  and the single rounds of the Fermat, Solovay-Strassen and Miller-Rabin tests.
 *
 *  The random witnesses and the round count are parameters: `calculateIterations` works in
 *  floating point, so the number of rounds `k` is given, and the witness of round `i` is
 *  `witnesses[i]`. Each round is specified by a predicate on `(n, a)`; the lemmas show that a
 *  witness sharing a factor with `n` fails every round, and fix the values the tests expect. */
module PrimalityTests {
  import opened Wrappers
  import opened Integers
  import NT = NumberTheoryService

  datatype TestKind = Fermat | SolovayStrassen | MillerRabin

  /** `getSingleTestErrorProbability`: 0.5 for Fermat and Solovay-Strassen, 0.25 for
   *  Miller-Rabin. */
  function SingleTestErrorProbability(kind: TestKind): (r: real)
    ensures 0.0 < r <= 0.5
    ensures r < 0.5 <==> kind == MillerRabin
  {
    match kind
    case Fermat => 0.5
    case SolovayStrassen => 0.5
    case MillerRabin => 0.25
  }

  // ----------------------------------------------------------------------------------------
  // Rounds

  /** A candidate the driver hands to a single round: odd and at least 3. */
  predicate IsRoundCandidate(n: int)
  {
    n >= 3 && n % 2 == 1
  }

  /** Fermat round: `a^(n-1) mod n` is 1. */
  predicate FermatRound(n: int, a: int)
    requires IsRoundCandidate(n)
  {
    Pow(a, n - 1) % n == 1
  }

  /** Solovay-Strassen round: the Jacobi symbol of `a` over `n` is not 0 and Euler's criterion
   *  `a^((n-1)/2) mod n` equals the symbol reduced into [0, n). */
  predicate SolovayStrassenRound(n: int, a: int)
    requires IsRoundCandidate(n)
  {
    var j := NT.Jacobi(a % n, n);
    j != 0 && Pow(a, (n - 1) / 2) % n == j % n
  }

  /** The symbol reduced into [0, n) is 1 or `n - 1`: never negative, so the correction that
   *  adds `n` to a negative value never applies. */
  lemma {:induction false} JacobiReduced(j: int, n: int)
    requires n >= 3 && (j == 1 || j == -1)
    ensures 0 <= j % n < n
    ensures j % n == if j == 1 then 1 else n - 1
  {
    if j == -1 {
      ModOfDecomposition(-1, n, -1, n - 1);
    } else {
      NT.SmallMod(1, n);
    }
  }

  /** `m = 2^s * d` with `d` odd: the factors of two stripped from a positive `m`. */
  function TwoAdic(m: nat): (r: (nat, nat))
    requires m > 0
    ensures m == Pow(2, r.0) * r.1 && r.1 % 2 == 1
    decreases m
  {
    if m % 2 == 1 then (0, m)
    else
      var (s, d) := TwoAdic(m / 2);
      assert Pow(2, s + 1) == 2 * Pow(2, s);
      (s + 1, d)
  }

  /** `x` squared modulo `n`, `i` times. */
  function Squarings(x: int, n: int, i: nat): int
    requires n > 0
  {
    if i == 0 then x else var y := Squarings(x, n, i - 1); (y * y) % n
  }

  /** Miller-Rabin round for `n - 1 = 2^s * d`: `a^d mod n` is 1, or one of its first `s`
   *  squarings modulo `n` (counting the value itself) is `n - 1`. */
  predicate MillerRabinRound(n: int, a: int)
    requires IsRoundCandidate(n)
  {
    var (s, d) := TwoAdic(n - 1);
    var x := Pow(a, d) % n;
    x == 1 || ReachesMinusOne(x, n, s)
  }

  /** One of the first `s` squarings of `x` modulo `n` (counting `x` itself) is `n - 1`. */
  predicate ReachesMinusOne(x: int, n: int, s: nat)
    requires n > 0
  {
    exists i | 0 <= i < s :: Squarings(x, n, i) == n - 1
  }

  /** The squarings are the textbook sequence `a^(d * 2^i) mod n`. */
  lemma {:induction false} SquaringsArePowers(a: int, d: nat, n: int, i: nat)
    requires n > 0
    ensures d * Pow(2, i) >= 0 && Squarings(Pow(a, d) % n, n, i) == Pow(a, d * Pow(2, i)) % n
  {
    PowPositive(2, i);
    MulNonNegative(d, Pow(2, i));
    if i > 0 {
      SquaringsArePowers(a, d, n, i - 1);
      var e := d * Pow(2, i - 1);
      var y := Pow(a, e);
      assert d * Pow(2, i) == e + e;
      PowAdd(a, e, e);
      ModMul(y, y, n);
      ModMul(y % n, y % n, n);
      ModMod(y, n);
    }
  }

  /** Once a squaring reaches 1 it stays 1. */
  lemma {:induction false} OneStaysOne(x: int, n: int, i: nat, j: nat)
    requires n > 1 && i <= j && Squarings(x, n, i) == 1
    ensures Squarings(x, n, j) == 1
    decreases j - i
  {
    if i < j {
      OneStaysOne(x, n, i, j - 1);
      NT.SmallMod(1, n);
    }
  }

  function RoundPasses(kind: TestKind, n: int, a: int): bool
    requires IsRoundCandidate(n)
  {
    match kind
    case Fermat => FermatRound(n, a)
    case SolovayStrassen => SolovayStrassenRound(n, a)
    case MillerRabin => MillerRabinRound(n, a)
  }

  /** The loop of `performSingleTest` in `MillerRabinTest` that strips the factors of two from
   *  `n - 1`. */
  method Decompose(m: nat) returns (s: nat, d: nat)
    requires m > 0
    ensures (s, d) == TwoAdic(m)
  {
    s := 0;
    d := m;
    while d % 2 == 0
      invariant d > 0 && TwoAdic(m) == (s + TwoAdic(d).0, TwoAdic(d).1)
      decreases d
    {
      s := s + 1;
      d := d / 2;
    }
  }

  /** The round once `s`, `d` and `x = a^d mod n` are known. */
  lemma {:induction false} MillerRabinRoundUnfold(n: int, a: int, s: nat, d: nat, x: int)
    requires IsRoundCandidate(n) && (s, d) == TwoAdic(n - 1) && x == Pow(a, d) % n
    ensures MillerRabinRound(n, a) <==> x == 1 || ReachesMinusOne(x, n, s)
  {
  }

  /** `MillerRabinTest.performSingleTest` with witness `a`: pass at once on `a^d mod n` in
   *  {1, n-1}; then square at most `s - 1` times, passing on `n - 1` and failing on 1 or when
   *  the squarings run out. */
  method MillerRabinSingleTest(n: int, a: int) returns (pass: bool)
    requires IsRoundCandidate(n)
    ensures pass == MillerRabinRound(n, a)
  {
    var nMinusOne := n - 1;
    var s, d := Decompose(nMinusOne);
    assert s >= 1 by {
      assert nMinusOne % 2 == 0;
    }
    var power := NT.ModPow(a, d, n);
    var x := power.value;
    ghost var x0 := x;
    MillerRabinRoundUnfold(n, a, s, d, x0);
    if x == 1 || x == nMinusOne {
      assert Squarings(x0, n, 0) == x0;
      return true;
    }
    var i := 0;
    while i < s - 1
      invariant 0 <= i <= s - 1
      invariant x == Squarings(x0, n, i)
      invariant forall j | 0 <= j <= i :: Squarings(x0, n, j) != n - 1
    {
      x := (x * x) % n;
      i := i + 1;
      if x == nMinusOne {
        assert Squarings(x0, n, i) == n - 1;
        return true;
      }
      if x == 1 {
        forall j | i <= j < s
          ensures Squarings(x0, n, j) != n - 1
        {
          OneStaysOne(x0, n, i, j);
        }
        assert forall j | 0 <= j < s :: Squarings(x0, n, j) != n - 1;
        return false;
      }
    }
    assert forall j | 0 <= j < s :: Squarings(x0, n, j) != n - 1;
    pass := false;
  }

  /** `performSingleTest` of the three tests, with the witness given. */
  method PerformSingleTest(kind: TestKind, n: int, a: int) returns (pass: bool)
    requires IsRoundCandidate(n)
    ensures pass == RoundPasses(kind, n, a)
  {
    match kind
    case Fermat =>
      var result := NT.ModPow(a, n - 1, n);
      pass := result.value == 1;
    case SolovayStrassen =>
      var jacobi := NT.JacobiSymbol(a, n);
      if jacobi.value == 0 {
        return false;
      }
      var modResult := NT.ModPow(a, (n - 1) / 2, n);
      var jacobiMod := jacobi.value % n;
      pass := modResult.value == jacobiMod;
    case MillerRabin =>
      pass := MillerRabinSingleTest(n, a);
  }

  // ----------------------------------------------------------------------------------------
  // A witness sharing a factor with n fails every round

  /** A common factor of `a` and `n` divides every positive power of `a` reduced modulo `n`. */
  lemma {:induction false} CommonFactorOfPower(a: int, e: nat, n: int, g: int)
    requires n > 0 && e >= 1 && Divides(g, a) && Divides(g, n)
    ensures Divides(g, Pow(a, e) % n)
  {
    var p := Pow(a, e);
    assert p == Pow(a, e - 1) * a;
    DividesTrivial(0);
    DividesLinear(g, 0, a, Pow(a, e - 1));
    NT.RemainderAsCombination(p, n);
    DividesLinear(g, p, n, -(p / n));
  }

  /** A common factor of two consecutive numbers divides 1. */
  lemma {:induction false} ConsecutiveCommonFactor(g: int, n: int)
    ensures Divides(g, n) && Divides(g, n - 1) ==> Divides(g, 1)
  {
    if Divides(g, n) && Divides(g, n - 1) {
      DividesLinear(g, n, n - 1, -1);
    }
  }

  /** Only 1 and -1 divide 1. */
  lemma {:induction false} DivisorsOfOne(g: int)
    ensures Divides(g, 1) ==> Abs(g) <= 1
  {
    if Divides(g, 1) {
      DividesBound(g, 1);
    }
  }

  /** No factor of `n` above 1 divides 1 or `n - 1`. */
  lemma {:induction false} FactorOfNeighbour(g: int, n: int)
    requires n >= 3 && Divides(g, n) && Abs(g) > 1
    ensures !Divides(g, 1) && !Divides(g, n - 1)
  {
    ConsecutiveCommonFactor(g, n);
    DivisorsOfOne(g);
  }

  /** The Fermat round rejects a witness sharing a factor with `n`. */
  lemma {:induction false} FermatSharedFactorFails(n: int, a: int, g: int)
    requires IsRoundCandidate(n) && Divides(g, a) && Divides(g, n) && Abs(g) > 1
    ensures !FermatRound(n, a)
  {
    FactorOfNeighbour(g, n);
    CommonFactorOfPower(a, n - 1, n, g);
  }

  /** The Solovay-Strassen round rejects a witness sharing a factor with `n`: its Jacobi
   *  symbol is 0. */
  lemma {:induction false} SolovayStrassenSharedFactorFails(n: int, a: int, g: int)
    requires IsRoundCandidate(n) && Divides(g, a) && Divides(g, n) && Abs(g) > 1
    ensures !SolovayStrassenRound(n, a)
  {
    DividesSign(g, a);
    EuclidGreatest(Abs(a), n, g);
    DivisorsOfOne(g);
    NT.JacobiCoprime(a, n);
  }

  /** The Miller-Rabin round rejects a witness sharing a factor with `n`: neither `a^d mod n`
   *  nor any of its squarings is 1 or `n - 1`. */
  lemma {:induction false} MillerRabinSharedFactorFails(n: int, a: int, g: int)
    requires IsRoundCandidate(n) && Divides(g, a) && Divides(g, n) && Abs(g) > 1
    ensures !MillerRabinRound(n, a)
  {
    FactorOfNeighbour(g, n);
    var (s, d) := TwoAdic(n - 1);
    var x := Pow(a, d) % n;
    CommonFactorOfPower(a, d, n, g);
    forall i | 0 <= i < s
      ensures Squarings(x, n, i) != n - 1
    {
      SquaringsArePowers(a, d, n, i);
      PowPositive(2, i);
      MulAtLeast(d, Pow(2, i));
      CommonFactorOfPower(a, d * Pow(2, i), n, g);
    }
  }

  /** A witness with a factor in common with `n` makes every round fail: each test accepts
   *  only witnesses coprime to `n`. */
  lemma {:induction false} SharedFactorFails(kind: TestKind, n: int, a: int, g: int)
    requires IsRoundCandidate(n) && Divides(g, a) && Divides(g, n) && Abs(g) > 1
    ensures !RoundPasses(kind, n, a)
  {
    match kind
    case Fermat => FermatSharedFactorFails(n, a, g);
    case SolovayStrassen => SolovayStrassenSharedFactorFails(n, a, g);
    case MillerRabin => MillerRabinSharedFactorFails(n, a, g);
  }

  // ----------------------------------------------------------------------------------------
  // The driver

  const ProbabilityRange := "minProbability must be in range [0.5, 1)"

  /** `isProbablyPrime` with `k` rounds on the given witnesses: the range check on
   *  `minProbability`, answers without a round for `n < 4` and even `n`, then the rounds in
   *  order, stopping at the first that fails. `rounds` is the number of rounds run. */
  method IsProbablyPrime(kind: TestKind, n: int, minProbability: real, k: nat, witnesses: seq<int>)
    returns (r: Result<bool>, rounds: nat)
    requires |witnesses| >= k
    ensures !(0.5 <= minProbability < 1.0) ==> r == Err(IllegalArgument(ProbabilityRange)) && rounds == 0
    ensures 0.5 <= minProbability < 1.0 && n < 2 ==> r == Ok(false) && rounds == 0
    ensures 0.5 <= minProbability < 1.0 && (n == 2 || n == 3) ==> r == Ok(true) && rounds == 0
    ensures 0.5 <= minProbability < 1.0 && n >= 4 && n % 2 == 0 ==> r == Ok(false) && rounds == 0
    ensures 0.5 <= minProbability < 1.0 && n >= 5 && n % 2 == 1 ==>
              r == Ok(forall i | 0 <= i < k :: RoundPasses(kind, n, witnesses[i])) &&
              rounds <= k &&
              (forall i | 0 <= i < rounds - 1 :: RoundPasses(kind, n, witnesses[i])) &&
              (r == Ok(false) ==> rounds >= 1 && !RoundPasses(kind, n, witnesses[rounds - 1])) &&
              (r == Ok(true) ==> rounds == k)
  {
    rounds := 0;
    if minProbability < 0.5 || minProbability >= 1.0 {
      return Err(IllegalArgument(ProbabilityRange)), 0;
    }
    if n < 2 {
      return Ok(false), 0;
    }
    if n == 2 || n == 3 {
      return Ok(true), 0;
    }
    if n % 2 == 0 {
      return Ok(false), 0;
    }
    var i := 0;
    while i < k
      invariant 0 <= i <= k && rounds == i
      invariant forall j | 0 <= j < i :: RoundPasses(kind, n, witnesses[j])
    {
      var pass := PerformSingleTest(kind, n, witnesses[i]);
      rounds := rounds + 1;
      if !pass {
        return Ok(false), rounds;
      }
      i := i + 1;
    }
    r := Ok(true);
  }

  /** `generateRandomWitness` over the given draws: the first draw in [2, n), or `None` when
   *  the draws run out first. */
  method GenerateRandomWitness(n: int, draws: seq<int>) returns (w: Option<int>)
    ensures w.Some? <==> exists i | 0 <= i < |draws| :: 2 <= draws[i] < n
    ensures w.Some? ==> 2 <= w.value < n
    ensures w.Some? ==> exists i | 0 <= i < |draws| ::
              draws[i] == w.value && forall j | 0 <= j < i :: !(2 <= draws[j] < n)
  {
    var i := 0;
    while i < |draws|
      invariant 0 <= i <= |draws|
      invariant forall j | 0 <= j < i :: !(2 <= draws[j] < n)
    {
      if 2 <= draws[i] < n {
        return Some(draws[i]);
      }
      i := i + 1;
    }
    w := None;
  }

  // ----------------------------------------------------------------------------------------
  // Values the tests expect

  /** `a^8` and `a^16` modulo 17 by repeated squaring of `x = a mod 17`. */
  lemma {:induction false} PowersModSeventeen(a: int, x: int, r2: int, r4: int, r8: int, r16: int)
    requires a % 17 == x
    requires r2 == (x * x) % 17 && r4 == (r2 * r2) % 17 && r8 == (r4 * r4) % 17 && r16 == (r8 * r8) % 17
    ensures Pow(a, 8) % 17 == r8 && Pow(a, 16) % 17 == r16
  {
    PowModNext(a, 0, 17, 1);
    PowModDouble(a, 1, 17, x);
    PowModDouble(a, 2, 17, r2);
    PowModDouble(a, 4, 17, r4);
    PowModDouble(a, 8, 17, r8);
  }

  /** 15 is caught by the Fermat round with witness 2: `2^14 mod 15 = 4`. */
  lemma {:induction false} FermatCatchesFifteen()
    ensures !FermatRound(15, 2)
  {
    PowModNext(2, 0, 15, 1);
    PowModDouble(2, 1, 15, 2);
    PowModNext(2, 2, 15, 4);
    PowModDouble(2, 3, 15, 8);
    PowModNext(2, 6, 15, 4);
    PowModDouble(2, 7, 15, 8);
  }

  /** The prime 17 passes the Fermat round with the witnesses 2 and 3. */
  lemma {:induction false} FermatPassesSeventeen()
    ensures FermatRound(17, 2) && FermatRound(17, 3)
  {
    PowersModSeventeen(2, 2, 4, 16, 1, 1);
    PowersModSeventeen(3, 3, 9, 13, 16, 1);
  }

  /** The prime 17 passes the Solovay-Strassen round with the quadratic residue 2 (symbol 1,
   *  `2^8 mod 17 = 1`) and with the non-residue 3 (symbol -1, reduced to 16, and
   *  `3^8 mod 17 = 16`). */
  lemma {:induction false} SolovayStrassenPassesSeventeen()
    ensures SolovayStrassenRound(17, 2) && SolovayStrassenRound(17, 3)
  {
    PowersModSeventeen(2, 2, 4, 16, 1, 1);
    assert NT.Jacobi(1, 17) == 1;
    assert NT.Jacobi(2, 17) == 1;
    PowersModSeventeen(3, 3, 9, 13, 16, 1);
    assert NT.Jacobi(1, 3) == 1;
    assert NT.Jacobi(2, 3) == -1;
    assert NT.Jacobi(3, 17) == -1;
  }

  /** The prime 17 passes the Miller-Rabin round with witness 3: `16 = 2^4 * 1`, and 3 squares
   *  to 9, 13 and then 16. */
  lemma {:induction false} MillerRabinPassesSeventeen()
    ensures MillerRabinRound(17, 3)
  {
    SixteenIsFourHalvings();
    assert Pow(3, 1) % 17 == 3;
    ThreeSquaresToMinusOne();
  }

  /** Squaring 3 modulo 17 gives 9, 13 and then 16, which is -1. */
  lemma {:induction false} ThreeSquaresToMinusOne()
    ensures ReachesMinusOne(3, 17, 4)
  {
    assert Squarings(3, 17, 1) == 9;
    assert Squarings(3, 17, 2) == 13;
    assert Squarings(3, 17, 3) == 16;
  }

  /** `16 = 2^4 * 1`. */
  lemma {:induction false} SixteenIsFourHalvings()
    ensures TwoAdic(16) == (4, 1)
  {
    assert TwoAdic(1) == (0, 1);
    assert TwoAdic(2) == (1, 1);
    assert TwoAdic(4) == (2, 1);
    assert TwoAdic(8) == (3, 1);
  }

  /** `2^35 mod 561 = 263`, by square-and-multiply. */
  lemma {:induction false} PowerOfTwoMod561()
    ensures Pow(2, 35) % 561 == 263
  {
    PowModNext(2, 0, 561, 1);
    PowModDouble(2, 1, 561, 2);
    PowModDouble(2, 2, 561, 4);
    PowModDouble(2, 4, 561, 16);
    PowModDouble(2, 8, 561, 256);
    PowModNext(2, 16, 561, 460);
    PowModDouble(2, 17, 561, 359);
    PowModNext(2, 34, 561, 412);
  }

  /** The Carmichael number 561 = 3 * 11 * 17 passes every Fermat round with a coprime
   *  witness, but the witness 2 makes its Miller-Rabin round fail: `560 = 2^4 * 35`, and
   *  `2^35 mod 561 = 263` squares to 166, 67 and 1 without meeting 560. */
  lemma {:induction false} MillerRabinCatches561()
    ensures !MillerRabinRound(561, 2)
  {
    PowerOfTwoMod561();
    FiveSixtyHalvings();
    SquaresMiss561();
  }

  /** `560 = 2^4 * 35`. */
  lemma {:induction false} FiveSixtyHalvings()
    ensures TwoAdic(560) == (4, 35)
  {
    assert TwoAdic(35) == (0, 35);
    assert TwoAdic(70) == (1, 35);
    assert TwoAdic(140) == (2, 35);
    assert TwoAdic(280) == (3, 35);
  }

  /** 263 squares to 166, 67 and 1 modulo 561, never to 560. */
  lemma {:induction false} SquaresMiss561()
    ensures !ReachesMinusOne(263, 561, 4)
  {
    assert Squarings(263, 561, 1) == 166;
    assert Squarings(263, 561, 2) == 67;
    assert Squarings(263, 561, 3) == 1;
  }

  /** `2^69 mod 1105 = 967`, by square-and-multiply. */
  lemma {:induction false} PowerOfTwoMod1105()
    ensures Pow(2, 69) % 1105 == 967
  {
    PowModNext(2, 0, 1105, 1);
    PowModDouble(2, 1, 1105, 2);
    PowModDouble(2, 2, 1105, 4);
    PowModDouble(2, 4, 1105, 16);
    PowModDouble(2, 8, 1105, 256);
    PowModNext(2, 16, 1105, 341);
    PowModDouble(2, 17, 1105, 682);
    PowModDouble(2, 34, 1105, 1024);
    PowModNext(2, 68, 1105, 1036);
  }

  /** The Carmichael number 1105 with witness 2: `1104 = 2^4 * 69`, and `2^69 mod 1105 = 967`
   *  squares to 259, 781 and 1. */
  lemma {:induction false} MillerRabinCatches1105()
    ensures !MillerRabinRound(1105, 2)
  {
    PowerOfTwoMod1105();
    ElevenOFourHalvings();
    SquaresMiss1105();
  }

  /** `1104 = 2^4 * 69`. */
  lemma {:induction false} ElevenOFourHalvings()
    ensures TwoAdic(1104) == (4, 69)
  {
    assert TwoAdic(69) == (0, 69);
    assert TwoAdic(138) == (1, 69);
    assert TwoAdic(276) == (2, 69);
    assert TwoAdic(552) == (3, 69);
  }

  /** 967 squares to 259, 781 and 1 modulo 1105, never to 1104. */
  lemma {:induction false} SquaresMiss1105()
    ensures !ReachesMinusOne(967, 1105, 4)
  {
    assert Squarings(967, 1105, 1) == 259;
    assert Squarings(967, 1105, 2) == 781;
    assert Squarings(967, 1105, 3) == 1;
  }

  /** `2^27 mod 1729 = 645`, by square-and-multiply. */
  lemma {:induction false} PowerOfTwoMod1729()
    ensures Pow(2, 27) % 1729 == 645
  {
    PowModNext(2, 0, 1729, 1);
    PowModDouble(2, 1, 1729, 2);
    PowModNext(2, 2, 1729, 4);
    PowModDouble(2, 3, 1729, 8);
    PowModDouble(2, 6, 1729, 64);
    PowModNext(2, 12, 1729, 638);
    PowModDouble(2, 13, 1729, 1276);
    PowModNext(2, 26, 1729, 1187);
  }

  /** The Carmichael number 1729 with witness 2: `1728 = 2^6 * 27`, and `2^27 mod 1729 = 645`
   *  squares to 1065 and then 1, which stays 1. */
  lemma {:induction false} MillerRabinCatches1729()
    ensures !MillerRabinRound(1729, 2)
  {
    PowerOfTwoMod1729();
    SeventeenTwentyEightHalvings();
    SquaresMiss1729();
  }

  /** `1728 = 2^6 * 27`. */
  lemma {:induction false} SeventeenTwentyEightHalvings()
    ensures TwoAdic(1728) == (6, 27)
  {
    assert TwoAdic(27) == (0, 27);
    assert TwoAdic(54) == (1, 27);
    assert TwoAdic(108) == (2, 27);
    assert TwoAdic(216) == (3, 27);
    assert TwoAdic(432) == (4, 27);
    assert TwoAdic(864) == (5, 27);
  }

  /** 645 squares to 1065 and then 1 modulo 1729, and 1 stays 1: 1728 is never met. */
  lemma {:induction false} SquaresMiss1729()
    ensures !ReachesMinusOne(645, 1729, 6)
  {
    assert Squarings(645, 1729, 1) == 1065;
    assert Squarings(645, 1729, 2) == 1;
    forall i | 2 <= i < 6
      ensures Squarings(645, 1729, i) == 1
    {
      OneStaysOne(645, 1729, 2, i);
    }
  }
}
