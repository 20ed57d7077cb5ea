/** `NumberTheoryService`: the Legendre and Jacobi symbols, the greatest common divisor, the
 *  extended Euclidean algorithm and modular exponentiation on unbounded integers. Each loop is a
 *  method proved against a reference definition from `Integers` or from this module. */
module NumberTheoryService {
  import opened Wrappers
  import opened Integers

  // ----------------------------------------------------------------------------------------
  // gcd

  /** `gcd`: Euclid's loop on the magnitudes. */
  method Gcd(a: int, b: int) returns (g: int)
    ensures g == Euclid(Abs(a), Abs(b))
    ensures IsGcd(g, a, b)
  {
    var x: nat, y: nat := Abs(a), Abs(b);
    while y != 0
      invariant Euclid(x, y) == Euclid(Abs(a), Abs(b))
      decreases y
    {
      x, y := y, x % y;
    }
    g := x;
    EuclidIsGcd(a, b);
  }

  /** Java's `gcd(0, b)`: the magnitude of `b`. */
  lemma {:induction false} GcdWithZero(b: int)
    ensures Euclid(Abs(0), Abs(b)) == Abs(b)
  {
    EuclidZero(Abs(b));
  }

  // ----------------------------------------------------------------------------------------
  // Extended gcd

  datatype ExtendedGcdResult = ExtendedGcdResult(gcd: int, x: int, y: int)

  /** One step of the extended loop keeps both remainders as combinations of the inputs. */
  lemma {:induction false} BezoutStep(u: int, v: int, q: int, x0: int, y0: int, x1: int, y1: int, a: int, b: int)
    requires u == x0 * a + y0 * b && v == x1 * a + y1 * b
    ensures u - q * v == (x0 - q * x1) * a + (y0 - q * y1) * b
  {
    assert q * v == (q * x1) * a + (q * y1) * b;
  }

  /** `extendedGcd`: with `b == 0` it returns `(a, 1, 0)` as it is; otherwise it runs the
   *  extended loop on the magnitudes and puts the signs back on the coefficients. */
  method ExtendedGcd(a: int, b: int) returns (r: ExtendedGcdResult)
    ensures b == 0 ==> r == ExtendedGcdResult(a, 1, 0)
    ensures b != 0 ==> r.gcd == Euclid(Abs(a), Abs(b)) && IsGcd(r.gcd, a, b)
    ensures a * r.x + b * r.y == r.gcd
  {
    if b == 0 {
      return ExtendedGcdResult(a, 1, 0);
    }
    var negA := a < 0;
    var negB := b < 0;
    var g, x, y := ExtendedLoop(Abs(a), Abs(b));
    if negA {
      x := -x;
    }
    if negB {
      y := -y;
    }
    assert a * x == Abs(a) * (if negA then -x else x);
    assert b * y == Abs(b) * (if negB then -y else y);
    r := ExtendedGcdResult(g, x, y);
    EuclidIsGcd(a, b);
  }

  /** The loop of `extendedGcd` on non-negative numbers: the remainders of Euclid's algorithm,
   *  each kept as a combination `x * a + y * b` of the inputs. */
  method ExtendedLoop(a: nat, b: nat) returns (g: nat, x: int, y: int)
    ensures g == Euclid(a, b) && x * a + y * b == g
  {
    var u: nat, v: nat := a, b;
    var x0, x1, y0, y1 := 1, 0, 0, 1;
    while v != 0
      invariant u == x0 * a + y0 * b
      invariant v == x1 * a + y1 * b
      invariant Euclid(u, v) == Euclid(a, b)
      decreases v
    {
      var q := u / v;
      assert u % v == u - q * v;
      BezoutStep(u, v, q, x0, y0, x1, y1, a, b);
      var temp: int := v;
      v := u % v;
      u := temp;
      temp := x1;
      x1 := x0 - q * x1;
      x0 := temp;
      temp := y1;
      y1 := y0 - q * y1;
      y0 := temp;
    }
    g, x, y := u, x0, y0;
  }

  // ----------------------------------------------------------------------------------------
  // modPow

  /** A remainder is its own remainder. */
  lemma {:induction false} SmallMod(x: int, m: int)
    requires 0 <= x < m
    ensures x % m == x
  {
    ModOfDecomposition(x, m, 0, x);
  }

  /** One pass of square-and-multiply keeps `result * base^exponent` modulo `m`. */
  lemma {:induction false} SquareMultiplyStep(result: int, b: int, e: nat, m: int)
    requires m > 0 && e > 0
    ensures ((if e % 2 == 1 then (result * b) % m else result) * Pow((b * b) % m, e / 2)) % m ==
            (result * Pow(b, e)) % m
  {
    var h := e / 2;
    var bit := e % 2;
    var r' := if bit == 1 then (result * b) % m else result;
    PowAdd(b, bit, 2 * h);
    PowSquare(b, h);
    assert Pow(b, e) == Pow(b, bit) * Pow(b * b, h) by {
      assert e == bit + 2 * h;
    }
    assert r' % m == (result * Pow(b, bit)) % m by {
      if bit == 1 {
        ModMod(result * b, m);
      }
    }
    calc {
      (r' * Pow((b * b) % m, h)) % m;
      { ModMul(r', Pow((b * b) % m, h), m); }
      ((r' % m) * (Pow((b * b) % m, h) % m)) % m;
      { PowModBase(b * b, h, m); }
      (((result * Pow(b, bit)) % m) * (Pow(b * b, h) % m)) % m;
      { ModMul(result * Pow(b, bit), Pow(b * b, h), m); }
      ((result * Pow(b, bit)) * Pow(b * b, h)) % m;
      { assert (result * Pow(b, bit)) * Pow(b * b, h) == result * (Pow(b, bit) * Pow(b * b, h)); }
      (result * Pow(b, e)) % m;
    }
  }

  /** `modPow`: 0 for modulus 1; an exception for a negative exponent and, from `mod`, for a
   *  modulus that is not positive; otherwise square-and-multiply. */
  method ModPow(base: int, exponent: int, modulus: int) returns (r: Result<int>)
    ensures modulus == 1 ==> r == Ok(0)
    ensures modulus != 1 && exponent < 0 ==> r == Err(IllegalArgument("Negative exponent not supported"))
    ensures modulus != 1 && exponent >= 0 && modulus <= 0 ==> r == Err(Arithmetic)
    ensures modulus > 1 && exponent >= 0 ==> r == Ok(Pow(base, exponent) % modulus)
  {
    if modulus == 1 {
      return Ok(0);
    }
    if exponent < 0 {
      return Err(IllegalArgument("Negative exponent not supported"));
    }
    if modulus <= 0 {
      return Err(Arithmetic);
    }
    var result := 1;
    var b := base % modulus;
    var e: nat := exponent;
    PowModBase(base, exponent, modulus);
    SmallMod(1, modulus);
    while e > 0
      invariant 0 <= b < modulus && 0 <= result < modulus
      invariant (result * Pow(b, e)) % modulus == Pow(base, exponent) % modulus
    {
      SquareMultiplyStep(result, b, e, modulus);
      if e % 2 == 1 {
        result := (result * b) % modulus;
      }
      e := e / 2;
      b := (b * b) % modulus;
    }
    SmallMod(result, modulus);
    r := Ok(result);
  }

  /** The example of the tests: 2^10 mod 1000 is 24. */
  lemma {:induction false} ModPowExample()
    ensures Pow(2, 10) % 1000 == 24
  {
  }

  // ----------------------------------------------------------------------------------------
  // Legendre symbol

  /** Euler's criterion as `legendreSymbol` applies it to an odd positive `p`: 0 for a multiple
   *  of `p`, otherwise 1 or -1 by `a^((p-1)/2) mod p`, and 0 for any other remainder. */
  function Legendre(a: int, p: int): (r: int)
    requires p > 0 && p % 2 == 1
    ensures r == -1 || r == 0 || r == 1
    ensures Divides(p, a) ==> r == 0
    ensures r == 1 <==> !Divides(p, a) && Pow(a, (p - 1) / 2) % p == 1
    ensures r == -1 <==> !Divides(p, a) && p > 2 && Pow(a, (p - 1) / 2) % p == p - 1
  {
    if a % p == 0 then 0
    else
      var t := Pow(a, (p - 1) / 2) % p;
      if t == 1 then 1 else if t == p - 1 then -1 else 0
  }

  /** `legendreSymbol`: `p` must be odd; `mod` then rejects a negative `p`. */
  method LegendreSymbol(a: int, p: int) returns (r: Result<int>)
    ensures p % 2 == 0 ==> r == Err(IllegalArgument("p must be odd"))
    ensures p % 2 == 1 && p < 0 ==> r == Err(Arithmetic)
    ensures p % 2 == 1 && p > 0 ==> r == Ok(Legendre(a, p))
  {
    if p % 2 == 0 {
      return Err(IllegalArgument("p must be odd"));
    }
    if p < 0 {
      return Err(Arithmetic);
    }
    var x := a % p;
    if x == 0 {
      return Ok(0);
    }
    var exponent := (p - 1) / 2;
    var result := ModPow(x, exponent, p);
    PowModBase(a, exponent, p);
    if result == Ok(1) {
      r := Ok(1);
    } else if result == Ok(p - 1) {
      r := Ok(-1);
    } else {
      r := Ok(0);
    }
  }

  /** The values of the tests: 2 is a square modulo 7 and 3 is not. */
  lemma {:induction false} LegendreExamples()
    ensures Legendre(2, 7) == 1 && Legendre(3, 7) == -1
  {
  }

  // ----------------------------------------------------------------------------------------
  // Jacobi symbol

  /** The Jacobi symbol by the reciprocity rules `jacobiSymbol` applies: factors of two by the
   *  second supplement, odd `a` by quadratic reciprocity, and 0 when the gcd is not 1. */
  function Jacobi(a: nat, n: nat): (r: int)
    requires n % 2 == 1
    ensures r == -1 || r == 0 || r == 1
    decreases a
  {
    if a == 0 then (if n == 1 then 1 else 0)
    else if a % 2 == 0 then (if n % 8 == 3 || n % 8 == 5 then -1 else 1) * Jacobi(a / 2, n)
    else (if a % 4 == 3 && n % 4 == 3 then -1 else 1) * Jacobi(n % a, a)
  }

  /** The symbol is 0 exactly when `a` and `n` have a common factor. */
  lemma {:induction false} JacobiZero(a: nat, n: nat)
    requires n % 2 == 1
    ensures Jacobi(a, n) == 0 <==> Euclid(a, n) != 1
    decreases a
  {
    if a == 0 {
      EuclidZero(n);
    } else if a % 2 == 0 {
      JacobiZero(a / 2, n);
      EuclidHalf(a / 2, n);
    } else {
      JacobiZero(n % a, a);
      EuclidSymmetric(a, n);
      EuclidSymmetric(n % a, a);
    }
  }

  lemma {:induction false} RemainderAsCombination(a: int, n: int)
    requires n > 0
    ensures a % n == a + -(a / n) * n && a == a % n + (a / n) * n
  {
  }

  /** A gcd with `n` does not change when `a` is reduced modulo `n`. */
  lemma {:induction false} GcdOfRemainder(a: int, n: int)
    requires n > 0
    ensures Euclid(a % n, n) == Euclid(Abs(a), n)
  {
    var g, h := Euclid(a % n, n), Euclid(Abs(a), n);
    EuclidIsGcd(a % n, n);
    EuclidIsGcd(a, n);
    RemainderAsCombination(a, n);
    DividesLinear(h, a, n, -(a / n));
    DividesLinear(g, a % n, n, a / n);
    DividesAntisymmetric(g, h);
  }

  /** What the tests expect of `jacobiSymbol(a, n)`: -1, 0 or 1, and 0 exactly when `a` and `n`
   *  are not coprime. */
  lemma {:induction false} JacobiCoprime(a: int, n: int)
    requires n > 1 && n % 2 == 1
    ensures Jacobi(a % n, n) == 0 <==> Euclid(Abs(a), n) != 1
  {
    JacobiZero(a % n, n);
    GcdOfRemainder(a, n);
  }

  /** The value of the tests: the Jacobi symbol of 1001 over 9907 is -1. */
  lemma {:induction false} JacobiExample()
    ensures Jacobi(1001, 9907) == -1
  {
    assert Jacobi(1, 29) == 1;
    assert Jacobi(8, 29) == -1;
    assert Jacobi(29, 37) == -1;
    assert Jacobi(103, 449) == -1;
    assert Jacobi(449, 1001) == -1;
  }

  /** `jacobiSymbol`: `n` must be odd and greater than 1; the loop strips factors of two, swaps
   *  the pair and reduces, tracking the sign in `result`. */
  method JacobiSymbol(a: int, n: int) returns (r: Result<int>)
    ensures (n <= 1 || n % 2 == 0) ==> r == Err(IllegalArgument("n must be odd and greater than 1"))
    ensures n > 1 && n % 2 == 1 ==> r == Ok(Jacobi(a % n, n))
  {
    if n <= 1 || n % 2 == 0 {
      return Err(IllegalArgument("n must be odd and greater than 1"));
    }
    var x: nat := a % n;
    var m: nat := n;
    var result := 1;
    while x != 0
      invariant m % 2 == 1
      invariant result == 1 || result == -1
      invariant Signed(result, Jacobi(x, m)) == Jacobi(a % n, n)
      decreases x
    {
      x, result := StripTwos(x, m, result);
      JacobiReciprocity(x, m);
      var temp := x;
      x := m;
      m := temp;
      if x % 4 == 3 && m % 4 == 3 {
        result := -result;
      }
      x := x % m;
    }
    if m == 1 {
      r := Ok(result);
    } else {
      r := Ok(0);
    }
  }

  /** `j` with the sign `sign` (1 or -1) applied. */
  function Signed(sign: int, j: int): int
  {
    if sign == 1 then j else -j
  }

  /** One halving step of the definition, without multiplication. */
  lemma {:induction false} JacobiHalving(x: nat, m: nat)
    requires x > 0 && x % 2 == 0 && m % 2 == 1
    ensures Jacobi(x, m) == if m % 8 == 3 || m % 8 == 5 then -Jacobi(x / 2, m) else Jacobi(x / 2, m)
  {
  }

  /** One reciprocity step of the definition, without multiplication. */
  lemma {:induction false} JacobiReciprocity(x: nat, m: nat)
    requires x % 2 == 1 && m % 2 == 1
    ensures Jacobi(x, m) == if x % 4 == 3 && m % 4 == 3 then -Jacobi(m % x, x) else Jacobi(m % x, x)
  {
  }

  /** The inner loop of `jacobiSymbol`: halves `x` while it is even, flipping the sign for each
   *  halving when `m` is 3 or 5 modulo 8. */
  method StripTwos(x0: nat, m: nat, sign0: int) returns (x: nat, sign: int)
    requires x0 > 0 && m % 2 == 1 && (sign0 == 1 || sign0 == -1)
    ensures 0 < x <= x0 && x % 2 == 1 && (sign == 1 || sign == -1)
    ensures Signed(sign, Jacobi(x, m)) == Signed(sign0, Jacobi(x0, m))
  {
    x, sign := x0, sign0;
    while x % 2 == 0
      invariant 0 < x <= x0 && (sign == 1 || sign == -1)
      invariant Signed(sign, Jacobi(x, m)) == Signed(sign0, Jacobi(x0, m))
      decreases x
    {
      JacobiHalving(x, m);
      x := x / 2;
      if m % 8 == 3 || m % 8 == 5 {
        sign := -sign;
      }
    }
  }
}
