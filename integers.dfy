/** Unbounded-integer arithmetic shared by the number-theory, RSA, Wiener-attack and primality
 *  code: Java's truncating division, divisibility, Euclid's greatest common divisor, powers,
 *  congruences and the integer square root. These are the reference definitions the loops of
 *  those classes are proved against. */
module Integers {

  function Abs(x: int): (r: nat)
    ensures r == x || r == -x
  {
    if x < 0 then -x else x
  }

  /** `BigInteger.divide`: the quotient rounded toward zero (Dafny's `/` rounds so that the
   *  remainder is never negative). */
  function JavaDiv(a: int, b: int): int
    requires b != 0
  {
    if (a < 0) == (b < 0) then Abs(a) / Abs(b) else -(Abs(a) / Abs(b))
  }

  /** On a non-negative dividend and a positive divisor the two divisions agree. */
  lemma {:induction false} JavaDivNonNegative(a: int, b: int)
    requires a >= 0 && b > 0
    ensures JavaDiv(a, b) == a / b && 0 <= a / b <= a
  {
    DivBounds(a, b);
  }

  // ----------------------------------------------------------------------------------------
  // Division with remainder

  /** A product of non-negative factors is non-negative. */
  lemma {:induction false} MulNonNegative(x: int, y: int)
    requires x >= 0 && y >= 0
    ensures x * y >= 0
  {
  }

  /** Multiplying by a factor of at least one does not make a positive number smaller. */
  lemma {:induction false} MulAtLeast(m: int, k: int)
    requires m > 0 && k >= 1
    ensures m * k >= m
  {
    MulNonNegative(m, k - 1);
    assert m * k == m + m * (k - 1);
  }

  /** The remainder is determined by any decomposition `x == m * q + t` with `0 <= t < m`. */
  lemma {:induction false} ModOfDecomposition(x: int, m: int, q: int, t: int)
    requires m > 0 && 0 <= t < m && x == m * q + t
    ensures x % m == t && x / m == q
  {
    var q' := x / m;
    var t' := x % m;
    assert x == m * q' + t';
    assert m * (q - q') == t' - t;
    if q > q' {
      MulAtLeast(m, q - q');
    } else if q < q' {
      MulAtLeast(m, q' - q);
    }
  }

  /** The quotient of a non-negative number by a positive one lies between 0 and the number. */
  lemma {:induction false} DivBounds(a: int, b: int)
    requires a >= 0 && b > 0
    ensures 0 <= a / b <= a
  {
    var q := a / b;
    assert a == b * q + a % b;
    if q < 0 {
      MulAtLeast(b, -q);
    } else if q > a {
      MulAtLeast(q, b);
    }
  }

  lemma {:induction false} ModAddMultiple(m: int, k: int, r: int)
    requires m > 0
    ensures (m * k + r) % m == r % m
  {
    assert m * k + r == m * (k + r / m) + r % m;
    ModOfDecomposition(m * k + r, m, k + r / m, r % m);
  }

  lemma {:induction false} ModMultiple(m: int, k: int)
    requires m > 0
    ensures (m * k) % m == 0
  {
    ModOfDecomposition(m * k, m, k, 0);
  }

  /** Remainders of a product depend only on the remainders of the factors. */
  lemma {:induction false} ModMul(x: int, y: int, m: int)
    requires m > 0
    ensures (x * y) % m == ((x % m) * (y % m)) % m
  {
    var qx, rx := x / m, x % m;
    var qy, ry := y / m, y % m;
    ProductSplit(x, y, m, qx, rx, qy, ry);
    ModAddMultiple(m, qx * y + rx * qy, rx * ry);
  }

  lemma {:induction false} ProductSplit(x: int, y: int, m: int, qx: int, rx: int, qy: int, ry: int)
    requires x == m * qx + rx && y == m * qy + ry
    ensures x * y == m * (qx * y + rx * qy) + rx * ry
  {
    calc {
      x * y;
      (m * qx + rx) * y;
      m * qx * y + rx * y;
      m * qx * y + rx * (m * qy) + rx * ry;
      m * (qx * y + rx * qy) + rx * ry;
    }
  }

  lemma {:induction false} ModMod(x: int, m: int)
    requires m > 0
    ensures (x % m) % m == x % m
  {
    ModOfDecomposition(x % m, m, 0, x % m);
  }

  // ----------------------------------------------------------------------------------------
  // Divisibility and the greatest common divisor

  /** `d` divides `x`: `x` is a multiple of `d` (only 0 is a multiple of 0). */
  predicate Divides(d: int, x: int)
  {
    if d == 0 then x == 0 else x % Abs(d) == 0
  }

  /** A multiple of a positive number `m` is `m` times its quotient. */
  lemma {:induction false} MultipleOf(m: int, x: int)
    requires m > 0 && x % m == 0
    ensures x == m * (x / m)
  {
  }

  /** Divisibility is kept by sums of multiples. */
  lemma {:induction false} DividesLinear(d: int, x: int, y: int, k: int)
    requires Divides(d, x) && Divides(d, y)
    ensures Divides(d, x + k * y)
  {
    if d != 0 {
      var m := Abs(d);
      MultipleOf(m, x);
      MultipleOf(m, y);
      assert x + k * y == m * (x / m + k * (y / m)) by {
        assert k * y == k * (m * (y / m));
      }
      ModMultiple(m, x / m + k * (y / m));
    }
  }

  /** A divisor of `x` divides every multiple of `x`. */
  lemma {:induction false} DividesMultiple(d: int, x: int, k: int)
    requires Divides(d, x)
    ensures Divides(d, x * k) && Divides(d, k * x)
  {
    DividesTrivial(d);
    DividesLinear(d, 0, x, k);
    assert 0 + k * x == x * k;
  }

  /** A divisor of `x` divides `-x` and `|x|`. */
  lemma {:induction false} DividesSign(d: int, x: int)
    requires Divides(d, x)
    ensures Divides(d, -x) && Divides(d, Abs(x))
  {
    DividesLinear(d, 0, x, -1);
  }

  /** A divisor of a positive number is at most that number. */
  lemma {:induction false} DividesBound(d: int, x: int)
    requires Divides(d, x) && x > 0
    ensures 1 <= Abs(d) <= x
  {
    var m := Abs(d);
    MultipleOf(m, x);
    var q := x / m;
    if q <= 0 {
      MulNonNegative(m, -q);
    } else {
      MulAtLeast(m, q);
    }
  }

  /** Two non-negative numbers that divide each other are equal. */
  lemma {:induction false} DividesAntisymmetric(a: nat, b: nat)
    requires Divides(a, b) && Divides(b, a)
    ensures a == b
  {
    if a > 0 && b > 0 {
      DividesBound(a, b);
      DividesBound(b, a);
    }
  }

  /** Every number divides zero and is divisible by one and by itself. */
  lemma {:induction false} DividesTrivial(x: int)
    ensures Divides(x, 0) && Divides(1, x) && Divides(x, x)
  {
    if x != 0 {
      ModMultiple(Abs(x), if x < 0 then -1 else 1);
    }
  }

  /** Euclid's algorithm on non-negative numbers: the reference definition of the gcd. */
  function Euclid(a: nat, b: nat): nat
    decreases b
  {
    if b == 0 then a else Euclid(b, a % b)
  }

  /** `g` is the greatest common divisor of `a` and `b`: a non-negative common divisor that
   *  every common divisor divides. */
  ghost predicate IsGcd(g: int, a: int, b: int)
  {
    g >= 0 && Divides(g, a) && Divides(g, b) &&
    forall d :: Divides(d, a) && Divides(d, b) ==> Divides(d, g)
  }

  lemma {:induction false} EuclidDivides(a: nat, b: nat)
    ensures Divides(Euclid(a, b), a) && Divides(Euclid(a, b), b)
    decreases b
  {
    if b == 0 {
      DividesTrivial(a);
    } else {
      var g := Euclid(b, a % b);
      EuclidDivides(b, a % b);
      assert a == a % b + (a / b) * b;
      DividesLinear(g, a % b, b, a / b);
    }
  }

  lemma {:induction false} EuclidGreatest(a: nat, b: nat, d: int)
    requires Divides(d, a) && Divides(d, b)
    ensures Divides(d, Euclid(a, b))
    decreases b
  {
    if b != 0 {
      assert a % b == a + -(a / b) * b;
      DividesLinear(d, a, b, -(a / b));
      EuclidGreatest(b, a % b, d);
    }
  }

  /** Euclid's algorithm on the magnitudes computes the greatest common divisor. */
  lemma {:induction false} EuclidIsGcd(a: int, b: int)
    ensures IsGcd(Euclid(Abs(a), Abs(b)), a, b)
  {
    var g := Euclid(Abs(a), Abs(b));
    EuclidDivides(Abs(a), Abs(b));
    assert Divides(g, a) by {
      DividesSign(g, Abs(a));
    }
    assert Divides(g, b) by {
      DividesSign(g, Abs(b));
    }
    forall d | Divides(d, a) && Divides(d, b)
      ensures Divides(d, g)
    {
      DividesSign(d, a);
      DividesSign(d, b);
      EuclidGreatest(Abs(a), Abs(b), d);
    }
  }

  /** There is only one greatest common divisor. */
  lemma {:induction false} GcdUnique(g: int, h: int, a: int, b: int)
    requires IsGcd(g, a, b) && IsGcd(h, a, b)
    ensures g == h
  {
    DividesAntisymmetric(g, h);
  }

  lemma {:induction false} EuclidSymmetric(a: nat, b: nat)
    ensures Euclid(a, b) == Euclid(b, a)
  {
    EuclidIsGcd(a, b);
    EuclidIsGcd(b, a);
    GcdUnique(Euclid(a, b), Euclid(b, a), a, b);
  }

  /** The gcd with 0 is the magnitude of the other number. */
  lemma {:induction false} EuclidZero(b: nat)
    ensures Euclid(0, b) == b && Euclid(b, 0) == b
  {
  }

  /** Halving an even number does not change its gcd with an odd number. */
  lemma {:induction false} EuclidHalf(a: nat, n: nat)
    requires n % 2 == 1
    ensures Euclid(2 * a, n) == Euclid(a, n)
  {
    var g, h := Euclid(2 * a, n), Euclid(a, n);
    EuclidDivides(2 * a, n);
    EuclidDivides(a, n);
    OddDivisorOfDouble(g, a, n);
    EuclidGreatest(a, n, g);
    DividesLinear(h, 0, a, 2);
    EuclidGreatest(2 * a, n, h);
    DividesAntisymmetric(g, h);
  }

  /** A common divisor of `2 * a` and an odd `n` divides `a`. */
  lemma {:induction false} OddDivisorOfDouble(d: int, a: int, n: int)
    requires n % 2 == 1 && Divides(d, 2 * a) && Divides(d, n)
    ensures Divides(d, a)
  {
    var m := Abs(d);
    MultipleOf(m, n);
    MultipleOf(m, 2 * a);
    var k := (2 * a) / m;
    if m % 2 == 0 {
      EvenTimes(m, n / m);
    } else if k % 2 == 1 {
      OddTimesOdd(m, k);
      ModMultiple(2, a);
    } else {
      EvenFactor(m, k);
      ModMultiple(m, k / 2);
    }
  }

  /** A product with an even factor `k` is twice the product with half of `k`. */
  lemma {:induction false} EvenFactor(m: int, k: int)
    requires k % 2 == 0
    ensures m * k == 2 * (m * (k / 2))
  {
    assert k == 2 * (k / 2);
  }

  lemma {:induction false} EvenTimes(x: int, y: int)
    requires x % 2 == 0
    ensures (x * y) % 2 == 0
  {
    assert x * y == 2 * ((x / 2) * y);
    ModMultiple(2, (x / 2) * y);
  }

  lemma {:induction false} OddTimesOdd(x: int, y: int)
    requires x % 2 == 1 && y % 2 == 1
    ensures (x * y) % 2 == 1
  {
    var i, j := x / 2, y / 2;
    assert x * y == 2 * (2 * i * j + i + j) + 1;
    ModOfDecomposition(x * y, 2, 2 * i * j + i + j, 1);
  }

  // ----------------------------------------------------------------------------------------
  // Powers and congruences

  function Pow(b: int, e: nat): int
  {
    if e == 0 then 1 else b * Pow(b, e - 1)
  }

  lemma {:induction false} PowAdd(b: int, e1: nat, e2: nat)
    ensures Pow(b, e1 + e2) == Pow(b, e1) * Pow(b, e2)
  {
    if e1 > 0 {
      PowAdd(b, e1 - 1, e2);
    }
  }

  /** A positive base has positive powers. */
  lemma {:induction false} PowPositive(b: int, e: nat)
    requires b > 0
    ensures Pow(b, e) > 0
  {
    if e > 0 {
      PowPositive(b, e - 1);
      MulAtLeast(b, Pow(b, e - 1));
    }
  }

  /** Squaring the base halves the exponent. */
  lemma {:induction false} PowSquare(b: int, k: nat)
    ensures Pow(b * b, k) == Pow(b, 2 * k)
  {
    if k > 0 {
      PowSquare(b, k - 1);
      assert Pow(b, 2 * k) == b * (b * Pow(b, 2 * k - 2));
    }
  }

  /** `b^(e+1) mod m` from `b^e mod m`. */
  lemma {:induction false} PowModNext(b: int, e: nat, m: int, r: int)
    requires m > 0 && Pow(b, e) % m == r
    ensures Pow(b, e + 1) % m == ((b % m) * r) % m
  {
    ModMul(b, Pow(b, e), m);
    ModMod(Pow(b, e), m);
  }

  /** `b^(2e) mod m` from `b^e mod m`. */
  lemma {:induction false} PowModDouble(b: int, e: nat, m: int, r: int)
    requires m > 0 && Pow(b, e) % m == r
    ensures Pow(b, e + e) % m == (r * r) % m
  {
    PowAdd(b, e, e);
    ModMul(Pow(b, e), Pow(b, e), m);
    ModMul(r, r, m);
    ModMod(Pow(b, e), m);
  }

  /** Remainders of a power depend only on the remainder of the base. */
  lemma {:induction false} PowModBase(b: int, e: nat, m: int)
    requires m > 0
    ensures Pow(b % m, e) % m == Pow(b, e) % m
  {
    if e > 0 {
      PowModBase(b, e - 1, m);
      ModMul(b % m, Pow(b % m, e - 1), m);
      ModMod(b, m);
      ModMul(b, Pow(b, e - 1), m);
    }
  }

  // ----------------------------------------------------------------------------------------
  // Integer square root

  /** `r` is the floor of the square root of `n`. */
  predicate IsFloorSqrt(r: int, n: int)
  {
    0 <= r && r * r <= n < (r + 1) * (r + 1)
  }

  /** The floor square root by counting up from `r`: the reference definition. */
  function SqrtFrom(n: nat, r: nat): (s: nat)
    requires r * r <= n
    ensures IsFloorSqrt(s, n)
    decreases n - r
  {
    if (r + 1) * (r + 1) > n then r
    else
      MulAtLeast(r + 1, r + 1);
      SqrtFrom(n, r + 1)
  }

  function FloorSqrt(n: nat): (r: nat)
    ensures IsFloorSqrt(r, n)
  {
    SqrtFrom(n, 0)
  }

  lemma {:induction false} SquareMonotonic(x: int, y: int)
    requires 0 <= x <= y
    ensures x * x <= y * y
  {
    MulNonNegative(y - x, y + x);
  }

  /** A number has one floor square root. */
  lemma {:induction false} FloorSqrtUnique(r: int, s: int, n: int)
    requires IsFloorSqrt(r, n) && IsFloorSqrt(s, n)
    ensures r == s
  {
    if r < s {
      SquareMonotonic(r + 1, s);
    } else if s < r {
      SquareMonotonic(s + 1, r);
    }
  }
}
