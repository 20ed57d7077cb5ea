/** Polynomials over GF(2) packed into natural numbers, as GF256Service.java and
 *  GaloisFieldService.java keep them in ints: bit i is the coefficient of x^i.
 *  Addition is bitwise exclusive or, multiplication the carry-less product, and `Mod`/`Quot`
 *  the remainder and quotient of long division. The ring laws proved here are what the
 *  field arithmetic, the inverse and Rijndael's MixColumns rest on. */
module Gf2Poly {

  function Pow2(k: nat): (r: nat)
    ensures r >= 1
  {
    if k == 0 then 1 else 2 * Pow2(k - 1)
  }

  /** Bitwise exclusive or of two naturals: the sum of two polynomials. */
  function Xor(a: nat, b: nat): nat
    decreases a + b
  {
    if a == 0 && b == 0 then 0
    else 2 * Xor(a / 2, b / 2) + Bit(a % 2 != b % 2)
  }

  function Bit(b: bool): nat
  {
    if b then 1 else 0
  }

  /** Exclusive or, one bit at a time: the low bits combine and the rest is the exclusive or
   *  of the high parts. */
  lemma {:induction false} XorUnfold(a: nat, b: nat, i: nat, j: nat)
    requires i < 2 && j < 2
    ensures Xor(2 * a + i, 2 * b + j) == 2 * Xor(a, b) + Bit(i != j)
  {
    if 2 * a + i == 0 && 2 * b + j == 0 {
      assert Xor(a, b) == 0;
    } else {
      assert (2 * a + i) / 2 == a && (2 * a + i) % 2 == i;
      assert (2 * b + j) / 2 == b && (2 * b + j) % 2 == j;
    }
  }

  /** One step of evaluating an exclusive or of constants, lowest bit first: bit `k` is the
   *  sum of bits `i` and `j`, on top of the already known sum `r` of the high parts. */
  lemma {:induction false} XorStep(a: nat, b: nat, i: nat, j: nat, k: nat, r: nat)
    requires i < 2 && j < 2 && k < 2 && (k == 0 <==> i == j)
    requires Xor(a, b) == r
    ensures Xor(i + 2 * a, j + 2 * b) == k + 2 * r
  {
    XorUnfold(a, b, i, j);
  }

  lemma {:induction false} XorZero(a: nat)
    ensures Xor(a, 0) == a && Xor(0, a) == a
    decreases a
  {
    if a != 0 {
      XorZero(a / 2);
    }
  }

  lemma {:induction false} XorSelf(a: nat)
    ensures Xor(a, a) == 0
    decreases a
  {
    if a != 0 {
      XorSelf(a / 2);
    }
  }

  lemma {:induction false} XorComm(a: nat, b: nat)
    ensures Xor(a, b) == Xor(b, a)
    decreases a + b
  {
    if a != 0 || b != 0 {
      XorComm(a / 2, b / 2);
    }
  }

  lemma {:induction false} XorAssoc(a: nat, b: nat, c: nat)
    ensures Xor(Xor(a, b), c) == Xor(a, Xor(b, c))
    decreases a + b + c
  {
    if a != 0 || b != 0 || c != 0 {
      var a', b', c' := a / 2, b / 2, c / 2;
      var i, j, k := a % 2, b % 2, c % 2;
      XorAssoc(a', b', c');
      XorHalves(a, b, a', b', i, j);
      XorHalves(b, c, b', c', j, k);
      XorHalves(Xor(a, b), c, Xor(a', b'), c', Bit(i != j), k);
      XorHalves(a, Xor(b, c), a', Xor(b', c'), i, Bit(j != k));
      BitAssoc(i, j, k);
    }
  }

  /** `XorUnfold` for numbers given with their halves and low bits. */
  lemma {:induction false} XorHalves(a: nat, b: nat, a': nat, b': nat, i: nat, j: nat)
    requires i < 2 && j < 2 && a == 2 * a' + i && b == 2 * b' + j
    ensures Xor(a, b) == 2 * Xor(a', b') + Bit(i != j)
  {
    XorUnfold(a', b', i, j);
  }

  lemma {:induction false} BitAssoc(i: nat, j: nat, k: nat)
    requires i < 2 && j < 2 && k < 2
    ensures Bit(Bit(i != j) != k) == Bit(i != Bit(j != k))
  {
  }

  /** Two polynomials whose sum is zero are equal. */
  lemma {:induction false} XorZeroEq(a: nat, b: nat)
    requires Xor(a, b) == 0
    ensures a == b
  {
    XorAssoc(a, b, b);
    XorSelf(b);
    XorZero(a);
    XorZero(b);
  }

  /** Adding the same polynomial twice cancels. */
  lemma {:induction false} XorCancel(a: nat, b: nat)
    ensures Xor(Xor(a, b), b) == a
  {
    XorAssoc(a, b, b);
    XorSelf(b);
    XorZero(a);
  }

  /** Four summands in any grouping. */
  lemma {:induction false} XorShuffle(a: nat, b: nat, c: nat, d: nat)
    ensures Xor(Xor(a, b), Xor(c, d)) == Xor(Xor(a, c), Xor(b, d))
  {
    XorAssoc(a, b, Xor(c, d));
    XorAssoc(b, c, d);
    XorComm(b, c);
    XorAssoc(c, b, d);
    XorAssoc(a, c, Xor(b, d));
  }

  /** From `a + b = c + d` follows `a + c = b + d`. */
  lemma {:induction false} XorSwap(a: nat, b: nat, c: nat, d: nat)
    requires Xor(a, b) == Xor(c, d)
    ensures Xor(a, c) == Xor(b, d)
  {
    XorShuffle(a, b, c, d);
    XorSelf(Xor(a, b));
    XorZeroEq(Xor(a, c), Xor(b, d));
  }

  /** Splitting at bit k: the low k bits and the high part combine separately. */
  lemma {:induction false} XorSplit(u: nat, v: nat, x: nat, y: nat, k: nat)
    requires u < Pow2(k) && v < Pow2(k)
    ensures Xor(u + Shift(x, k), v + Shift(y, k)) == Xor(u, v) + Shift(Xor(x, y), k)
    decreases k
  {
    if k > 0 {
      var u', v', i, j := u / 2, v / 2, u % 2, v % 2;
      assert u == 2 * u' + i && v == 2 * v' + j && u' < Pow2(k - 1) && v' < Pow2(k - 1);
      XorSplit(u', v', x, y, k - 1);
      XorSplitStep(u + Shift(x, k), v + Shift(y, k), u, v,
                   u' + Shift(x, k - 1), v' + Shift(y, k - 1), u', v', Shift(Xor(x, y), k - 1), i, j);
    }
  }

  /** The step of `XorSplit`: a difference `c` between two sums doubles when the same low bits
   *  are put under the summands of both. */
  lemma {:induction false} XorSplitStep(a2: nat, b2: nat, u2: nat, v2: nat, a: nat, b: nat, u: nat, v: nat, c: int, i: nat, j: nat)
    requires i < 2 && j < 2
    requires a2 == 2 * a + i && b2 == 2 * b + j && u2 == 2 * u + i && v2 == 2 * v + j
    requires Xor(a, b) == Xor(u, v) + c
    ensures Xor(a2, b2) == Xor(u2, v2) + 2 * c
  {
    XorHalves(a2, b2, a, b, i, j);
    XorHalves(u2, v2, u, v, i, j);
  }

  lemma {:induction false} Double(p: nat, x: nat)
    ensures (2 * p) * x == 2 * (p * x)
  {
  }

  /** The degree of a polynomial; the zero polynomial has degree -1. */
  function Degree(a: nat): (d: int)
    ensures d >= -1 && (d == -1 <==> a == 0)
  {
    if a == 0 then -1 else 1 + Degree(a / 2)
  }

  lemma {:induction false} DegreeUnfold(x: nat, i: nat)
    requires i < 2
    ensures Degree(2 * x + i) == if 2 * x + i == 0 then -1 else 1 + Degree(x)
  {
    assert (2 * x + i) / 2 == x;
  }

  /** The degree is the bit length less one: 2^d <= a < 2^(d+1). */
  lemma {:induction false} DegreeBounds(a: nat)
    requires a > 0
    ensures Pow2(Degree(a)) <= a < Pow2(Degree(a) + 1)
    decreases a
  {
    if a > 1 {
      DegreeBounds(a / 2);
    }
  }

  /** A polynomial is below 2^k exactly when its degree is below k. */
  lemma {:induction false} DegreeBelow(a: nat, k: nat)
    ensures a < Pow2(k) <==> Degree(a) < k
  {
    if a > 0 {
      DegreeBounds(a);
      if Degree(a) < k {
        Pow2Monotone(Degree(a) + 1, k);
      } else {
        Pow2Monotone(k, Degree(a));
      }
    }
  }

  lemma {:induction false} Pow2Monotone(i: nat, j: nat)
    requires i <= j
    ensures Pow2(i) <= Pow2(j)
    decreases j
  {
    if i < j {
      Pow2Monotone(i, j - 1);
    }
  }

  /** The degree of a sum: at most the larger degree, exactly it when the degrees differ,
   *  and strictly less when the (non-zero) summands share their leading term. */
  lemma {:induction false} XorDegree(a: nat, b: nat)
    ensures Degree(Xor(a, b)) <= if Degree(a) < Degree(b) then Degree(b) else Degree(a)
    ensures Degree(a) < Degree(b) ==> Degree(Xor(a, b)) == Degree(b)
    ensures Degree(b) < Degree(a) ==> Degree(Xor(a, b)) == Degree(a)
    ensures Degree(a) == Degree(b) >= 0 ==> Degree(Xor(a, b)) < Degree(a)
    decreases a + b
  {
    if a == 0 {
      XorZero(b);
    } else if b == 0 {
      XorZero(a);
    } else {
      XorDegree(a / 2, b / 2);
      XorUnfold(a / 2, b / 2, a % 2, b % 2);
      var x := Xor(a / 2, b / 2);
      DegreeUnfold(x, Bit(a % 2 != b % 2));
      assert Degree(a) == 1 + Degree(a / 2) && Degree(b) == 1 + Degree(b / 2);
      if a / 2 == 0 && b / 2 == 0 {
        XorZero(0);
      }
    }
  }

  /** Sums of polynomials below 2^k stay below 2^k. */
  lemma {:induction false} XorBelow(a: nat, b: nat, k: nat)
    requires a < Pow2(k) && b < Pow2(k)
    ensures Xor(a, b) < Pow2(k)
  {
    DegreeBelow(a, k);
    DegreeBelow(b, k);
    XorDegree(a, b);
    DegreeBelow(Xor(a, b), k);
  }

  /** Multiplication by x^k. */
  function Shift(a: nat, k: nat): nat
  {
    if k == 0 then a else 2 * Shift(a, k - 1)
  }

  /** Multiplying by x^k is multiplying by 2^k. */
  lemma {:induction false} ShiftMul(a: nat, k: nat)
    ensures Shift(a, k) == Pow2(k) * a
  {
    if k > 0 {
      ShiftMul(a, k - 1);
      Double(Pow2(k - 1), a);
    }
  }

  lemma {:induction false} ShiftDegree(a: nat, k: nat)
    requires a > 0
    ensures Shift(a, k) > 0 && Degree(Shift(a, k)) == Degree(a) + k
    decreases k
  {
    if k > 0 {
      ShiftDegree(a, k - 1);
      DegreeUnfold(Shift(a, k - 1), 0);
    }
  }

  /** The carry-less product, built the way `multiplyPoly` runs: for each set bit of `b`,
   *  from the lowest, add `a` shifted by that bit's position. */
  function ClMul(a: nat, b: nat): nat
    decreases b
  {
    if b == 0 then 0 else Xor(if b % 2 == 1 then a else 0, ClMul(2 * a, b / 2))
  }

  lemma {:induction false} ClMulDoubleLeft(a: nat, b: nat)
    ensures ClMul(2 * a, b) == 2 * ClMul(a, b)
    decreases b
  {
    if b != 0 {
      ClMulDoubleLeft(2 * a, b / 2);
      XorUnfold(if b % 2 == 1 then a else 0, ClMul(2 * a, b / 2), 0, 0);
    }
  }

  lemma {:induction false} ClMulDoubleRight(a: nat, b: nat)
    ensures ClMul(a, 2 * b) == 2 * ClMul(a, b)
  {
    if b != 0 {
      assert ClMul(a, 2 * b) == Xor(0, ClMul(2 * a, b));
      XorZero(ClMul(2 * a, b));
      ClMulDoubleLeft(a, b);
    }
  }

  lemma {:induction false} ClMulOneRight(a: nat)
    ensures ClMul(a, 1) == a
  {
    XorZero(a);
  }

  lemma {:induction false} ClMulOneLeft(b: nat)
    ensures ClMul(1, b) == b
    decreases b
  {
    if b != 0 {
      ClMulOneLeft(b / 2);
      ClMulDoubleLeft(1, b / 2);
      XorUnfold(0, b / 2, b % 2, 0);
      XorZero(b / 2);
    }
  }

  lemma {:induction false} ClMulZeroLeft(b: nat)
    ensures ClMul(0, b) == 0
    decreases b
  {
    if b != 0 {
      ClMulZeroLeft(b / 2);
      XorZero(0);
    }
  }

  /** The product distributes over the sum in its left argument. */
  lemma {:induction false} ClMulDistLeft(a: nat, b: nat, c: nat)
    ensures ClMul(Xor(a, b), c) == Xor(ClMul(a, c), ClMul(b, c))
    decreases c
  {
    if c == 0 {
      XorZero(0);
    } else {
      var ab := Xor(a, b);
      XorUnfold(a, b, 0, 0);
      assert 2 * ab == Xor(2 * a, 2 * b);
      ClMulDistLeft(2 * a, 2 * b, c / 2);
      var x, y := ClMul(2 * a, c / 2), ClMul(2 * b, c / 2);
      assert ClMul(2 * ab, c / 2) == Xor(x, y);
      if c % 2 == 1 {
        assert ClMul(ab, c) == Xor(ab, Xor(x, y));
        assert ClMul(a, c) == Xor(a, x) && ClMul(b, c) == Xor(b, y);
        XorShuffle(a, b, x, y);
      } else {
        assert ClMul(ab, c) == Xor(0, Xor(x, y));
        assert ClMul(a, c) == Xor(0, x) && ClMul(b, c) == Xor(0, y);
        XorZero(Xor(x, y));
        XorZero(x);
        XorZero(y);
      }
    }
  }

  lemma {:induction false} ClMulComm(a: nat, b: nat)
    ensures ClMul(a, b) == ClMul(b, a)
    decreases a
  {
    if a == 0 {
      ClMulZeroLeft(b);
    } else {
      ClMulComm(a / 2, b);
      XorUnfold(a / 2, 0, 0, a % 2);
      XorZero(a / 2);
      assert a == Xor(2 * (a / 2), a % 2);
      ClMulDistLeft(2 * (a / 2), a % 2, b);
      ClMulDoubleLeft(a / 2, b);
      ClMulDoubleLeft(b, a / 2);
      if a % 2 == 1 {
        ClMulOneLeft(b);
      } else {
        ClMulZeroLeft(b);
      }
      XorComm(2 * ClMul(a / 2, b), ClMul(a % 2, b));
    }
  }

  lemma {:induction false} ClMulDistRight(a: nat, b: nat, c: nat)
    ensures ClMul(c, Xor(a, b)) == Xor(ClMul(c, a), ClMul(c, b))
  {
    ClMulComm(c, Xor(a, b));
    ClMulDistLeft(a, b, c);
    ClMulComm(a, c);
    ClMulComm(b, c);
  }

  lemma {:induction false} ClMulAssoc(a: nat, b: nat, c: nat)
    ensures ClMul(ClMul(a, b), c) == ClMul(a, ClMul(b, c))
    decreases c
  {
    if c == 0 {
    } else {
      var ab := ClMul(a, b);
      ClMulAssoc(a, b, c / 2);
      ClMulDoubleLeft(ab, c / 2);
      ClMulDoubleLeft(b, c / 2);
      ClMulDoubleRight(a, ClMul(b, c / 2));
      var low := if c % 2 == 1 then b else 0;
      ClMulDistRight(low, ClMul(2 * b, c / 2), a);
      if c % 2 == 0 {
        ClMulComm(a, 0);
        ClMulZeroLeft(a);
      }
    }
  }

  /** The degree of a product of non-zero polynomials is the sum of the degrees. */
  lemma {:induction false} ClMulDegree(a: nat, b: nat)
    requires a > 0 && b > 0
    ensures ClMul(a, b) > 0 && Degree(ClMul(a, b)) == Degree(a) + Degree(b)
    decreases b
  {
    if b == 1 {
      ClMulOneRight(a);
    } else {
      ClMulDegree(2 * a, b / 2);
      DegreeUnfold(a, 0);
      DegreeUnfold(b / 2, b % 2);
      assert b == 2 * (b / 2) + b % 2;
      var low := if b % 2 == 1 then a else 0;
      XorDegree(low, ClMul(2 * a, b / 2));
    }
  }

  lemma {:induction false} ClMulPow2(k: nat, b: nat)
    ensures ClMul(Pow2(k), b) == Shift(b, k)
    decreases k
  {
    if k == 0 {
      ClMulOneLeft(b);
    } else {
      ClMulPow2(k - 1, b);
      ClMulDoubleLeft(Pow2(k - 1), b);
    }
  }

  /** Long division's step removes the leading term and leaves a smaller number. */
  lemma {:induction false} ReduceLess(a: nat, b: nat)
    requires b != 0 && Degree(a) >= Degree(b)
    ensures Xor(a, Shift(b, Degree(a) - Degree(b))) < a
    ensures Degree(Xor(a, Shift(b, Degree(a) - Degree(b)))) < Degree(a)
  {
    var s := Shift(b, Degree(a) - Degree(b));
    ShiftDegree(b, Degree(a) - Degree(b));
    XorDegree(a, s);
    DegreeBelow(Xor(a, s), Degree(a));
    DegreeBounds(a);
  }

  /** The remainder of `a` divided by `b`, computed as long division does; the remainder by
   *  zero is `a` itself. */
  function Mod(a: nat, b: nat): (r: nat)
    ensures b != 0 ==> Degree(r) < Degree(b)
    ensures b == 0 ==> r == a
    decreases a
  {
    if b == 0 || Degree(a) < Degree(b) then a
    else
      ReduceLess(a, b);
      Mod(Xor(a, Shift(b, Degree(a) - Degree(b))), b)
  }

  /** The quotient of long division; the quotient by zero is 0. */
  function Quot(a: nat, b: nat): nat
    decreases a
  {
    if b == 0 || Degree(a) < Degree(b) then 0
    else
      ReduceLess(a, b);
      Xor(Pow2(Degree(a) - Degree(b)), Quot(Xor(a, Shift(b, Degree(a) - Degree(b))), b))
  }

  /** Division with remainder: a = q * b + r. */
  lemma {:induction false} DivMod(a: nat, b: nat)
    requires b != 0
    ensures Xor(ClMul(Quot(a, b), b), Mod(a, b)) == a
    decreases a
  {
    if Degree(a) < Degree(b) {
      ClMulZeroLeft(b);
      XorZero(a);
    } else {
      var k := Degree(a) - Degree(b);
      var s := Shift(b, k);
      var a' := Xor(a, s);
      ReduceLess(a, b);
      DivMod(a', b);
      var q' := Quot(a', b);
      ClMulDistLeft(Pow2(k), q', b);
      ClMulPow2(k, b);
      XorAssoc(s, ClMul(q', b), Mod(a', b));
      XorComm(a, s);
      XorCancel(s, a);
      XorAssoc(s, s, a);
      XorSelf(s);
      XorZero(a);
    }
  }

  /** The quotient and remainder are the only pair with a = q * b + r and deg r < deg b. */
  lemma {:induction false} DivModUnique(a: nat, b: nat, q: nat, r: nat)
    requires b != 0 && Xor(ClMul(q, b), r) == a && Degree(r) < Degree(b)
    ensures q == Quot(a, b) && r == Mod(a, b)
  {
    var q0 := Quot(a, b);
    var r0 := Mod(a, b);
    DivMod(a, b);
    XorSwap(ClMul(q, b), r, ClMul(q0, b), r0);
    ClMulDistLeft(q, q0, b);
    var d := Xor(q, q0);
    XorDegree(r, r0);
    if d != 0 {
      ClMulDegree(d, b);
      assert false;
    }
    XorZeroEq(q, q0);
    ClMulZeroLeft(b);
    XorZeroEq(r, r0);
  }

  /** A polynomial of lower degree than the divisor is its own remainder. */
  lemma {:induction false} ModSmall(a: nat, b: nat)
    requires Degree(a) < Degree(b)
    ensures Mod(a, b) == a
  {
  }

  /** A multiple of `m` leaves no remainder. */
  lemma {:induction false} ModMultiple(q: nat, m: nat)
    requires m != 0
    ensures Mod(ClMul(q, m), m) == 0
  {
    XorZero(ClMul(q, m));
    DivModUnique(ClMul(q, m), m, q, 0);
  }

  /** The remainder is linear: the remainder of a sum is the sum of the remainders. */
  lemma {:induction false} ModLinear(a: nat, b: nat, m: nat)
    requires m != 0
    ensures Mod(Xor(a, b), m) == Xor(Mod(a, m), Mod(b, m))
  {
    var qa, qb := Quot(a, m), Quot(b, m);
    var ra, rb := Mod(a, m), Mod(b, m);
    DivMod(a, m);
    DivMod(b, m);
    ClMulDistLeft(qa, qb, m);
    XorShuffle(ClMul(qa, m), ClMul(qb, m), ra, rb);
    XorShuffle(ClMul(qa, m), ra, ClMul(qb, m), rb);
    XorDegree(ra, rb);
    DivModUnique(Xor(a, b), m, Xor(qa, qb), Xor(ra, rb));
  }

  /** Reducing a factor first does not change the remainder of a product. */
  lemma {:induction false} ModMulLeft(a: nat, b: nat, m: nat)
    requires m != 0
    ensures Mod(ClMul(a, b), m) == Mod(ClMul(Mod(a, m), b), m)
  {
    var q, r := Quot(a, m), Mod(a, m);
    DivMod(a, m);
    ClMulDistLeft(ClMul(q, m), r, b);
    ClMulAssoc(q, m, b);
    ClMulComm(m, b);
    ClMulAssoc(q, b, m);
    ModLinear(ClMul(ClMul(q, b), m), ClMul(r, b), m);
    ModMultiple(ClMul(q, b), m);
    XorZero(Mod(ClMul(r, b), m));
  }

  lemma {:induction false} ModMulRight(a: nat, b: nat, m: nat)
    requires m != 0
    ensures Mod(ClMul(a, b), m) == Mod(ClMul(a, Mod(b, m)), m)
  {
    ClMulComm(a, b);
    ModMulLeft(b, a, m);
    ClMulComm(Mod(b, m), a);
  }

  lemma {:induction false} ModIdem(a: nat, m: nat)
    requires m != 0
    ensures Mod(Mod(a, m), m) == Mod(a, m)
  {
  }

  /** The product of field elements: the carry-less product reduced by the modulus. */
  function MulMod(a: nat, b: nat, m: nat): nat
  {
    Mod(ClMul(a, b), m)
  }

  lemma {:induction false} MulModComm(a: nat, b: nat, m: nat)
    ensures MulMod(a, b, m) == MulMod(b, a, m)
  {
    ClMulComm(a, b);
  }

  lemma {:induction false} MulModAssoc(a: nat, b: nat, c: nat, m: nat)
    requires m != 0
    ensures MulMod(MulMod(a, b, m), c, m) == MulMod(a, MulMod(b, c, m), m)
  {
    ModMulLeft(ClMul(a, b), c, m);
    ModMulRight(a, ClMul(b, c), m);
    ClMulAssoc(a, b, c);
  }

  lemma {:induction false} MulModDist(a: nat, b: nat, c: nat, m: nat)
    requires m != 0
    ensures MulMod(a, Xor(b, c), m) == Xor(MulMod(a, b, m), MulMod(a, c, m))
  {
    ClMulDistRight(b, c, a);
    ModLinear(ClMul(a, b), ClMul(a, c), m);
  }

  /** The Euclidean greatest common divisor, as `gcdPoly` computes it. */
  function Gcd(a: nat, b: nat): nat
    decreases b
  {
    if b == 0 then a
    else
      assert Mod(a, b) < b by { DegreeBelow(b, Degree(b) + 1); DegreeBelow(Mod(a, b), Degree(b)); Pow2Monotone(Degree(b), Degree(b) + 1); DegreeBounds(b); }
      Gcd(b, Mod(a, b))
  }

  /** `g` divides `a`. */
  predicate Divides(g: nat, a: nat)
  {
    g != 0 && Mod(a, g) == 0
  }

  lemma {:induction false} DividesSum(g: nat, a: nat, b: nat)
    requires Divides(g, a) && Divides(g, b)
    ensures Divides(g, Xor(a, b))
  {
    ModLinear(a, b, g);
    XorZero(0);
  }

  lemma {:induction false} DividesProduct(g: nat, a: nat, c: nat)
    requires Divides(g, a)
    ensures Divides(g, ClMul(c, a))
  {
    ModMulRight(c, a, g);
    ClMulComm(c, 0);
    ClMulZeroLeft(c);
  }

  /** The gcd divides both arguments (when they are not both zero). */
  lemma {:induction false} GcdDivides(a: nat, b: nat)
    requires a != 0 || b != 0
    ensures Divides(Gcd(a, b), a) && Divides(Gcd(a, b), b)
    decreases b
  {
    if b == 0 {
      ClMulOneLeft(a);
      ModMultiple(1, a);
      ModMultiple(0, a);
      ClMulZeroLeft(a);
    } else {
      assert Mod(a, b) < b by { DegreeBelow(b, Degree(b) + 1); DegreeBelow(Mod(a, b), Degree(b)); Pow2Monotone(Degree(b), Degree(b) + 1); DegreeBounds(b); }
      GcdDivides(b, Mod(a, b));
      var g := Gcd(a, b);
      DivMod(a, b);
      DividesProduct(g, b, Quot(a, b));
      DividesSum(g, ClMul(Quot(a, b), b), Mod(a, b));
    }
  }
}
