/** GF(2^8) arithmetic as lab3/task1-galois-field/src/GF256Service.java implements it.
 *  A byte modulus m stands for the field polynomial x^8 + m. Java bytes are held as their
 *  unsigned values (the `b & 0xFF` the code takes of every argument), and the int
 *  polynomials of the private helpers as naturals; every value those helpers see here stays
 *  far below 2^31, so no int overflow is involved. */
module Gf256Service {
  import opened Wrappers
  import opened Gf2Poly

  type Byte = x: nat | x < 256

  const NotIrreducible: Error := IllegalArgument("Modulus must be irreducible")
  const ZeroHasNoInverse: Error := IllegalArgument("Zero has no inverse")
  const NotInvertible: Error := IllegalArgument("Element is not invertible")

  /** `(modulus & 0xFF) | 0x100`: the degree-8 polynomial a byte modulus names. */
  function FieldPoly(modulus: Byte): (p: nat)
    ensures 256 <= p < 512 && Degree(p) == 8
  {
    DegreeOfField(0x100 + modulus);
    0x100 + modulus
  }

  lemma {:induction false} DegreeOfField(p: nat)
    requires 256 <= p < 512
    ensures Degree(p) == 8
  {
    DegreeBelow(p, 9);
    DegreeBelow(p, 8);
    assert Pow2(8) == 256 && Pow2(9) == 512;
  }

  /** A polynomial fits in a byte exactly when its degree is below 8. */
  lemma {:induction false} ByteDegree(x: nat)
    ensures x < 256 <==> Degree(x) < 8
  {
    DegreeBelow(x, 8);
    assert Pow2(8) == 256;
  }

  /** `add`: the sum of two field elements, which is its own inverse. */
  function Add(a: Byte, b: Byte): (r: Byte)
    ensures Xor(r, b) == a && Xor(r, a) == b
  {
    XorBelow(a, b, 8);
    assert Pow2(8) == 256;
    XorCancel(a, b);
    XorComm(a, b);
    XorCancel(b, a);
    Xor(a, b)
  }

  /** Adding the same element twice gives the first one back. */
  lemma {:induction false} AddSelfInverse(a: Byte, b: Byte)
    ensures Add(Add(a, b), b) == a
  {
  }

  /** The product of two field elements under a byte modulus. */
  function FieldMul(a: Byte, b: Byte, modulus: Byte): (r: Byte)
    ensures r == MulMod(a, b, FieldPoly(modulus))
  {
    var r := MulMod(a, b, FieldPoly(modulus));
    ByteDegree(r);
    r
  }

  /** 1 is the identity and 0 absorbs: 1 * b = b and 0 * b = 0. */
  lemma {:induction false} FieldMulIdentity(b: Byte, modulus: Byte)
    ensures FieldMul(1, b, modulus) == b && FieldMul(b, 1, modulus) == b
    ensures FieldMul(0, b, modulus) == 0 && FieldMul(b, 0, modulus) == 0
  {
    ClMulOneLeft(b);
    ClMulOneRight(b);
    ClMulZeroLeft(b);
    ByteDegree(b);
  }

  lemma {:induction false} FieldMulComm(a: Byte, b: Byte, modulus: Byte)
    ensures FieldMul(a, b, modulus) == FieldMul(b, a, modulus)
  {
    MulModComm(a, b, FieldPoly(modulus));
  }

  lemma {:induction false} FieldMulAssoc(a: Byte, b: Byte, c: Byte, modulus: Byte)
    ensures FieldMul(FieldMul(a, b, modulus), c, modulus) == FieldMul(a, FieldMul(b, c, modulus), modulus)
  {
    MulModAssoc(a, b, c, FieldPoly(modulus));
  }

  lemma {:induction false} FieldMulDist(a: Byte, b: Byte, c: Byte, modulus: Byte)
    ensures FieldMul(a, Add(b, c), modulus) == Add(FieldMul(a, b, modulus), FieldMul(a, c, modulus))
  {
    MulModDist(a, b, c, FieldPoly(modulus));
  }

  // ---------------------------------------------------------------------------------------
  // The private polynomial helpers

  /** `degree`: halve until one bit is left, counting the halvings; -1 for zero. */
  method DegreeOf(poly: nat) returns (deg: int)
    ensures deg == Degree(poly)
  {
    if poly == 0 {
      return -1;
    }
    var p := poly;
    deg := 0;
    while p > 1
      invariant p >= 1 && deg + Degree(p) == Degree(poly)
      decreases p
    {
      p := p / 2;
      deg := deg + 1;
    }
  }

  /** `multiplyPoly`: the shift-and-add loop computes the carry-less product. */
  method MultiplyPoly(a: nat, b: nat) returns (result: nat)
    ensures result == ClMul(a, b)
  {
    result := 0;
    var x, y := a, b;
    XorZero(ClMul(a, b));
    while y != 0
      invariant Xor(result, ClMul(x, y)) == ClMul(a, b)
      decreases y
    {
      if y % 2 != 0 {
        XorAssoc(result, x, ClMul(2 * x, y / 2));
        result := Xor(result, x);
      } else {
        XorZero(ClMul(2 * x, y / 2));
      }
      x := 2 * x;
      y := y / 2;
    }
    XorZero(result);
  }

  /** `modPoly`: long division keeping only the remainder; by zero it returns `a`. */
  method ModPoly(a: nat, b: nat) returns (r: nat)
    ensures r == Mod(a, b)
  {
    if b == 0 {
      return a;
    }
    r := a;
    var degA := DegreeOf(r);
    var degB := DegreeOf(b);
    while degA >= degB && r != 0
      invariant degA == Degree(r) && degB == Degree(b) && Mod(r, b) == Mod(a, b)
      decreases r
    {
      var shift := degA - degB;
      ReduceLess(r, b);
      r := Xor(r, Shift(b, shift));
      degA := DegreeOf(r);
    }
  }

  /** `divide`: the same long division keeping the quotient; by zero it returns 0. */
  method Divide(a: nat, b: nat) returns (quotient: nat)
    ensures quotient == Quot(a, b)
  {
    if b == 0 {
      return 0;
    }
    quotient := 0;
    var x := a;
    var degA := DegreeOf(x);
    var degB := DegreeOf(b);
    XorZero(Quot(a, b));
    while degA >= degB && x != 0
      invariant degA == Degree(x) && degB == Degree(b) && Xor(quotient, Quot(x, b)) == Quot(a, b)
      decreases x
    {
      var shift := degA - degB;
      ReduceLess(x, b);
      XorAssoc(quotient, Pow2(shift), Quot(Xor(x, Shift(b, shift)), b));
      quotient := Xor(quotient, Pow2(shift));
      x := Xor(x, Shift(b, shift));
      degA := DegreeOf(x);
    }
    XorZero(quotient);
  }

  /** `dividePoly` has the same body as `divide`. */
  method DividePoly(a: nat, b: nat) returns (quotient: nat)
    ensures quotient == Quot(a, b)
  {
    quotient := Divide(a, b);
  }

  /** Division with remainder: a = quotient * b + remainder, the remainder of lower degree
   *  than a non-zero divisor. */
  lemma {:induction false} DivisionLaw(a: nat, b: nat)
    requires b != 0
    ensures Xor(ClMul(Quot(a, b), b), Mod(a, b)) == a && Degree(Mod(a, b)) < Degree(b)
  {
    DivMod(a, b);
  }

  /** A divisor of no higher degree than the dividend leaves a non-zero quotient of degree
   *  deg a - deg b. */
  lemma {:induction false} QuotDegree(a: nat, b: nat)
    requires b != 0 && Degree(a) >= Degree(b)
    ensures Quot(a, b) != 0 && Degree(Quot(a, b)) == Degree(a) - Degree(b)
  {
    var q, r := Quot(a, b), Mod(a, b);
    DivMod(a, b);
    if q == 0 {
      ClMulZeroLeft(b);
      XorZero(r);
      assert false;
    }
    ClMulDegree(q, b);
    XorDegree(ClMul(q, b), r);
  }

  lemma {:induction false} ModBelow(a: nat, b: nat)
    requires b != 0
    ensures Mod(a, b) < b
  {
    DegreeBelow(Mod(a, b), Degree(b));
    DegreeBounds(b);
  }

  /** `gcdPoly`: the Euclidean algorithm on polynomials. */
  method GcdPoly(a: nat, b: nat) returns (g: nat)
    ensures g == Gcd(a, b)
  {
    var x, y := a, b;
    while y != 0
      invariant Gcd(x, y) == Gcd(a, b)
      decreases y
    {
      ModBelow(x, y);
      var temp := ModPoly(x, y);
      x := y;
      y := temp;
    }
    g := x;
  }

  /** Every common divisor divides the gcd. */
  lemma {:induction false} GcdGreatest(g: nat, a: nat, b: nat)
    requires Divides(g, a) && Divides(g, b)
    ensures Divides(g, Gcd(a, b))
    decreases b
  {
    if b != 0 {
      ModBelow(a, b);
      DivMod(a, b);
      DividesProduct(g, b, Quot(a, b));
      DividesSum(g, a, ClMul(Quot(a, b), b));
      XorComm(ClMul(Quot(a, b), b), Mod(a, b));
      XorCancel(Mod(a, b), ClMul(Quot(a, b), b));
      GcdGreatest(g, b, Mod(a, b));
    }
  }

  // ---------------------------------------------------------------------------------------
  // The irreducibility test

  /** Rabin's condition for d: gcd(x^(2^d) - x, p) = 1, with the power reduced mod p. */
  predicate RabinGcd(p: nat, d: nat)
  {
    Gcd(Xor(Mod(Pow2(Pow2(d)), p), 2), p) == 1
  }

  /** The degrees d of Rabin's test as the code lists them: every proper divisor of 8. */
  const RabinDivisors: seq<nat> := [1, 2, 4]

  /** The number of field elements: `isIrreducible` finally checks x^256 == x mod p. */
  const FieldOrder: nat := 256

  /** What `isIrreducible` decides for an int argument: its low nine bits p must have degree
   *  exactly 8 and a constant term, gcd(x^(2^d) - x, p) must be 1 for d = 1, 2, 4, and
   *  x^(2^8) must be x modulo p. */
  predicate IrreducibleTest(poly: int)
  {
    var p := poly % 512;
    p >= 0x100 && Degree(p) == 8 && p % 2 == 1 && RabinPasses(p)
  }

  /** `IrreducibleTest` for the field of `modulus`, behind `depth` calls of a recursion: a
   *  caller that only carries the fact along does not expand the test, and one that needs it
   *  unwraps it with `FieldCheckedIsTest`. */
  predicate FieldChecked(modulus: Byte, depth: nat)
    decreases depth
  {
    if depth == 0 then IrreducibleTest(FieldPoly(modulus)) else FieldChecked(modulus, depth - 1)
  }

  lemma {:induction false} FieldCheckedIsTest(modulus: Byte, depth: nat)
    ensures FieldChecked(modulus, depth) <==> IrreducibleTest(FieldPoly(modulus))
  {
    if depth > 0 {
      FieldCheckedIsTest(modulus, depth - 1);
    }
  }

  /** The degree check is never what rejects: a value in [0x100, 0x200) has degree 8. */
  lemma {:induction false} DegreeCheckRedundant(poly: int)
    ensures poly % 512 >= 0x100 ==> Degree(poly % 512) == 8
  {
    if poly % 512 >= 0x100 {
      DegreeOfField(poly % 512);
    }
  }

  /** A modulus that passes has no root in GF(2): neither x nor x + 1 divides it, because
   *  both divide x^2 - x, whose gcd with it must be 1. */
  lemma {:induction false} NoLinearFactor(poly: int)
    requires IrreducibleTest(poly)
    ensures !Divides(2, poly % 512) && !Divides(3, poly % 512)
  {
    var p := poly % 512;
    assert Pow2(Pow2(1)) == 4;
    assert Degree(4) == 2;
    assert Mod(4, p) == 4;
    assert Xor(4, 2) == 6 by { XorUnfold(2, 1, 0, 0); XorUnfold(1, 0, 0, 1); XorZero(0); }
    assert Gcd(6, p) == 1;
    assert ClMul(2, 3) == 6 by { ClMulDoubleLeft(1, 3); ClMulOneLeft(3); }
    assert ClMul(3, 2) == 6 by { ClMulComm(2, 3); }
    ModMultiple(3, 2);
    ModMultiple(2, 3);
    assert Divides(2, 6) && Divides(3, 6);
    assert Mod(1, 2) == 1 && Mod(1, 3) == 1;
    CommonDivisor(2, 6, p);
    CommonDivisor(3, 6, p);
  }

  /** A divisor of both arguments divides the gcd, stated as an implication. */
  lemma {:induction false} CommonDivisor(g: nat, a: nat, b: nat)
    ensures Divides(g, a) && Divides(g, b) ==> Divides(g, Gcd(a, b))
  {
    if Divides(g, a) && Divides(g, b) {
      GcdGreatest(g, a, b);
    }
  }

  /** x^(i+1) mod p from x^i mod p: one multiplication by x and a reduction. */
  lemma {:induction false} PowerStep(i: nat, p: nat)
    requires p != 0
    ensures Mod(ClMul(Mod(Pow2(i), p), 2), p) == Mod(Pow2(i + 1), p)
  {
    ModMulLeft(Pow2(i), 2, p);
    ClMulPow2(i, 2);
    ShiftTwo(i);
  }

  lemma {:induction false} ShiftTwo(i: nat)
    ensures Shift(2, i) == Pow2(i + 1)
  {
    if i > 0 {
      ShiftTwo(i - 1);
    }
  }

  /** The repeated multiply-by-x loop: x^(2^d) mod p, starting from x = 2. */
  method PowerOfX(p: nat, count: nat) returns (x: nat)
    requires Degree(p) >= 2 && count >= 1
    ensures x == Mod(Pow2(count), p)
  {
    x := 2;
    assert Degree(2) == 1;
    for i := 1 to count
      invariant x == Mod(Pow2(i), p)
    {
      var doubled := MultiplyPoly(x, 2);
      PowerStep(i, p);
      x := ModPoly(doubled, p);
    }
  }

  /** `isIrreducible`: the guard chain, then Rabin's test. */
  method IsIrreducible(poly: int) returns (b: bool)
    ensures b == IrreducibleTest(poly)
  {
    var p := poly % 512;
    if p < 0x100 {
      return false;
    }
    var deg := DegreeOf(p);
    if deg != 8 {
      return false;
    }
    if p % 2 == 0 {
      return false;
    }
    b := RabinTest(p);
  }

  /** The part of Rabin's test `isIrreducible` runs once the guards have passed. */
  predicate RabinPasses(p: nat)
  {
    RabinGcd(p, RabinDivisors[0]) && RabinGcd(p, RabinDivisors[1]) && RabinGcd(p, RabinDivisors[2]) &&
    Mod(Pow2(FieldOrder), p) == 2
  }

  /** One round of the loop of `isIrreducible`: is x^(2^d) - x coprime to p? */
  method RabinRound(p: nat, d: nat) returns (coprime: bool)
    requires Degree(p) >= 2
    ensures coprime == RabinGcd(p, d)
  {
    var x := PowerOfX(p, Pow2(d));
    var gcd := GcdPoly(Xor(x, 2), p);
    coprime := gcd == 1;
  }

  /** The loop of `isIrreducible` over d = 1, 2, 4, then the check x^256 == x. */
  method RabinTest(p: nat) returns (b: bool)
    requires Degree(p) == 8
    ensures b == RabinPasses(p)
  {
    var divisors := RabinDivisors;
    for k := 0 to 3
      invariant forall j | 0 <= j < k :: RabinGcd(p, divisors[j])
    {
      var coprime := RabinRound(p, divisors[k]);
      if !coprime {
        return false;
      }
    }
    assert RabinGcd(p, divisors[0]) && RabinGcd(p, divisors[1]) && RabinGcd(p, divisors[2]);
    var x := PowerOfX(p, FieldOrder);
    if x != 2 {
      return false;
    }
    return true;
  }

  /** The bytes below `n` that satisfy `passes`, in increasing order. */
  function BytesBelow(n: nat, passes: Byte -> bool): seq<Byte>
    requires n <= 256
  {
    if n == 0 then [] else BytesBelow(n - 1, passes) + (if passes(n - 1) then [n - 1] else [])
  }

  /** Whether the modulus with low byte `b` passes the test. */
  predicate ModulusPasses(b: Byte)
  {
    IrreducibleTest(FieldPoly(b))
  }

  /** The low bytes below `n` whose moduli pass the test, in increasing order. */
  function IrreducibleBytesBelow(n: nat): seq<Byte>
    requires n <= 256
  {
    BytesBelow(n, ModulusPasses)
  }

  /** The list is strictly increasing and holds exactly the passing bytes below `n`. */
  lemma {:induction false} IrreducibleBytesBelowSpec(n: nat)
    requires n <= 256
    ensures forall i, j | 0 <= i < j < |IrreducibleBytesBelow(n)| ::
              IrreducibleBytesBelow(n)[i] < IrreducibleBytesBelow(n)[j]
    ensures forall b: Byte :: b in IrreducibleBytesBelow(n) <==> b < n && IrreducibleTest(FieldPoly(b))
  {
    BytesBelowMembers(n, ModulusPasses);
    BytesBelowSorted(n, ModulusPasses);
  }

  lemma {:induction false} BytesBelowMembers(n: nat, passes: Byte -> bool)
    requires n <= 256
    ensures forall b: Byte :: b in BytesBelow(n, passes) <==> b < n && passes(b)
  {
    if n > 0 {
      BytesBelowMembers(n - 1, passes);
      var prev := BytesBelow(n - 1, passes);
      var last: Byte := n - 1;
      var tail: seq<Byte> := if passes(last) then [last] else [];
      assert BytesBelow(n, passes) == prev + tail;
      forall b: Byte
        ensures b in prev + tail <==> b < n && passes(b)
      {
        assert b in prev + tail <==> b in prev || b in tail;
      }
    }
  }

  lemma {:induction false} BytesBelowSorted(n: nat, passes: Byte -> bool)
    requires n <= 256
    ensures forall i, j | 0 <= i < j < |BytesBelow(n, passes)| :: BytesBelow(n, passes)[i] < BytesBelow(n, passes)[j]
  {
    if n > 0 {
      BytesBelowSorted(n - 1, passes);
      BytesBelowMembers(n - 1, passes);
      var prev := BytesBelow(n - 1, passes);
      var last: Byte := n - 1;
      var tail: seq<Byte> := if passes(last) then [last] else [];
      assert BytesBelow(n, passes) == prev + tail;
      forall i, j | 0 <= i < j < |prev + tail|
        ensures (prev + tail)[i] < (prev + tail)[j]
      {
        if j >= |prev| {
          assert prev[i] in prev;
        }
      }
    }
  }

  /** The list only grows with the bound. */
  lemma {:induction false} BytesBelowGrows(m: nat, n: nat, passes: Byte -> bool)
    requires m <= n <= 256
    ensures |BytesBelow(m, passes)| <= |BytesBelow(n, passes)|
    decreases n
  {
    if m < n {
      BytesBelowGrows(m, n - 1, passes);
    }
  }

  /** One more candidate: the low byte of modulus `i` joins the list exactly when it passes. */
  lemma {:induction false} ListingStep(i: nat, passes: bool)
    requires 0x100 <= i < 0x200 && passes == ModulusPasses(i - 0x100)
    ensures IrreducibleBytesBelow(i + 1 - 0x100) == IrreducibleBytesBelow(i - 0x100) + (if passes then [i - 0x100] else [])
  {
  }

  /** The test of modulus `i` is the test of its low byte. */
  lemma {:induction false} PassesAt(i: nat, passes: bool)
    requires 0x100 <= i < 0x200 && passes == IrreducibleTest(i)
    ensures passes == ModulusPasses(i - 0x100)
  {
    assert FieldPoly(i - 0x100) == i;
  }

  /** `getAllIrreduciblePolynomials`: the low bytes of the moduli in [0x100, 0x1FF] that pass
   *  the test, in increasing order. */
  method GetAllIrreduciblePolynomials() returns (result: seq<Byte>)
    ensures forall i, j | 0 <= i < j < |result| :: result[i] < result[j]
    ensures forall b: Byte :: b in result <==> IrreducibleTest(FieldPoly(b))
  {
    result := [];
    var i: nat := 0x100;
    while i < 0x200
      invariant 0x100 <= i <= 0x200 && result == IrreducibleBytesBelow(i - 0x100)
    {
      var ok := IsIrreducible(i);
      PassesAt(i, ok);
      ListingStep(i, ok);
      if ok {
        result := result + [i - 0x100];
      }
      i := i + 1;
    }
    IrreducibleBytesBelowSpec(i - 0x100);
  }

  // ---------------------------------------------------------------------------------------
  // Field operations

  /** `multiplyMod`: refuse a modulus that fails the test, then eight shift-and-add steps,
   *  each reducing by the field polynomial as soon as the degree reaches 8. */
  method MultiplyMod(a: Byte, b: Byte, modulus: Byte) returns (r: Result<Byte>)
    ensures r == if IrreducibleTest(FieldPoly(modulus)) then Ok(FieldMul(a, b, modulus))
                 else Err(NotIrreducible)
  {
    var irreducible := IsIrreducible(FieldPoly(modulus));
    if !irreducible {
      return Err(NotIrreducible);
    }
    var m := FieldPoly(modulus);
    var result: nat := 0;
    var aInt: nat := a;
    var bInt: nat := b;
    XorZero(MulMod(a, b, m));
    ByteDegree(b);
    for i := 0 to 8
      invariant aInt < 256 && result < 256 && Degree(bInt) < 8 - i
      invariant Xor(result, MulMod(aInt, bInt, m)) == MulMod(a, b, m)
    {
      MultiplyStep(result, aInt, bInt, m);
      DegreeUnfold(bInt / 2, bInt % 2);
      if bInt % 2 != 0 {
        result := Xor(result, aInt);
      }
      var highBitSet := (aInt / 128) % 2 != 0;
      aInt := 2 * aInt;
      if highBitSet {
        aInt := Xor(aInt, m);
      }
      bInt := bInt / 2;
    }
    assert bInt == 0;
    XorZero(result);
    r := Ok(result);
  }

  /** One step of the `multiplyMod` loop keeps result + aInt * bInt (mod m) unchanged, and
   *  keeps both below 256. */
  lemma {:induction false} MultiplyStep(result: nat, aInt: nat, bInt: nat, m: nat)
    requires 256 <= m < 512 && aInt < 256 && result < 256
    ensures var result' := if bInt % 2 != 0 then Xor(result, aInt) else result;
            var aInt' := if (aInt / 128) % 2 != 0 then Xor(2 * aInt, m) else 2 * aInt;
            result' < 256 && aInt' < 256 &&
            Xor(result', MulMod(aInt', bInt / 2, m)) == Xor(result, MulMod(aInt, bInt, m))
  {
    DegreeOfField(m);
    assert Pow2(8) == 256;
    XorBelow(result, aInt, 8);
    var aInt' := if (aInt / 128) % 2 != 0 then Xor(2 * aInt, m) else 2 * aInt;
    // aInt' is 2 * aInt reduced by m
    assert aInt' < 256 && aInt' == Mod(2 * aInt, m) by {
      if (aInt / 128) % 2 != 0 {
        DegreeOfField(2 * aInt);
        XorDegree(2 * aInt, m);
        ByteDegree(Xor(2 * aInt, m));
        assert Mod(2 * aInt, m) == Mod(Xor(2 * aInt, Shift(m, 0)), m);
      } else {
        ByteDegree(2 * aInt);
      }
    }
    ByteDegree(aInt');
    ModMulLeft(2 * aInt, bInt / 2, m);
    ClMulDoubleLeft(aInt, bInt / 2);
    // MulMod(aInt, bInt) splits into the low bit's term and the rest
    var low := if bInt % 2 == 1 then aInt else 0;
    assert ClMul(aInt, bInt) == Xor(low, ClMul(2 * aInt, bInt / 2)) by {
      if bInt == 0 {
        ClMulZeroLeft(0);
        XorZero(0);
        assert ClMul(2 * aInt, 0) == 0;
      }
    }
    ModLinear(low, ClMul(2 * aInt, bInt / 2), m);
    ByteDegree(low);
    ModSmall(low, m);
    if bInt % 2 != 0 {
      XorAssoc(result, aInt, MulMod(aInt', bInt / 2, m));
    } else {
      XorZero(MulMod(aInt', bInt / 2, m));
    }
  }

  /** `multiply`: the square of `a`. */
  method Multiply(a: Byte, modulus: Byte) returns (r: Result<Byte>)
    ensures r == if IrreducibleTest(FieldPoly(modulus)) then Ok(FieldMul(a, a, modulus))
                 else Err(NotIrreducible)
  {
    var irreducible := IsIrreducible(FieldPoly(modulus));
    if !irreducible {
      return Err(NotIrreducible);
    }
    r := MultiplyMod(a, a, modulus);
  }

  /** Two elements are congruent modulo m. */
  predicate Congruent(x: nat, y: nat, m: nat)
  {
    Mod(x, m) == Mod(y, m)
  }

  /** The state of the extended Euclidean loop in `inverse`, for element `a` and field
   *  polynomial `m`: t * a = r and newT * a = newR modulo m, the gcd is kept, the remainders
   *  fall in degree, and deg newT + deg r = 8 with deg t < deg newT. */
  predicate EuclidState(a: nat, m: nat, t: nat, newT: nat, r: nat, newR: nat)
  {
    r != 0 && Degree(newR) < Degree(r) && Gcd(r, newR) == Gcd(m, a) &&
    Congruent(ClMul(t, a), r, m) && Congruent(ClMul(newT, a), newR, m) &&
    newT != 0 && Degree(newT) + Degree(r) == 8 && Degree(t) < Degree(newT)
  }

  lemma {:induction false} EuclidStart(a: Byte, m: nat)
    requires 256 <= m < 512 && a != 0
    ensures EuclidState(a, m, 0, 1, m, a)
  {
    DegreeOfField(m);
    ByteDegree(a);
    ClMulZeroLeft(a);
    ClMulOneLeft(a);
    ClMulOneLeft(m);
    ModMultiple(1, m);
  }

  /** One round of the loop: the quotient step keeps the state. */
  lemma {:induction false} EuclidStep(a: nat, m: nat, t: nat, newT: nat, r: nat, newR: nat)
    requires m != 0 && newR != 0 && EuclidState(a, m, t, newT, r, newR)
    ensures var q := Quot(r, newR);
            Xor(r, ClMul(q, newR)) == Mod(r, newR) &&
            EuclidState(a, m, newT, Xor(t, ClMul(q, newT)), newR, Xor(r, ClMul(q, newR)))
  {
    var q := Quot(r, newR);
    var rem := Mod(r, newR);
    DivMod(r, newR);
    XorComm(ClMul(q, newR), rem);
    XorCancel(rem, ClMul(q, newR));
    assert Xor(r, ClMul(q, newR)) == rem;
    // the gcd
    assert Gcd(r, newR) == Gcd(newR, rem);
    // the congruence
    var t' := Xor(t, ClMul(q, newT));
    ClMulDistLeft(t, ClMul(q, newT), a);
    ClMulAssoc(q, newT, a);
    ModLinear(ClMul(t, a), ClMul(q, ClMul(newT, a)), m);
    ModMulRight(q, ClMul(newT, a), m);
    ModMulRight(q, newR, m);
    ModLinear(r, ClMul(q, newR), m);
    assert Congruent(ClMul(t', a), rem, m);
    // the degrees
    QuotDegree(r, newR);
    ClMulDegree(q, newT);
    XorDegree(t, ClMul(q, newT));
  }

  /** `inverse`: the guards, then the extended Euclidean algorithm on (m, a). It fails with
   *  "Element is not invertible" exactly when a and the field polynomial share a factor,
   *  and otherwise returns an element whose product with `a` is 1. */
  method Inverse(a: Byte, modulus: Byte) returns (res: Result<Byte>)
    ensures !IrreducibleTest(FieldPoly(modulus)) ==> res == Err(NotIrreducible)
    ensures IrreducibleTest(FieldPoly(modulus)) && a == 0 ==> res == Err(ZeroHasNoInverse)
    ensures IrreducibleTest(FieldPoly(modulus)) && a != 0 && Gcd(FieldPoly(modulus), a) != 1 ==>
              res == Err(NotInvertible)
    ensures res.Ok? <==> IrreducibleTest(FieldPoly(modulus)) && a != 0 && Gcd(FieldPoly(modulus), a) == 1
    ensures res.Ok? ==> FieldMul(a, res.value, modulus) == 1
  {
    var irreducible := IsIrreducible(FieldPoly(modulus));
    if !irreducible {
      return Err(NotIrreducible);
    }
    if a == 0 {
      return Err(ZeroHasNoInverse);
    }
    var m := FieldPoly(modulus);
    var t: nat, newT: nat := 0, 1;
    var r: nat, newR: nat := m, a;
    EuclidStart(a, m);
    while newR != 0
      invariant EuclidState(a, m, t, newT, r, newR)
      decreases Degree(newR) + 1
    {
      var quotient := Divide(r, newR);
      EuclidStep(a, m, t, newT, r, newR);
      var tempT := t;
      t := newT;
      var product := MultiplyPoly(quotient, newT);
      newT := Xor(tempT, product);
      var tempR := r;
      r := newR;
      product := MultiplyPoly(quotient, newR);
      newR := Xor(tempR, product);
    }
    if r > 1 {
      return Err(NotInvertible);
    }
    InverseFound(a, m, t, newT, r);
    res := Ok(t);
  }

  /** When the loop stops at gcd 1, `t` fits in a byte and t * a = 1 modulo m. */
  lemma {:induction false} InverseFound(a: nat, m: nat, t: nat, newT: nat, r: nat)
    requires 256 <= m < 512 && r <= 1 && EuclidState(a, m, t, newT, r, 0)
    ensures t < 256 && Mod(ClMul(a, t), m) == 1
  {
    DegreeOfField(m);
    ByteDegree(t);
    ClMulComm(a, t);
    assert Degree(1) == 0;
  }

  /** Only an element coprime to the field polynomial has an inverse: an element sharing a
   *  factor with it has none. */
  lemma {:induction false} InverseNeedsCoprime(a: Byte, modulus: Byte, t: Byte)
    requires FieldMul(a, t, modulus) == 1
    ensures Gcd(FieldPoly(modulus), a) == 1
  {
    var m := FieldPoly(modulus);
    var g := Gcd(m, a);
    GcdDivides(m, a);
    var q := Quot(ClMul(a, t), m);
    DivMod(ClMul(a, t), m);
    DividesProduct(g, a, t);
    ClMulComm(t, a);
    DividesProduct(g, m, q);
    XorComm(ClMul(q, m), 1);
    XorCancel(1, ClMul(q, m));
    assert Xor(ClMul(a, t), ClMul(q, m)) == 1;
    DividesSum(g, ClMul(a, t), ClMul(q, m));
    DividesOne(g);
  }

  /** Only 1 divides 1. */
  lemma {:induction false} DividesOne(g: nat)
    requires Divides(g, 1)
    ensures g == 1
  {
    DegreeBelow(g, 1);
    assert Degree(1) == 0;
  }

  /** The inverse is unique: two elements with the same inverse are equal. */
  lemma {:induction false} InverseUnique(a: Byte, b: Byte, t: Byte, modulus: Byte)
    requires FieldMul(a, t, modulus) == 1 && FieldMul(b, t, modulus) == 1
    ensures a == b
  {
    FieldMulAssoc(a, t, b, modulus);
    FieldMulComm(t, b, modulus);
    FieldMulIdentity(a, modulus);
    FieldMulIdentity(b, modulus);
  }

  // ---------------------------------------------------------------------------------------
  // Factorisation, for the inputs it treats specially

  /** `factorize`: 0 and 1 have no factors; otherwise trial division of the low 24 bits by
   *  every listed irreducible, then whatever is left when its degree is 1 to 8, cast to a
   *  byte. Every factor but the last comes from the list. */
  method Factorize(poly: int) returns (factors: seq<Byte>)
    ensures poly == 0 || poly == 1 ==> factors == []
    ensures forall i | 0 <= i < |factors| - 1 :: IrreducibleTest(FieldPoly(factors[i]))
  {
    factors := [];
    if poly == 0 || poly == 1 {
      return;
    }
    var p: nat := poly % 0x1000000;
    var irreducibles := GetAllIrreduciblePolynomials();
    for k := 0 to |irreducibles|
      invariant forall i | 0 <= i < |factors| :: IrreducibleTest(FieldPoly(factors[i]))
    {
      var irreducible := irreducibles[k];
      var irr := FieldPoly(irreducible);
      DegreeOfField(irr);
      while p != 0 && p != 1
        invariant forall i | 0 <= i < |factors| :: IrreducibleTest(FieldPoly(factors[i]))
        decreases p
      {
        var remainder := ModPoly(p, irr);
        if remainder == 0 {
          factors := factors + [irreducible];
          QuotSmaller(p, irr);
          p := DividePoly(p, irr);
        } else {
          break;
        }
      }
      if p == 1 {
        break;
      }
    }
    var deg := DegreeOf(p);
    if p > 1 && deg > 0 && deg <= 8 {
      factors := factors + [p % 256];
    }
  }

  /** Dividing by a polynomial of positive degree makes a non-zero polynomial smaller. */
  lemma {:induction false} QuotSmaller(a: nat, b: nat)
    requires a != 0 && Degree(b) >= 1
    ensures Quot(a, b) < a
  {
    if Degree(a) >= Degree(b) {
      QuotDegree(a, b);
      DegreeBelow(Quot(a, b), Degree(a));
      DegreeBounds(a);
    }
  }
}
