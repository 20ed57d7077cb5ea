/** GF(2^8) arithmetic as lab3/task1-galois-field/src/GaloisFieldService.java implements it.
 *  Like the sibling service, a byte modulus m names the field polynomial x^8 + m; this file
 *  has its own irreducibility test (trial division by every polynomial of degree 1 to 4),
 *  its own multiplication loop, and its own private helpers. Java bytes are held as their
 *  unsigned values and ints as naturals: every int the code builds here stays below 2^17. */
module GaloisFieldService {
  import opened Wrappers
  import opened Gf2Poly
  import G = Gf256Service

  type Byte = G.Byte

  const NotIrreducible: Error := IllegalArgument("Modulus must be irreducible")
  const ZeroHasNoInverse: Error := IllegalArgument("Zero has no inverse")

  /** The number of byte values. */
  const ByteCount: nat := 256

  /** `add`: exclusive or, which is its own inverse. */
  function Add(a: Byte, b: Byte): (r: Byte)
    ensures Xor(r, b) == a && Xor(r, a) == b
  {
    G.Add(a, b)
  }

  // ---------------------------------------------------------------------------------------
  // The private helpers

  /** `degree`: count the unsigned shifts until nothing is left, starting from -1. */
  method DegreeOf(poly: nat) returns (deg: int)
    ensures deg == Degree(poly)
  {
    deg := -1;
    var p := poly;
    while p != 0
      invariant deg + 1 + Degree(p) == Degree(poly)
      decreases p
    {
      deg := deg + 1;
      p := p / 2;
    }
  }

  /** `multiplyPolynomials`: shift-and-add; with a non-zero modulus it also cancels the
   *  modulus once whenever the shifted operand reaches its degree. The one caller passes 0,
   *  and for 0 the result is the carry-less product. */
  method MultiplyPolynomials(a: nat, b: nat, modulus: nat) returns (result: nat)
    ensures modulus == 0 ==> result == ClMul(a, b)
  {
    result := 0;
    var x, y := a, b;
    XorZero(ClMul(a, b));
    while y != 0
      invariant modulus == 0 ==> Xor(result, ClMul(x, y)) == ClMul(a, b)
      decreases y
    {
      if y % 2 != 0 {
        XorAssoc(result, x, ClMul(2 * x, y / 2));
        result := Xor(result, x);
      } else {
        XorZero(ClMul(2 * x, y / 2));
      }
      y := y / 2;
      x := 2 * x;
      var degX := DegreeOf(x);
      var degM := DegreeOf(modulus);
      if modulus != 0 && degX >= degM {
        x := Xor(x, modulus);
      }
    }
    XorZero(result);
  }

  /** `mod`: long division keeping the remainder; by zero the dividend is returned. */
  method ModOf(dividend: nat, divisor: nat) returns (r: nat)
    ensures r == Mod(dividend, divisor)
    ensures divisor != 0 ==> Degree(r) < Degree(divisor)
  {
    if divisor == 0 {
      return dividend;
    }
    r := dividend;
    var degR := DegreeOf(r);
    var degD := DegreeOf(divisor);
    while degR >= degD
      invariant degR == Degree(r) && degD == Degree(divisor) && Mod(r, divisor) == Mod(dividend, divisor)
      decreases r
    {
      var shift := degR - degD;
      ReduceLess(r, divisor);
      r := Xor(r, Shift(divisor, shift));
      degR := DegreeOf(r);
    }
    ModSmall(r, divisor);
  }

  /** `divide`: the quotient of long division; a zero divisor throws. */
  method Divide(dividend: nat, divisor: nat) returns (q: Result<nat>)
    ensures divisor == 0 ==> q == Err(Arithmetic)
    ensures divisor != 0 ==> q == Ok(Quot(dividend, divisor))
  {
    if divisor == 0 {
      return Err(Arithmetic);
    }
    var quotient := 0;
    var x := dividend;
    var degX := DegreeOf(x);
    var degD := DegreeOf(divisor);
    XorZero(Quot(dividend, divisor));
    while degX >= degD
      invariant degX == Degree(x) && degD == Degree(divisor)
      invariant Xor(quotient, Quot(x, divisor)) == Quot(dividend, divisor)
      decreases x
    {
      var shift := degX - degD;
      ReduceLess(x, divisor);
      XorAssoc(quotient, Pow2(shift), Quot(Xor(x, Shift(divisor, shift)), divisor));
      quotient := Xor(quotient, Pow2(shift));
      x := Xor(x, Shift(divisor, shift));
      degX := DegreeOf(x);
    }
    XorZero(quotient);
    q := Ok(quotient);
  }

  // ---------------------------------------------------------------------------------------
  // Irreducibility by trial division

  /** No polynomial of degree 1 to 4 divides the field polynomial x^8 + modulus. A
   *  reducible polynomial of degree 8 has a factor of degree at most 4. */
  ghost predicate SmallFactorFree(modulus: Byte)
  {
    forall d: nat {:trigger Divides(d, G.FieldPoly(modulus))} ::
      1 <= Degree(d) <= 4 ==> !Divides(d, G.FieldPoly(modulus))
  }

  /** The polynomials of degree 1 to 4 are exactly the numbers 2 to 31. */
  lemma {:induction false} SmallDegrees(d: nat)
    ensures 1 <= Degree(d) <= 4 <==> 2 <= d < 32
  {
    DegreeBelow(d, 1);
    DegreeBelow(d, 5);
    assert Pow2(1) == 2 && Pow2(5) == 32;
  }

  /** Dividing by x leaves the constant term. */
  lemma {:induction false} ModTwo(p: nat)
    ensures Mod(p, 2) == p % 2
  {
    var q, r := p / 2, p % 2;
    ClMulDoubleRight(q, 1);
    ClMulOneRight(q);
    XorUnfold(q, 0, 0, r);
    XorZero(q);
    assert Xor(ClMul(q, 2), r) == p;
    DegreeBelow(r, 1);
    assert Pow2(1) == 2 && Degree(2) == 1;
    DivModUnique(p, 2, q, r);
  }

  /** `isIrreducible`: an even field polynomial is refused at once; otherwise every divisor
   *  from 2 upwards is tried until its degree exceeds 4. */
  method IsIrreducible(modulus: Byte) returns (b: bool)
    ensures b == SmallFactorFree(modulus)
  {
    var poly := G.FieldPoly(modulus);
    if poly % 2 == 0 {
      ModTwo(poly);
      SmallDegrees(2);
      assert Divides(2, G.FieldPoly(modulus));
      return false;
    }
    var divisor := 2;
    while divisor < poly
      invariant 2 <= divisor <= 32
      invariant forall d: nat | 2 <= d < divisor :: Mod(poly, d) != 0
      decreases poly - divisor
    {
      var deg := DegreeOf(divisor);
      if deg > 4 {
        SmallDegrees(divisor);
        break;
      }
      var remainder := ModOf(poly, divisor);
      if remainder == 0 {
        SmallDegrees(divisor);
        assert Divides(divisor, G.FieldPoly(modulus));
        return false;
      }
      SmallDegrees(divisor);
      divisor := divisor + 1;
    }
    forall d: nat | 1 <= Degree(d) <= 4
      ensures !Divides(d, poly)
    {
      SmallDegrees(d);
    }
    return true;
  }

  /** The low bytes below `n` whose moduli pass the test, in increasing order. */
  ghost function SmallFactorFreeBelow(n: nat): seq<Byte>
    requires n <= 256
  {
    G.BytesBelow(n, SmallFactorFree)
  }

  /** The list is strictly increasing and holds exactly the passing bytes below `n`. */
  lemma {:induction false} SmallFactorFreeBelowSpec(n: nat)
    requires n <= 256
    ensures forall i, j | 0 <= i < j < |SmallFactorFreeBelow(n)| ::
              SmallFactorFreeBelow(n)[i] < SmallFactorFreeBelow(n)[j]
    ensures forall b: Byte :: b in SmallFactorFreeBelow(n) <==> b < n && SmallFactorFree(b)
  {
    G.BytesBelowMembers(n, SmallFactorFree);
    G.BytesBelowSorted(n, SmallFactorFree);
  }

  /** The passing low bytes below `n` in increasing order, padded with zeros to 30 entries,
   *  or an index error if there are more than 30 of them. */
  ghost function ListedModuli(n: nat): Result<seq<Byte>>
    requires n <= 256
  {
    var found := SmallFactorFreeBelow(n);
    if |found| <= 30 then Ok(Padded(found, 30 - |found|)) else Err(IndexOutOfBounds)
  }

  /** Once every byte is examined with at most 30 found, the array holds them. */
  lemma {:induction false} ListedAll(found: seq<Byte>, written: seq<Byte>, n: nat)
    requires n == ByteCount && found == SmallFactorFreeBelow(n)
    requires |found| <= 30 && written == Padded(found, 30 - |found|)
    ensures ListedModuli(ByteCount) == Ok(written)
  {
  }

  /** One more modulus `i` examined: the list grows by its low byte exactly when it passes. */
  lemma {:induction false} BelowStepAt(i: nat, passes: bool)
    requires 0x100 <= i < 0x200 && passes == SmallFactorFree(i - 0x100)
    ensures SmallFactorFreeBelow(i + 1 - 0x100) ==
            SmallFactorFreeBelow(i - 0x100) + (if passes then [i - 0x100] else [])
  {
  }

  /** Finding a 31st passing byte means more than 30 pass. */
  lemma {:induction false} ListedTooMany(found: seq<Byte>, n: nat)
    requires n <= ByteCount && found == SmallFactorFreeBelow(n) && |found| > 30
    ensures ListedModuli(ByteCount) == Err(IndexOutOfBounds)
  {
    G.BytesBelowGrows(n, ByteCount, SmallFactorFree);
  }

  /** `getAllIrreduciblePolynomials`: the passing low bytes are written, in increasing order,
   *  into a 30-slot array that starts out zero; a 31st one would overflow the array. */
  method GetAllIrreduciblePolynomials() returns (r: Result<seq<Byte>>)
    ensures r == ListedModuli(ByteCount)
  {
    var result := new Byte[30](_ => 0);
    var count := 0;
    assert result[..] == Padded([], 30);
    var i: nat := 0x100;
    while i < 0x200
      invariant 0x100 <= i <= 0x200 && count == |SmallFactorFreeBelow(i - 0x100)| <= 30
      invariant result[..] == Padded(SmallFactorFreeBelow(i - 0x100), 30 - count)
    {
      var overflow;
      count, overflow := Examine(result, count, i);
      if overflow {
        ListedTooMany(SmallFactorFreeBelow(i + 1 - 0x100), i + 1 - 0x100);
        return Err(IndexOutOfBounds);
      }
      i := i + 1;
    }
    ListedAll(SmallFactorFreeBelow(i - 0x100), result[..], i - 0x100);
    return Ok(result[..]);
  }

  /** One turn of the listing loop: tests modulus `i` and records its low byte when it passes,
   *  unless the array is already full. */
  method Examine(result: array<Byte>, count: nat, i: nat) returns (count': nat, overflow: bool)
    requires 0x100 <= i < 0x200 && result.Length == 30
    requires count == |SmallFactorFreeBelow(i - 0x100)| <= 30
    requires result[..] == Padded(SmallFactorFreeBelow(i - 0x100), 30 - count)
    modifies result
    ensures overflow ==> |SmallFactorFreeBelow(i + 1 - 0x100)| > 30
    ensures !overflow ==> count' == |SmallFactorFreeBelow(i + 1 - 0x100)| <= 30
    ensures !overflow ==> result[..] == Padded(SmallFactorFreeBelow(i + 1 - 0x100), 30 - count')
  {
    ghost var found := SmallFactorFreeBelow(i - 0x100);
    var poly: Byte := i - 0x100;
    var ok := IsIrreducible(poly);
    BelowStepAt(i, ok);
    if !ok {
      assert found + [] == found;
      return count, false;
    }
    if count == 30 {
      return count, true;
    }
    Record(result, count, poly, found);
    return count + 1, false;
  }

  /** Writes `x` into the first free slot of the padded array. */
  method Record(result: array<Byte>, count: nat, x: Byte, ghost found: seq<Byte>)
    requires count == |found| < result.Length && result[..] == Padded(found, result.Length - count)
    modifies result
    ensures result[..] == Padded(found + [x], result.Length - count - 1)
  {
    PaddedPut(found, x, result.Length - count - 1);
    ghost var before := result[..];
    result[count] := x;
    assert result[..] == before[count := x];
  }

  /** A list followed by `zeros` zero bytes. */
  function Padded(s: seq<Byte>, zeros: nat): (r: seq<Byte>)
    ensures |r| == |s| + zeros && r[..|s|] == s
  {
    s + seq(zeros, _ => 0)
  }

  /** Writing `x` over the first padding zero appends it to the list. */
  lemma {:induction false} PaddedPut(s: seq<Byte>, x: Byte, zeros: nat)
    ensures Padded(s, zeros + 1)[|s| := x] == Padded(s + [x], zeros)
  {
    var a, b := Padded(s, zeros + 1)[|s| := x], Padded(s + [x], zeros);
    assert |a| == |b|;
    forall i | 0 <= i < |a|
      ensures a[i] == b[i]
    {
      if i < |s| {
        assert a[i] == Padded(s, zeros + 1)[..|s|][i];
        assert b[i] == b[..|s| + 1][i];
      }
    }
  }

  // ---------------------------------------------------------------------------------------
  // Field operations

  /** Byte arithmetic: a number is its low byte plus 256 times the rest. */
  lemma {:induction false} LowOf(s: nat, t: nat)
    requires s < 256
    ensures (s + 256 * t) % 256 == s && (s + 256 * t) / 256 == t
  {
  }

  /** Bit 7 of a number is bit 7 of its low byte. */
  lemma {:induction false} HighBit(x: nat)
    ensures (x / 128) % 2 == ((x % 256) / 128) % 2
  {
  }

  /** The low byte of a doubled number. */
  lemma {:induction false} DoubleLow(x: nat)
    ensures (2 * x) % 256 == if x % 256 < 128 then 2 * (x % 256) else 2 * (x % 256) - 256
  {
  }

  /** A number is its low byte plus 256 times the rest. */
  lemma {:induction false} SplitByte(x: nat)
    ensures x % 256 < 256 && x == x % 256 + 256 * (x / 256)
  {
  }

  /** Exclusive or acts on the low byte and the rest separately. */
  lemma {:induction false} XorBytes(xl: nat, xh: nat, yl: nat, yh: nat)
    requires xl < 256 && yl < 256
    ensures Xor(xl + 256 * xh, yl + 256 * yh) == Xor(xl, yl) + 256 * Xor(xh, yh)
    ensures Xor(xl, yl) < 256
  {
    var p := Pow2(8);
    assert p == 256;
    XorSplit(xl, yl, xh, yh, 8);
    ShiftMul(xh, 8);
    ShiftMul(yh, 8);
    ShiftMul(Xor(xh, yh), 8);
    XorBelow(xl, yl, 8);
  }

  /** The low byte of an exclusive or is the exclusive or of the low bytes. */
  lemma {:induction false} LowByteXor(x: nat, y: nat)
    ensures Xor(x, y) % 256 == Xor(x % 256, y % 256)
  {
    var xl, xh, yl, yh := x % 256, x / 256, y % 256, y / 256;
    SplitByte(x);
    SplitByte(y);
    XorBytes(xl, xh, yl, yh);
    LowOf(Xor(xl, yl), Xor(xh, yh));
  }

  /** Doubling `aa` and cancelling `modulus` when bit 7 was set agrees, on the low byte, with
   *  doubling the low byte and reducing by x^8 + modulus. */
  lemma {:induction false} DoubleLowByte(aa: nat, modulus: Byte)
    ensures var next := if (aa / 128) % 2 != 0 then Xor(2 * aa, modulus) else 2 * aa;
            var low := aa % 256;
            next % 256 == if (low / 128) % 2 != 0 then Xor(2 * low, G.FieldPoly(modulus)) else 2 * low
  {
    HighBit(aa);
    DoubleLow(aa);
    if ((aa % 256) / 128) % 2 != 0 {
      CancelHighBit(2 * aa, 2 * (aa % 256) - 256, modulus);
    }
  }

  /** When the doubled byte overflowed into bit 8, cancelling the modulus on the low byte is
   *  cancelling the whole field polynomial. */
  lemma {:induction false} CancelHighBit(x: nat, d: nat, modulus: Byte)
    requires x % 256 == d && d < 256
    ensures Xor(x, modulus) % 256 == Xor(d + 256, 256 + modulus)
  {
    LowByteXor(x, modulus);
    assert modulus % 256 == modulus;
    XorBytes(d, 1, modulus, 1);
    XorSelf(1);
  }

  /** `multiply`: refuse a modulus that fails this file's test; then eight shift-and-add
   *  steps in which the shifted operand keeps its high bits and only its low byte is
   *  reduced. The low byte of the result is the field product. */
  method Multiply(a: Byte, b: Byte, modulus: Byte) returns (r: Result<Byte>)
    ensures r == if SmallFactorFree(modulus) then Ok(G.FieldMul(a, b, modulus)) else Err(NotIrreducible)
  {
    var irreducible := IsIrreducible(modulus);
    if !irreducible {
      return Err(NotIrreducible);
    }
    var m := G.FieldPoly(modulus);
    var result: nat := 0;
    var aa: nat := a;
    var bb: nat := b;
    XorZero(MulMod(a, b, m));
    G.ByteDegree(b);
    assert aa % 256 == a && result % 256 == 0;
    for i := 0 to 8
      invariant Degree(bb) < 8 - i
      invariant Xor(result % 256, MulMod(aa % 256, bb, m)) == MulMod(a, b, m)
    {
      G.MultiplyStep(result % 256, aa % 256, bb, m);
      DegreeUnfold(bb / 2, bb % 2);
      DoubleLowByte(aa, modulus);
      if bb % 2 != 0 {
        LowByteXor(result, aa);
        result := Xor(result, aa);
      }
      var highBitSet := (aa / 128) % 2 != 0;
      aa := 2 * aa;
      if highBitSet {
        aa := Xor(aa, modulus);
      }
      bb := bb / 2;
    }
    assert bb == 0;
    XorZero(result % 256);
    r := Ok(result % 256);
  }

  /** The argument checks of `inverse`: the modulus test first, then a zero argument. The
   *  inversion loop after them is not part of this model. */
  method InverseGuards(a: Byte, modulus: Byte) returns (r: Option<Error>)
    ensures !SmallFactorFree(modulus) ==> r == Some(NotIrreducible)
    ensures SmallFactorFree(modulus) && a == 0 ==> r == Some(ZeroHasNoInverse)
    ensures SmallFactorFree(modulus) && a != 0 ==> r == None
  {
    var irreducible := IsIrreducible(modulus);
    if !irreducible {
      return Some(NotIrreducible);
    }
    if a == 0 {
      return Some(ZeroHasNoInverse);
    }
    return None;
  }

  // ---------------------------------------------------------------------------------------
  // Factorisation

  /** The product of a list of polynomials. */
  function Product(fs: seq<nat>): nat
  {
    if |fs| == 0 then 1 else ClMul(Product(fs[..|fs| - 1]), fs[|fs| - 1])
  }

  /** A polynomial of degree at least 1 that no smaller polynomial of degree at least 1
   *  divides. */
  predicate Irreducible(f: nat)
  {
    f >= 2 && forall e: nat | 2 <= e < f :: !Divides(e, f)
  }

  /** Every number from 2 up is a polynomial of degree at least 1. */
  lemma {:induction false} PositiveDegree(e: nat)
    requires e >= 2
    ensures Degree(e) >= 1
  {
  }

  /** A divisor of a divisor divides. */
  lemma {:induction false} DividesTrans(e: nat, f: nat, c: nat)
    requires Divides(e, f) && Divides(f, c)
    ensures Divides(e, c)
  {
    G.DivisionLaw(c, f);
    XorZero(ClMul(Quot(c, f), f));
    DividesProduct(e, f, Quot(c, f));
  }

  /** A divisor of a quotient divides the dividend. */
  lemma {:induction false} DividesQuotient(e: nat, q: nat, d: nat)
    requires Divides(e, q)
    ensures Divides(e, ClMul(q, d))
  {
    ClMulComm(q, d);
    DividesProduct(e, q, d);
  }

  /** A non-zero polynomial divides itself. */
  lemma {:induction false} DividesSelf(c: nat)
    requires c != 0
    ensures Divides(c, c)
  {
    ClMulOneLeft(c);
    ModMultiple(1, c);
  }

  /** `factorize`: nothing below 2; otherwise divide out 2, 3, 4, ... in turn, each as often
   *  as it divides, and answer the polynomial itself if nothing was found. The factors
   *  multiply back to the polynomial, come in increasing order, and are irreducible. */
  method Factorize(polynomial: int) returns (factors: seq<nat>)
    ensures polynomial < 2 ==> factors == []
    ensures polynomial >= 2 ==> Product(factors) == polynomial
    ensures forall i | 0 <= i < |factors| :: Irreducible(factors[i])
    ensures forall i, j | 0 <= i < j < |factors| :: factors[i] <= factors[j]
    ensures polynomial >= 2 && Irreducible(polynomial) ==> factors == [polynomial]
  {
    if polynomial < 2 {
      return [];
    }
    factors := [];
    var current: nat := polynomial;
    var divisor := 2;
    ClMulOneLeft(current);
    while divisor <= current
      invariant current >= 1 && divisor >= 2
      invariant ClMul(Product(factors), current) == polynomial
      invariant current == 1 || divisor <= current
      invariant forall e: nat | 2 <= e < divisor :: !Divides(e, current)
      invariant forall i | 0 <= i < |factors| :: Irreducible(factors[i]) && factors[i] < divisor
      invariant forall i, j | 0 <= i < j < |factors| :: factors[i] <= factors[j]
      decreases current - divisor + 1
    {
      PositiveDegree(divisor);
      while current > 1
        invariant current >= 1
        invariant ClMul(Product(factors), current) == polynomial
        invariant forall e: nat | 2 <= e < divisor :: !Divides(e, current)
        invariant forall i | 0 <= i < |factors| :: Irreducible(factors[i]) && factors[i] <= divisor
        invariant forall i, j | 0 <= i < j < |factors| :: factors[i] <= factors[j]
        decreases current
      {
        var quotient := Divide(current, divisor);
        var q := quotient.value;
        var product := MultiplyPolynomials(q, divisor, 0);
        var remainder := Xor(current, product);
        G.DivisionLaw(current, divisor);
        XorComm(product, Mod(current, divisor));
        XorCancel(Mod(current, divisor), product);
        if remainder == 0 {
          FactorStep(factors, current, divisor, polynomial);
          factors := factors + [divisor];
          current := q;
        } else {
          break;
        }
      }
      NextDivisor(current, divisor);
      divisor := divisor + 1;
    }
    // The loop only stops once `current` is 1: a larger `current` below `divisor` would be
    // a divisor of itself that the invariant excludes. So the list is never empty here and
    // the fallback to `[polynomial]` after the loop is never taken.
    if current != 1 {
      DividesSelf(current);
      assert false;
    }
    ClMulOneRight(Product(factors));
    assert factors != [];
    IrreducibleAlone(factors);
  }

  /** A product of irreducible polynomials is nonzero, and of degree at least 1 when there
   *  is at least one factor. */
  lemma {:induction false} ProductDegree(fs: seq<nat>)
    requires forall i | 0 <= i < |fs| :: fs[i] >= 2
    ensures Product(fs) > 0
    ensures |fs| >= 1 ==> Degree(Product(fs)) >= 1
  {
    if |fs| > 0 {
      var init := fs[..|fs| - 1];
      ProductDegree(init);
      PositiveDegree(fs[|fs| - 1]);
      ClMulDegree(Product(init), fs[|fs| - 1]);
    }
  }

  /** A product of two or more irreducible factors is reducible, and so is the empty
   *  product 1: an irreducible polynomial is its own only factorisation. */
  lemma {:induction false} IrreducibleAlone(fs: seq<nat>)
    requires forall i | 0 <= i < |fs| :: Irreducible(fs[i])
    ensures Irreducible(Product(fs)) ==> fs == [Product(fs)]
  {
    if |fs| == 1 {
      assert fs[..0] == [];
      ClMulOneLeft(fs[0]);
    } else if |fs| >= 2 {
      var init, f, p := fs[..|fs| - 1], fs[|fs| - 1], Product(fs);
      assert forall i | 0 <= i < |init| :: init[i] == fs[i];
      ProductDegree(init);
      ClMulDegree(Product(init), f);
      DividesSelf(f);
      DividesProduct(f, f, Product(init));
      DegreeBounds(f);
      DegreeBounds(p);
      Pow2Monotone(Degree(f) + 1, Degree(p));
      assert 2 <= f < p && Divides(f, p);
    }
  }

  /** Dividing `current` by a divisor found in it keeps the product, the sorted order and the
   *  irreducibility of the factors, and leaves smaller divisors out of the quotient. */
  lemma {:induction false} FactorStep(factors: seq<nat>, current: nat, divisor: nat, polynomial: nat)
    requires current > 1 && divisor >= 2 && Degree(divisor) >= 1
    requires Divides(divisor, current)
    requires ClMul(Product(factors), current) == polynomial
    requires forall e: nat | 2 <= e < divisor :: !Divides(e, current)
    requires forall i | 0 <= i < |factors| :: Irreducible(factors[i]) && factors[i] <= divisor
    requires forall i, j | 0 <= i < j < |factors| :: factors[i] <= factors[j]
    ensures var q := Quot(current, divisor);
            var fs := factors + [divisor];
            q >= 1 && q < current &&
            ClMul(Product(fs), q) == polynomial &&
            (forall e: nat | 2 <= e < divisor :: !Divides(e, q)) &&
            (forall i | 0 <= i < |fs| :: Irreducible(fs[i]) && fs[i] <= divisor) &&
            (forall i, j | 0 <= i < j < |fs| :: fs[i] <= fs[j])
  {
    var q := Quot(current, divisor);
    var fs := factors + [divisor];
    G.DivisionLaw(current, divisor);
    XorZero(ClMul(q, divisor));
    assert ClMul(q, divisor) == current;
    assert q != 0 by {
      if q == 0 {
        ClMulZeroLeft(divisor);
      }
    }
    G.QuotSmaller(current, divisor);
    assert fs[..|fs| - 1] == factors;
    ClMulAssoc(Product(factors), divisor, q);
    ClMulComm(divisor, q);
    forall e: nat | 2 <= e < divisor
      ensures !Divides(e, q)
    {
      if Divides(e, q) {
        DividesQuotient(e, q, divisor);
      }
    }
    assert Irreducible(divisor) by {
      forall e: nat | 2 <= e < divisor
        ensures !Divides(e, divisor)
      {
        if Divides(e, divisor) {
          DividesTrans(e, divisor, current);
        }
      }
    }
  }

  /** After a divisor is exhausted, either nothing is left or what is left exceeds it:
   *  a remainder between 2 and the divisor would divide itself. */
  lemma {:induction false} NextDivisor(current: nat, divisor: nat)
    requires current >= 1 && divisor >= 2
    requires current == 1 || !Divides(divisor, current)
    requires forall e: nat | 2 <= e < divisor :: !Divides(e, current)
    ensures current == 1 || divisor + 1 <= current
    ensures forall e: nat | 2 <= e < divisor + 1 :: !Divides(e, current)
  {
    if current == 1 {
      forall e: nat | 2 <= e < divisor + 1
        ensures !Divides(e, 1)
      {
        PositiveDegree(e);
      }
    } else if current <= divisor {
      DividesSelf(current);
    }
  }
}
