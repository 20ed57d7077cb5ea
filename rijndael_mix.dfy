/** The coefficient matrices of Rijndael's MixColumns and InvMixColumns (FIPS 197, sections
 *  5.1.3 and 5.3.3) and the fact that makes one undo the other: their exact product over
 *  GF(2)[x] is the identity. All the products involved have degree below 8, so no reduction
 *  by the field polynomial is needed, and the fact holds for every modulus. */
module RijndaelMix {
  import opened Gf2Poly
  import G = Gf256Service

  /** The rows of the MixColumns matrix, circulant with first row 02, 03, 01, 01. */
  const MixRows: seq<seq<G.Byte>> := [[2, 3, 1, 1], [1, 2, 3, 1], [1, 1, 2, 3], [3, 1, 1, 2]]

  /** The rows of the InvMixColumns matrix, circulant with first row 0e, 0b, 0d, 09. */
  const InvMixRows: seq<seq<G.Byte>> :=
    [[0x0e, 0x0b, 0x0d, 0x09], [0x09, 0x0e, 0x0b, 0x0d], [0x0d, 0x09, 0x0e, 0x0b], [0x0b, 0x0d, 0x09, 0x0e]]

  /** The rows of the identity matrix. */
  const Units: seq<seq<nat>> := [[1, 0, 0, 0], [0, 1, 0, 0], [0, 0, 1, 0], [0, 0, 0, 1]]

  /** The exact polynomial sum of four products, before any reduction. */
  function Dot(k: seq<nat>, v: seq<nat>): nat
    requires |k| == 4 && |v| == 4
  {
    Xor(Xor(Xor(ClMul(k[0], v[0]), ClMul(k[1], v[1])), ClMul(k[2], v[2])), ClMul(k[3], v[3]))
  }

  function Scale(a: nat, k: seq<nat>): (r: seq<nat>)
    requires |k| == 4
    ensures |r| == 4
  {
    [ClMul(a, k[0]), ClMul(a, k[1]), ClMul(a, k[2]), ClMul(a, k[3])]
  }

  function AddVec(k: seq<nat>, l: seq<nat>): (r: seq<nat>)
    requires |k| == 4 && |l| == 4
    ensures |r| == 4
  {
    [Xor(k[0], l[0]), Xor(k[1], l[1]), Xor(k[2], l[2]), Xor(k[3], l[3])]
  }

  /** A multiple of a sum of products is the sum with scaled coefficients. */
  lemma {:induction false} ScaleDot(a: nat, k: seq<nat>, c: seq<nat>)
    requires |k| == 4 && |c| == 4
    ensures ClMul(a, Dot(k, c)) == Dot(Scale(a, k), c)
  {
    var x0, x1, x2, x3 := ClMul(k[0], c[0]), ClMul(k[1], c[1]), ClMul(k[2], c[2]), ClMul(k[3], c[3]);
    ClMulDistRight(Xor(Xor(x0, x1), x2), x3, a);
    ClMulDistRight(Xor(x0, x1), x2, a);
    ClMulDistRight(x0, x1, a);
    ClMulAssoc(a, k[0], c[0]);
    ClMulAssoc(a, k[1], c[1]);
    ClMulAssoc(a, k[2], c[2]);
    ClMulAssoc(a, k[3], c[3]);
  }

  /** Two sums of products over the same column add coefficient by coefficient. */
  lemma {:induction false} AddDots(k: seq<nat>, l: seq<nat>, c: seq<nat>)
    requires |k| == 4 && |l| == 4 && |c| == 4
    ensures Xor(Dot(k, c), Dot(l, c)) == Dot(AddVec(k, l), c)
  {
    var a0, a1, a2, a3 := ClMul(k[0], c[0]), ClMul(k[1], c[1]), ClMul(k[2], c[2]), ClMul(k[3], c[3]);
    var b0, b1, b2, b3 := ClMul(l[0], c[0]), ClMul(l[1], c[1]), ClMul(l[2], c[2]), ClMul(l[3], c[3]);
    XorShuffle(Xor(Xor(a0, a1), a2), a3, Xor(Xor(b0, b1), b2), b3);
    XorShuffle(Xor(a0, a1), a2, Xor(b0, b1), b2);
    XorShuffle(a0, a1, b0, b1);
    ClMulDistLeft(k[0], l[0], c[0]);
    ClMulDistLeft(k[1], l[1], c[1]);
    ClMulDistLeft(k[2], l[2], c[2]);
    ClMulDistLeft(k[3], l[3], c[3]);
  }

  /** Applying the row `ik` to the four sums `m0 * c` ... `m3 * c` is applying one combined
   *  row to `c`: the associativity of the matrix product. */
  lemma {:induction false} DotOfDots(ik: seq<nat>, m0: seq<nat>, m1: seq<nat>, m2: seq<nat>, m3: seq<nat>, c: seq<nat>)
    requires |ik| == 4 && |m0| == 4 && |m1| == 4 && |m2| == 4 && |m3| == 4 && |c| == 4
    ensures Dot(ik, [Dot(m0, c), Dot(m1, c), Dot(m2, c), Dot(m3, c)]) ==
            Dot(AddVec(AddVec(AddVec(Scale(ik[0], m0), Scale(ik[1], m1)), Scale(ik[2], m2)), Scale(ik[3], m3)), c)
  {
    ScaleDot(ik[0], m0, c);
    ScaleDot(ik[1], m1, c);
    ScaleDot(ik[2], m2, c);
    ScaleDot(ik[3], m3, c);
    AddDots(Scale(ik[0], m0), Scale(ik[1], m1), c);
    AddDots(AddVec(Scale(ik[0], m0), Scale(ik[1], m1)), Scale(ik[2], m2), c);
    AddDots(AddVec(AddVec(Scale(ik[0], m0), Scale(ik[1], m1)), Scale(ik[2], m2)), Scale(ik[3], m3), c);
  }

  lemma {:induction false} SmallProducts(a: nat)
    ensures ClMul(a, 1) == a && ClMul(a, 2) == 2 * a && ClMul(a, 3) == Xor(a, 2 * a)
  {
    ClMulOneRight(a);
    ClMulDoubleRight(a, 1);
    ClMulOneRight(2 * a);
  }

  /** The row `ik` times the MixColumns matrix, computed exactly. */
  function TimesMixRows(ik: seq<nat>): (r: seq<nat>)
    requires |ik| == 4
    ensures |r| == 4
  {
    AddVec(AddVec(AddVec(Scale(ik[0], MixRows[0]), Scale(ik[1], MixRows[1])), Scale(ik[2], MixRows[2])),
           Scale(ik[3], MixRows[3]))
  }

  /** The product of a row with the MixColumns matrix, with the multiplications by 1, 2 and 3
   *  carried out. */
  lemma {:induction false} MixRowsProduct(a: nat, b: nat, c: nat, d: nat)
    ensures TimesMixRows([a, b, c, d]) ==
      [Xor(Xor(Xor(2 * a, b), c), Xor(d, 2 * d)),
       Xor(Xor(Xor(Xor(a, 2 * a), 2 * b), c), d),
       Xor(Xor(Xor(a, Xor(b, 2 * b)), 2 * c), d),
       Xor(Xor(Xor(a, b), Xor(c, 2 * c)), 2 * d)]
  {
    SmallProducts(a);
    SmallProducts(b);
    SmallProducts(c);
    SmallProducts(d);
  }

  // The sums below are exclusive ors of constants below 32. Each is evaluated bit by bit with
  // `XorStep`, lowest bit last: the first step adds the top bits to Xor(0, 0) = 0.

  lemma {:induction false} Xor4And13(a: nat, b: nat)
    requires a == 4 && b == 13
    ensures Xor(a, b) == 9
  {
    assert Xor(0, 0) == 0; XorStep(0, 0, 0, 1, 1, 0); XorStep(0, 1, 1, 1, 0, 1);
    XorStep(1, 3, 0, 0, 0, 2); XorStep(2, 6, 0, 1, 1, 4);
  }

  lemma {:induction false} Xor4And18(a: nat, b: nat)
    requires a == 4 && b == 18
    ensures Xor(a, b) == 22
  {
    assert Xor(0, 0) == 0; XorStep(0, 0, 0, 1, 1, 0); XorStep(0, 1, 0, 0, 0, 1);
    XorStep(0, 2, 1, 0, 1, 2); XorStep(1, 4, 0, 1, 1, 5); XorStep(2, 9, 0, 0, 0, 11);
  }

  lemma {:induction false} Xor5And14(a: nat, b: nat)
    requires a == 5 && b == 14
    ensures Xor(a, b) == 11
  {
    assert Xor(0, 0) == 0; XorStep(0, 0, 0, 1, 1, 0); XorStep(0, 1, 1, 1, 0, 1);
    XorStep(1, 3, 0, 1, 1, 2); XorStep(2, 7, 1, 0, 1, 5);
  }

  lemma {:induction false} Xor5And23(a: nat, b: nat)
    requires a == 5 && b == 23
    ensures Xor(a, b) == 18
  {
    assert Xor(0, 0) == 0; XorStep(0, 0, 0, 1, 1, 0); XorStep(0, 1, 0, 0, 0, 1);
    XorStep(0, 2, 1, 1, 0, 2); XorStep(1, 5, 0, 1, 1, 4); XorStep(2, 11, 1, 1, 0, 9);
  }

  lemma {:induction false} Xor6And27(a: nat, b: nat)
    requires a == 6 && b == 27
    ensures Xor(a, b) == 29
  {
    assert Xor(0, 0) == 0; XorStep(0, 0, 0, 1, 1, 0); XorStep(0, 1, 0, 1, 1, 1);
    XorStep(0, 3, 1, 0, 1, 3); XorStep(1, 6, 1, 1, 0, 7); XorStep(3, 13, 0, 1, 1, 14);
  }

  lemma {:induction false} Xor7And9(a: nat, b: nat)
    requires a == 7 && b == 9
    ensures Xor(a, b) == 14
  {
    assert Xor(0, 0) == 0; XorStep(0, 0, 0, 1, 1, 0); XorStep(0, 1, 1, 0, 1, 1);
    XorStep(1, 2, 1, 0, 1, 3); XorStep(3, 4, 1, 1, 0, 7);
  }

  lemma {:induction false} Xor7And11(a: nat, b: nat)
    requires a == 7 && b == 11
    ensures Xor(a, b) == 12
  {
    assert Xor(0, 0) == 0; XorStep(0, 0, 0, 1, 1, 0); XorStep(0, 1, 1, 0, 1, 1);
    XorStep(1, 2, 1, 1, 0, 3); XorStep(3, 5, 1, 1, 0, 6);
  }

  lemma {:induction false} Xor7And29(a: nat, b: nat)
    requires a == 7 && b == 29
    ensures Xor(a, b) == 26
  {
    assert Xor(0, 0) == 0; XorStep(0, 0, 0, 1, 1, 0); XorStep(0, 1, 0, 1, 1, 1);
    XorStep(0, 3, 1, 1, 0, 3); XorStep(1, 7, 1, 0, 1, 6); XorStep(3, 14, 1, 1, 0, 13);
  }

  lemma {:induction false} Xor9And9(a: nat, b: nat)
    requires a == 9 && b == 9
    ensures Xor(a, b) == 0
  {
    assert Xor(0, 0) == 0; XorStep(0, 0, 1, 1, 0, 0); XorStep(1, 1, 0, 0, 0, 0);
    XorStep(2, 2, 0, 0, 0, 0); XorStep(4, 4, 1, 1, 0, 0);
  }

  lemma {:induction false} Xor9And14(a: nat, b: nat)
    requires a == 9 && b == 14
    ensures Xor(a, b) == 7
  {
    assert Xor(0, 0) == 0; XorStep(0, 0, 1, 1, 0, 0); XorStep(1, 1, 0, 1, 1, 0);
    XorStep(2, 3, 0, 1, 1, 1); XorStep(4, 7, 1, 0, 1, 3);
  }

  lemma {:induction false} Xor9And18(a: nat, b: nat)
    requires a == 9 && b == 18
    ensures Xor(a, b) == 27
  {
    assert Xor(0, 0) == 0; XorStep(0, 0, 0, 1, 1, 0); XorStep(0, 1, 1, 0, 1, 1);
    XorStep(1, 2, 0, 0, 0, 3); XorStep(2, 4, 0, 1, 1, 6); XorStep(4, 9, 1, 0, 1, 13);
  }

  lemma {:induction false} Xor10And11(a: nat, b: nat)
    requires a == 10 && b == 11
    ensures Xor(a, b) == 1
  {
    assert Xor(0, 0) == 0; XorStep(0, 0, 1, 1, 0, 0); XorStep(1, 1, 0, 0, 0, 0);
    XorStep(2, 2, 1, 1, 0, 0); XorStep(5, 5, 0, 1, 1, 0);
  }

  lemma {:induction false} Xor11And11(a: nat, b: nat)
    requires a == 11 && b == 11
    ensures Xor(a, b) == 0
  {
    assert Xor(0, 0) == 0; XorStep(0, 0, 1, 1, 0, 0); XorStep(1, 1, 0, 0, 0, 0);
    XorStep(2, 2, 1, 1, 0, 0); XorStep(5, 5, 1, 1, 0, 0);
  }

  lemma {:induction false} Xor11And13(a: nat, b: nat)
    requires a == 11 && b == 13
    ensures Xor(a, b) == 6
  {
    assert Xor(0, 0) == 0; XorStep(0, 0, 1, 1, 0, 0); XorStep(1, 1, 0, 1, 1, 0);
    XorStep(2, 3, 1, 0, 1, 1); XorStep(5, 6, 1, 1, 0, 3);
  }

  lemma {:induction false} Xor11And22(a: nat, b: nat)
    requires a == 11 && b == 22
    ensures Xor(a, b) == 29
  {
    assert Xor(0, 0) == 0; XorStep(0, 0, 0, 1, 1, 0); XorStep(0, 1, 1, 0, 1, 1);
    XorStep(1, 2, 0, 1, 1, 3); XorStep(2, 5, 1, 1, 0, 7); XorStep(5, 11, 1, 0, 1, 14);
  }

  lemma {:induction false} Xor11And23(a: nat, b: nat)
    requires a == 11 && b == 23
    ensures Xor(a, b) == 28
  {
    assert Xor(0, 0) == 0; XorStep(0, 0, 0, 1, 1, 0); XorStep(0, 1, 1, 0, 1, 1);
    XorStep(1, 2, 0, 1, 1, 3); XorStep(2, 5, 1, 1, 0, 7); XorStep(5, 11, 1, 1, 0, 14);
  }

  lemma {:induction false} Xor12And13(a: nat, b: nat)
    requires a == 12 && b == 13
    ensures Xor(a, b) == 1
  {
    assert Xor(0, 0) == 0; XorStep(0, 0, 1, 1, 0, 0); XorStep(1, 1, 1, 1, 0, 0);
    XorStep(3, 3, 0, 0, 0, 0); XorStep(6, 6, 0, 1, 1, 0);
  }

  lemma {:induction false} Xor13And9(a: nat, b: nat)
    requires a == 13 && b == 9
    ensures Xor(a, b) == 4
  {
    assert Xor(0, 0) == 0; XorStep(0, 0, 1, 1, 0, 0); XorStep(1, 1, 1, 0, 1, 0);
    XorStep(3, 2, 0, 0, 0, 1); XorStep(6, 4, 1, 1, 0, 2);
  }

  lemma {:induction false} Xor13And13(a: nat, b: nat)
    requires a == 13 && b == 13
    ensures Xor(a, b) == 0
  {
    assert Xor(0, 0) == 0; XorStep(0, 0, 1, 1, 0, 0); XorStep(1, 1, 1, 1, 0, 0);
    XorStep(3, 3, 0, 0, 0, 0); XorStep(6, 6, 1, 1, 0, 0);
  }

  lemma {:induction false} Xor13And26(a: nat, b: nat)
    requires a == 13 && b == 26
    ensures Xor(a, b) == 23
  {
    assert Xor(0, 0) == 0; XorStep(0, 0, 0, 1, 1, 0); XorStep(0, 1, 1, 1, 0, 1);
    XorStep(1, 3, 1, 0, 1, 2); XorStep(3, 6, 0, 1, 1, 5); XorStep(6, 13, 1, 0, 1, 11);
  }

  lemma {:induction false} Xor13And27(a: nat, b: nat)
    requires a == 13 && b == 27
    ensures Xor(a, b) == 22
  {
    assert Xor(0, 0) == 0; XorStep(0, 0, 0, 1, 1, 0); XorStep(0, 1, 1, 1, 0, 1);
    XorStep(1, 3, 1, 0, 1, 2); XorStep(3, 6, 0, 1, 1, 5); XorStep(6, 13, 1, 1, 0, 11);
  }

  lemma {:induction false} Xor14And11(a: nat, b: nat)
    requires a == 14 && b == 11
    ensures Xor(a, b) == 5
  {
    assert Xor(0, 0) == 0; XorStep(0, 0, 1, 1, 0, 0); XorStep(1, 1, 1, 0, 1, 0);
    XorStep(3, 2, 1, 1, 0, 1); XorStep(7, 5, 0, 1, 1, 2);
  }

  lemma {:induction false} Xor14And14(a: nat, b: nat)
    requires a == 14 && b == 14
    ensures Xor(a, b) == 0
  {
    assert Xor(0, 0) == 0; XorStep(0, 0, 1, 1, 0, 0); XorStep(1, 1, 1, 1, 0, 0);
    XorStep(3, 3, 1, 1, 0, 0); XorStep(7, 7, 0, 0, 0, 0);
  }

  lemma {:induction false} Xor14And28(a: nat, b: nat)
    requires a == 14 && b == 28
    ensures Xor(a, b) == 18
  {
    assert Xor(0, 0) == 0; XorStep(0, 0, 0, 1, 1, 0); XorStep(0, 1, 1, 1, 0, 1);
    XorStep(1, 3, 1, 1, 0, 2); XorStep(3, 7, 1, 0, 1, 4); XorStep(7, 14, 0, 0, 0, 9);
  }

  lemma {:induction false} Xor14And29(a: nat, b: nat)
    requires a == 14 && b == 29
    ensures Xor(a, b) == 19
  {
    assert Xor(0, 0) == 0; XorStep(0, 0, 0, 1, 1, 0); XorStep(0, 1, 1, 1, 0, 1);
    XorStep(1, 3, 1, 1, 0, 2); XorStep(3, 7, 1, 0, 1, 4); XorStep(7, 14, 0, 1, 1, 9);
  }

  lemma {:induction false} Xor18And14(a: nat, b: nat)
    requires a == 18 && b == 14
    ensures Xor(a, b) == 28
  {
    assert Xor(0, 0) == 0; XorStep(0, 0, 1, 0, 1, 0); XorStep(1, 0, 0, 1, 1, 1);
    XorStep(2, 1, 0, 1, 1, 3); XorStep(4, 3, 1, 1, 0, 7); XorStep(9, 7, 0, 0, 0, 14);
  }

  lemma {:induction false} Xor18And18(a: nat, b: nat)
    requires a == 18 && b == 18
    ensures Xor(a, b) == 0
  {
    assert Xor(0, 0) == 0; XorStep(0, 0, 1, 1, 0, 0); XorStep(1, 1, 0, 0, 0, 0);
    XorStep(2, 2, 0, 0, 0, 0); XorStep(4, 4, 1, 1, 0, 0); XorStep(9, 9, 0, 0, 0, 0);
  }

  lemma {:induction false} Xor18And22(a: nat, b: nat)
    requires a == 18 && b == 22
    ensures Xor(a, b) == 4
  {
    assert Xor(0, 0) == 0; XorStep(0, 0, 1, 1, 0, 0); XorStep(1, 1, 0, 0, 0, 0);
    XorStep(2, 2, 0, 1, 1, 0); XorStep(4, 5, 1, 1, 0, 1); XorStep(9, 11, 0, 0, 0, 2);
  }

  lemma {:induction false} Xor19And14(a: nat, b: nat)
    requires a == 19 && b == 14
    ensures Xor(a, b) == 29
  {
    assert Xor(0, 0) == 0; XorStep(0, 0, 1, 0, 1, 0); XorStep(1, 0, 0, 1, 1, 1);
    XorStep(2, 1, 0, 1, 1, 3); XorStep(4, 3, 1, 1, 0, 7); XorStep(9, 7, 1, 0, 1, 14);
  }

  lemma {:induction false} Xor19And26(a: nat, b: nat)
    requires a == 19 && b == 26
    ensures Xor(a, b) == 9
  {
    assert Xor(0, 0) == 0; XorStep(0, 0, 1, 1, 0, 0); XorStep(1, 1, 0, 1, 1, 0);
    XorStep(2, 3, 0, 0, 0, 1); XorStep(4, 6, 1, 1, 0, 2); XorStep(9, 13, 1, 0, 1, 4);
  }

  lemma {:induction false} Xor22And13(a: nat, b: nat)
    requires a == 22 && b == 13
    ensures Xor(a, b) == 27
  {
    assert Xor(0, 0) == 0; XorStep(0, 0, 1, 0, 1, 0); XorStep(1, 0, 0, 1, 1, 1);
    XorStep(2, 1, 1, 1, 0, 3); XorStep(5, 3, 1, 0, 1, 6); XorStep(11, 6, 0, 1, 1, 13);
  }

  lemma {:induction false} Xor22And22(a: nat, b: nat)
    requires a == 22 && b == 22
    ensures Xor(a, b) == 0
  {
    assert Xor(0, 0) == 0; XorStep(0, 0, 1, 1, 0, 0); XorStep(1, 1, 0, 0, 0, 0);
    XorStep(2, 2, 1, 1, 0, 0); XorStep(5, 5, 1, 1, 0, 0); XorStep(11, 11, 0, 0, 0, 0);
  }

  lemma {:induction false} Xor22And28(a: nat, b: nat)
    requires a == 22 && b == 28
    ensures Xor(a, b) == 10
  {
    assert Xor(0, 0) == 0; XorStep(0, 0, 1, 1, 0, 0); XorStep(1, 1, 0, 1, 1, 0);
    XorStep(2, 3, 1, 1, 0, 1); XorStep(5, 7, 1, 0, 1, 2); XorStep(11, 14, 0, 0, 0, 5);
  }

  lemma {:induction false} Xor23And13(a: nat, b: nat)
    requires a == 23 && b == 13
    ensures Xor(a, b) == 26
  {
    assert Xor(0, 0) == 0; XorStep(0, 0, 1, 0, 1, 0); XorStep(1, 0, 0, 1, 1, 1);
    XorStep(2, 1, 1, 1, 0, 3); XorStep(5, 3, 1, 0, 1, 6); XorStep(11, 6, 1, 1, 0, 13);
  }

  lemma {:induction false} Xor23And18(a: nat, b: nat)
    requires a == 23 && b == 18
    ensures Xor(a, b) == 5
  {
    assert Xor(0, 0) == 0; XorStep(0, 0, 1, 1, 0, 0); XorStep(1, 1, 0, 0, 0, 0);
    XorStep(2, 2, 1, 0, 1, 0); XorStep(5, 4, 1, 1, 0, 1); XorStep(11, 9, 1, 0, 1, 2);
  }

  lemma {:induction false} Xor23And23(a: nat, b: nat)
    requires a == 23 && b == 23
    ensures Xor(a, b) == 0
  {
    assert Xor(0, 0) == 0; XorStep(0, 0, 1, 1, 0, 0); XorStep(1, 1, 0, 0, 0, 0);
    XorStep(2, 2, 1, 1, 0, 0); XorStep(5, 5, 1, 1, 0, 0); XorStep(11, 11, 1, 1, 0, 0);
  }

  lemma {:induction false} Xor26And9(a: nat, b: nat)
    requires a == 26 && b == 9
    ensures Xor(a, b) == 19
  {
    assert Xor(0, 0) == 0; XorStep(0, 0, 1, 0, 1, 0); XorStep(1, 0, 1, 1, 0, 1);
    XorStep(3, 1, 0, 0, 0, 2); XorStep(6, 2, 1, 0, 1, 4); XorStep(13, 4, 0, 1, 1, 9);
  }

  lemma {:induction false} Xor26And26(a: nat, b: nat)
    requires a == 26 && b == 26
    ensures Xor(a, b) == 0
  {
    assert Xor(0, 0) == 0; XorStep(0, 0, 1, 1, 0, 0); XorStep(1, 1, 1, 1, 0, 0);
    XorStep(3, 3, 0, 0, 0, 0); XorStep(6, 6, 1, 1, 0, 0); XorStep(13, 13, 0, 0, 0, 0);
  }

  lemma {:induction false} Xor26And27(a: nat, b: nat)
    requires a == 26 && b == 27
    ensures Xor(a, b) == 1
  {
    assert Xor(0, 0) == 0; XorStep(0, 0, 1, 1, 0, 0); XorStep(1, 1, 1, 1, 0, 0);
    XorStep(3, 3, 0, 0, 0, 0); XorStep(6, 6, 1, 1, 0, 0); XorStep(13, 13, 0, 1, 1, 0);
  }

  lemma {:induction false} Xor27And9(a: nat, b: nat)
    requires a == 27 && b == 9
    ensures Xor(a, b) == 18
  {
    assert Xor(0, 0) == 0; XorStep(0, 0, 1, 0, 1, 0); XorStep(1, 0, 1, 1, 0, 1);
    XorStep(3, 1, 0, 0, 0, 2); XorStep(6, 2, 1, 0, 1, 4); XorStep(13, 4, 1, 1, 0, 9);
  }

  lemma {:induction false} Xor27And22(a: nat, b: nat)
    requires a == 27 && b == 22
    ensures Xor(a, b) == 13
  {
    assert Xor(0, 0) == 0; XorStep(0, 0, 1, 1, 0, 0); XorStep(1, 1, 1, 0, 1, 0);
    XorStep(3, 2, 0, 1, 1, 1); XorStep(6, 5, 1, 1, 0, 3); XorStep(13, 11, 1, 0, 1, 6);
  }

  lemma {:induction false} Xor27And28(a: nat, b: nat)
    requires a == 27 && b == 28
    ensures Xor(a, b) == 7
  {
    assert Xor(0, 0) == 0; XorStep(0, 0, 1, 1, 0, 0); XorStep(1, 1, 1, 1, 0, 0);
    XorStep(3, 3, 0, 1, 1, 0); XorStep(6, 7, 1, 0, 1, 1); XorStep(13, 14, 1, 0, 1, 3);
  }

  lemma {:induction false} Xor28And11(a: nat, b: nat)
    requires a == 28 && b == 11
    ensures Xor(a, b) == 23
  {
    assert Xor(0, 0) == 0; XorStep(0, 0, 1, 0, 1, 0); XorStep(1, 0, 1, 1, 0, 1);
    XorStep(3, 1, 1, 0, 1, 2); XorStep(7, 2, 0, 1, 1, 5); XorStep(14, 5, 0, 1, 1, 11);
  }

  lemma {:induction false} Xor28And18(a: nat, b: nat)
    requires a == 28 && b == 18
    ensures Xor(a, b) == 14
  {
    assert Xor(0, 0) == 0; XorStep(0, 0, 1, 1, 0, 0); XorStep(1, 1, 1, 0, 1, 0);
    XorStep(3, 2, 1, 0, 1, 1); XorStep(7, 4, 0, 1, 1, 3); XorStep(14, 9, 0, 0, 0, 7);
  }

  lemma {:induction false} Xor29And26(a: nat, b: nat)
    requires a == 29 && b == 26
    ensures Xor(a, b) == 7
  {
    assert Xor(0, 0) == 0; XorStep(0, 0, 1, 1, 0, 0); XorStep(1, 1, 1, 1, 0, 0);
    XorStep(3, 3, 1, 0, 1, 0); XorStep(7, 6, 0, 1, 1, 1); XorStep(14, 13, 1, 0, 1, 3);
  }

  lemma {:induction false} Xor29And28(a: nat, b: nat)
    requires a == 29 && b == 28
    ensures Xor(a, b) == 1
  {
    assert Xor(0, 0) == 0; XorStep(0, 0, 1, 1, 0, 0); XorStep(1, 1, 1, 1, 0, 0);
    XorStep(3, 3, 1, 1, 0, 0); XorStep(7, 7, 0, 0, 0, 0); XorStep(14, 14, 1, 0, 1, 0);
  }

  lemma {:induction false} Xor29And29(a: nat, b: nat)
    requires a == 29 && b == 29
    ensures Xor(a, b) == 0
  {
    assert Xor(0, 0) == 0; XorStep(0, 0, 1, 1, 0, 0); XorStep(1, 1, 1, 1, 0, 0);
    XorStep(3, 3, 1, 1, 0, 0); XorStep(7, 7, 0, 0, 0, 0); XorStep(14, 14, 1, 1, 0, 0);
  }

  /** Row 0 of the InvMixColumns matrix times the MixColumns matrix is unit row 0. */
  lemma {:induction false} InverseRow0(a: nat, b: nat, c: nat, d: nat)
    requires a == 0x0e && b == 0x0b && c == 0x0d && d == 0x09
    ensures TimesMixRows([a, b, c, d]) == Units[0]
  {
    MixRowsProduct(a, b, c, d);
    Xor28And11(2 * a, b);
    Xor23And13(Xor(2 * a, b), c);
    Xor9And18(d, 2 * d);
    Xor26And27(Xor(Xor(2 * a, b), c), Xor(d, 2 * d));
    Xor14And28(a, 2 * a);
    Xor18And22(Xor(a, 2 * a), 2 * b);
    Xor4And13(Xor(Xor(a, 2 * a), 2 * b), c);
    Xor9And9(Xor(Xor(Xor(a, 2 * a), 2 * b), c), d);
    Xor11And22(b, 2 * b);
    Xor14And29(a, Xor(b, 2 * b));
    Xor19And26(Xor(a, Xor(b, 2 * b)), 2 * c);
    Xor9And9(Xor(Xor(a, Xor(b, 2 * b)), 2 * c), d);
    Xor14And11(a, b);
    Xor13And26(c, 2 * c);
    Xor5And23(Xor(a, b), Xor(c, 2 * c));
    Xor18And18(Xor(Xor(a, b), Xor(c, 2 * c)), 2 * d);
  }

  /** Row 1 of the InvMixColumns matrix times the MixColumns matrix is unit row 1. */
  lemma {:induction false} InverseRow1(a: nat, b: nat, c: nat, d: nat)
    requires a == 0x09 && b == 0x0e && c == 0x0b && d == 0x0d
    ensures TimesMixRows([a, b, c, d]) == Units[1]
  {
    MixRowsProduct(a, b, c, d);
    Xor18And14(2 * a, b);
    Xor28And11(Xor(2 * a, b), c);
    Xor13And26(d, 2 * d);
    Xor23And23(Xor(Xor(2 * a, b), c), Xor(d, 2 * d));
    Xor9And18(a, 2 * a);
    Xor27And28(Xor(a, 2 * a), 2 * b);
    Xor7And11(Xor(Xor(a, 2 * a), 2 * b), c);
    Xor12And13(Xor(Xor(Xor(a, 2 * a), 2 * b), c), d);
    Xor14And28(b, 2 * b);
    Xor9And18(a, Xor(b, 2 * b));
    Xor27And22(Xor(a, Xor(b, 2 * b)), 2 * c);
    Xor13And13(Xor(Xor(a, Xor(b, 2 * b)), 2 * c), d);
    Xor9And14(a, b);
    Xor11And22(c, 2 * c);
    Xor7And29(Xor(a, b), Xor(c, 2 * c));
    Xor26And26(Xor(Xor(a, b), Xor(c, 2 * c)), 2 * d);
  }

  /** Row 2 of the InvMixColumns matrix times the MixColumns matrix is unit row 2. */
  lemma {:induction false} InverseRow2(a: nat, b: nat, c: nat, d: nat)
    requires a == 0x0d && b == 0x09 && c == 0x0e && d == 0x0b
    ensures TimesMixRows([a, b, c, d]) == Units[2]
  {
    MixRowsProduct(a, b, c, d);
    Xor26And9(2 * a, b);
    Xor19And14(Xor(2 * a, b), c);
    Xor11And22(d, 2 * d);
    Xor29And29(Xor(Xor(2 * a, b), c), Xor(d, 2 * d));
    Xor13And26(a, 2 * a);
    Xor23And18(Xor(a, 2 * a), 2 * b);
    Xor5And14(Xor(Xor(a, 2 * a), 2 * b), c);
    Xor11And11(Xor(Xor(Xor(a, 2 * a), 2 * b), c), d);
    Xor9And18(b, 2 * b);
    Xor13And27(a, Xor(b, 2 * b));
    Xor22And28(Xor(a, Xor(b, 2 * b)), 2 * c);
    Xor10And11(Xor(Xor(a, Xor(b, 2 * b)), 2 * c), d);
    Xor13And9(a, b);
    Xor14And28(c, 2 * c);
    Xor4And18(Xor(a, b), Xor(c, 2 * c));
    Xor22And22(Xor(Xor(a, b), Xor(c, 2 * c)), 2 * d);
  }

  /** Row 3 of the InvMixColumns matrix times the MixColumns matrix is unit row 3. */
  lemma {:induction false} InverseRow3(a: nat, b: nat, c: nat, d: nat)
    requires a == 0x0b && b == 0x0d && c == 0x09 && d == 0x0e
    ensures TimesMixRows([a, b, c, d]) == Units[3]
  {
    MixRowsProduct(a, b, c, d);
    Xor22And13(2 * a, b);
    Xor27And9(Xor(2 * a, b), c);
    Xor14And28(d, 2 * d);
    Xor18And18(Xor(Xor(2 * a, b), c), Xor(d, 2 * d));
    Xor11And22(a, 2 * a);
    Xor29And26(Xor(a, 2 * a), 2 * b);
    Xor7And9(Xor(Xor(a, 2 * a), 2 * b), c);
    Xor14And14(Xor(Xor(Xor(a, 2 * a), 2 * b), c), d);
    Xor13And26(b, 2 * b);
    Xor11And23(a, Xor(b, 2 * b));
    Xor28And18(Xor(a, Xor(b, 2 * b)), 2 * c);
    Xor14And14(Xor(Xor(a, Xor(b, 2 * b)), 2 * c), d);
    Xor11And13(a, b);
    Xor9And18(c, 2 * c);
    Xor6And27(Xor(a, b), Xor(c, 2 * c));
    Xor29And28(Xor(Xor(a, b), Xor(c, 2 * c)), 2 * d);
  }

  /** Each row of the InvMixColumns matrix times the MixColumns matrix is the matching unit
   *  row. */
  lemma {:induction false} InverseRow(r: nat)
    requires r < 4
    ensures TimesMixRows(InvMixRows[r]) == Units[r]
  {
    var k := InvMixRows[r];
    assert k == [k[0], k[1], k[2], k[3]];
    if r == 0 {
      InverseRow0(k[0], k[1], k[2], k[3]);
    } else if r == 1 {
      InverseRow1(k[0], k[1], k[2], k[3]);
    } else if r == 2 {
      InverseRow2(k[0], k[1], k[2], k[3]);
    } else {
      InverseRow3(k[0], k[1], k[2], k[3]);
    }
  }

  /** A unit row picks one entry. */
  lemma {:induction false} DotUnit(c: seq<nat>, r: nat)
    requires |c| == 4 && r < 4
    ensures Dot(Units[r], c) == c[r]
  {
    ClMulOneLeft(c[0]);
    ClMulOneLeft(c[1]);
    ClMulOneLeft(c[2]);
    ClMulOneLeft(c[3]);
    ClMulZeroLeft(c[0]);
    ClMulZeroLeft(c[1]);
    ClMulZeroLeft(c[2]);
    ClMulZeroLeft(c[3]);
    XorZero(c[0]);
    XorZero(c[1]);
    XorZero(c[2]);
    XorZero(c[3]);
    XorZero(0);
  }

}
