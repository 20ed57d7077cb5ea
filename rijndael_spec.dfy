/** Rijndael as lab3/task3-rijndael-files/lib-src/Rijndael.java computes it, stated on values:
 *  the affine map and the S-box, the four state transforms and their inverses, the key
 *  words, and the whole cipher. The state is the 4 x Nb matrix of the code, held as its four
 *  rows; a block fills it column by column. Field arithmetic is that of Gf256Service under
 *  the cipher's byte modulus (the field polynomial x^8 + modulus). */
module RijndaelSpec {
  import opened Gf2Poly
  import opened RijndaelMix
  import G = Gf256Service
  import I = Integers

  type Byte = G.Byte

  /** A state: four rows of bytes. */
  type State = seq<seq<Byte>>

  predicate IsState(s: State, nb: nat)
  {
    |s| == 4 && forall r | 0 <= r < 4 :: |s[r]| == nb
  }

  // ---------------------------------------------------------------------------------------
  // The affine map of the S-box (FIPS 197, section 5.1.1)

  /** A byte as the bit vector the code shifts and masks. */
  function ToBits(b: Byte): bv8
  {
    b as bv8
  }

  function FromBits(x: bv8): Byte
  {
    x as int
  }

  /** A byte survives the trip to bits and back. */
  lemma {:induction false} FromToBits(b: Byte)
    ensures FromBits(ToBits(b)) == b
  {
    assert b % 256 == b;
  }

  /** Eight bits survive the trip to a byte and back. */
  lemma {:induction false} ToFromBits(x: bv8)
    ensures ToBits(FromBits(x)) == x
  {
  }

  /** The affine map as FIPS 197 writes it: the byte plus its rotations by 1 to 4, plus 0x63. */
  function AffineBits(x: bv8): bv8
  {
    x ^ x.RotateLeft(1) ^ x.RotateLeft(2) ^ x.RotateLeft(3) ^ x.RotateLeft(4) ^ 0x63
  }

  /** The inverse affine map: rotations by 1, 3 and 6, plus 0x05. */
  function InvAffineBits(y: bv8): bv8
  {
    y.RotateLeft(1) ^ y.RotateLeft(3) ^ y.RotateLeft(6) ^ 0x05
  }

  lemma {:induction false} AffineBitsInverse(x: bv8)
    ensures InvAffineBits(AffineBits(x)) == x && AffineBits(InvAffineBits(x)) == x
  {
  }

  function Affine(b: Byte): Byte
  {
    FromBits(AffineBits(ToBits(b)))
  }

  function InvAffine(b: Byte): Byte
  {
    FromBits(InvAffineBits(ToBits(b)))
  }

  /** The affine map is a bijection on bytes, and it sends 0 to 0x63. */
  lemma {:induction false} AffineInverse(b: Byte)
    ensures InvAffine(Affine(b)) == b && Affine(InvAffine(b)) == b
    ensures Affine(0) == 0x63 && InvAffine(0x63) == 0
  {
    FromToBits(b);
    FromToBits(0);
    AffineBitsInverse(ToBits(b));
    ToFromBits(AffineBits(ToBits(b)));
    ToFromBits(InvAffineBits(ToBits(b)));
    ToFromBits(0x63);
  }

  // ---------------------------------------------------------------------------------------
  // The S-box

  /** What the S-box build leaves in `box`: 0x63 at 0, and at every other x a byte whose
   *  inverse affine image is the inverse of x, i.e. the affine image of x's inverse. */
  ghost predicate IsSBox(box: seq<Byte>, modulus: Byte)
  {
    |box| == 256 && box[0] == 0x63 &&
    forall x: Byte | 1 <= x :: G.FieldMul(x, InvAffine(box[x]), modulus) == 1
  }

  /** No two bytes share an S-box entry, so the inverse table can undo every entry. */
  lemma {:induction false} SBoxInjective(box: seq<Byte>, modulus: Byte, x: Byte, y: Byte)
    requires IsSBox(box, modulus)
    ensures box[x] == box[y] ==> x == y
  {
    AffineInverse(0);
    if x != 0 && y != 0 {
      if box[x] == box[y] {
        G.InverseUnique(x, y, InvAffine(box[x]), modulus);
      }
    } else if x != 0 || y != 0 {
      var z := if x != 0 then x else y;
      G.FieldMulIdentity(z, modulus);
      assert G.FieldMul(z, InvAffine(box[z]), modulus) == 1;
      assert InvAffine(box[z]) != 0;
    }
  }

  // ---------------------------------------------------------------------------------------
  // The state transforms (FIPS 197, sections 5.1.1 to 5.1.4 and 5.3)

  /** `subBytes` and `invSubBytes`: every byte replaced by its entry in `box`. */
  function SubBytes(s: State, box: seq<Byte>): (r: State)
    requires |box| == 256
    ensures |r| == |s| && forall i | 0 <= i < |s| :: |r[i]| == |s[i]|
  {
    seq(|s|, i requires 0 <= i < |s| => seq(|s[i]|, j requires 0 <= j < |s[i]| => box[s[i][j]]))
  }

  /** Looking every byte up in a table and then in its inverse table changes nothing. */
  lemma {:induction false} SubBytesInverse(s: State, box: seq<Byte>, inv: seq<Byte>)
    requires |box| == 256 && |inv| == 256
    requires forall x: Byte :: inv[box[x]] == x
    ensures SubBytes(SubBytes(s, box), inv) == s
  {
    var t := SubBytes(SubBytes(s, box), inv);
    forall i | 0 <= i < |s|
      ensures t[i] == s[i]
    {
    }
  }

  /** `shiftRows`: row r is rotated left by r places. */
  function ShiftRows(s: State, nb: nat): (r: State)
    requires IsState(s, nb) && nb >= 4
    ensures IsState(r, nb)
  {
    seq(4, i requires 0 <= i < 4 => seq(nb, j requires 0 <= j < nb => s[i][(j + i) % nb]))
  }

  /** `invShiftRows`: row r is rotated right by r places. */
  function InvShiftRows(s: State, nb: nat): (r: State)
    requires IsState(s, nb) && nb >= 4
    ensures IsState(r, nb)
  {
    seq(4, i requires 0 <= i < 4 => seq(nb, j requires 0 <= j < nb => s[i][(j - i + nb) % nb]))
  }

  lemma {:induction false} RotateBack(j: nat, i: nat, nb: nat)
    requires j < nb && i < 4 <= nb
    ensures 0 <= (j - i + nb) % nb < nb && ((j - i + nb) % nb + i) % nb == j
  {
    var k := (j - i + nb) % nb;
    if j >= i {
      I.ModOfDecomposition(j - i + nb, nb, 1, j - i);
      I.ModOfDecomposition(k + i, nb, 0, j);
    } else {
      I.ModOfDecomposition(j - i + nb, nb, 0, j - i + nb);
      I.ModOfDecomposition(k + i, nb, 1, j);
    }
  }

  /** Rotating each row right by its index undoes the left rotation. */
  lemma {:induction false} ShiftRowsInverse(s: State, nb: nat)
    requires IsState(s, nb) && nb >= 4
    ensures InvShiftRows(ShiftRows(s, nb), nb) == s
  {
    var u := ShiftRows(s, nb);
    var t := InvShiftRows(u, nb);
    forall i | 0 <= i < 4
      ensures t[i] == s[i]
    {
      forall j | 0 <= j < nb
        ensures t[i][j] == s[i][j]
      {
        RotateBack(j, i, nb);
        var k := (j - i + nb) % nb;
        assert t[i][j] == u[i][k];
        assert u[i][k] == s[i][(k + i) % nb];
      }
    }
  }

  /** `addRoundKey`: the byte in row r, column c is added to byte `4c + r` of the round key,
   *  the key being read column by column. */
  function AddRoundKey(s: State, key: seq<Byte>, nb: nat): (r: State)
    requires IsState(s, nb) && |key| == 4 * nb
    ensures IsState(r, nb)
  {
    seq(4, i requires 0 <= i < 4 => seq(nb, j requires 0 <= j < nb => G.Add(s[i][j], key[j * 4 + i])))
  }

  /** Adding the same round key twice gives the state back. */
  lemma {:induction false} AddRoundKeyInvolution(s: State, key: seq<Byte>, nb: nat)
    requires IsState(s, nb) && |key| == 4 * nb
    ensures AddRoundKey(AddRoundKey(s, key, nb), key, nb) == s
  {
    var t := AddRoundKey(AddRoundKey(s, key, nb), key, nb);
    forall i | 0 <= i < 4
      ensures t[i] == s[i]
    {
      forall j | 0 <= j < nb
        ensures t[i][j] == s[i][j]
      {
        G.AddSelfInverse(s[i][j], key[j * 4 + i]);
      }
    }
  }

  // ---------------------------------------------------------------------------------------
  // MixColumns and its inverse (FIPS 197, sections 5.1.3 and 5.3.3)

  /** One product of a row: for the coefficient 1 the code takes the byte itself. */
  function Term(k: Byte, x: Byte, modulus: Byte): Byte
  {
    if k == 1 then x else G.FieldMul(k, x, modulus)
  }

  /** One output byte of `mixColumn`/`invMixColumn`: a coefficient row times the column,
   *  summed left to right. */
  function RowTimes(k: seq<Byte>, col: seq<Byte>, modulus: Byte): Byte
    requires |k| == 4 && |col| == 4
  {
    G.Add(G.Add(G.Add(Term(k[0], col[0], modulus), Term(k[1], col[1], modulus)),
                Term(k[2], col[2], modulus)),
          Term(k[3], col[3], modulus))
  }

  /** `mixColumn`: the column times the MixColumns matrix, row by row. */
  function MixColumn(col: seq<Byte>, modulus: Byte): (r: seq<Byte>)
    requires |col| == 4
    ensures |r| == 4
  {
    seq(4, i requires 0 <= i < 4 => RowTimes(MixRows[i], col, modulus))
  }

  /** `invMixColumn`: the column times the InvMixColumns matrix, row by row. */
  function InvMixColumn(col: seq<Byte>, modulus: Byte): (r: seq<Byte>)
    requires |col| == 4
    ensures |r| == 4
  {
    seq(4, i requires 0 <= i < 4 => RowTimes(InvMixRows[i], col, modulus))
  }

  /** `mixColumn` as its four rows, one output byte each. */
  lemma {:induction false} MixColumnRows(col: seq<Byte>, modulus: Byte)
    requires |col| == 4
    ensures MixColumn(col, modulus) == [RowTimes(MixRows[0], col, modulus), RowTimes(MixRows[1], col, modulus),
                                        RowTimes(MixRows[2], col, modulus), RowTimes(MixRows[3], col, modulus)]
  {
    var r := MixColumn(col, modulus);
    forall i | 0 <= i < 4
      ensures r[i] == RowTimes(MixRows[i], col, modulus)
    {
    }
  }

  /** `invMixColumn` as its four rows, one output byte each. */
  lemma {:induction false} InvMixColumnRows(col: seq<Byte>, modulus: Byte)
    requires |col| == 4
    ensures InvMixColumn(col, modulus) == [RowTimes(InvMixRows[0], col, modulus), RowTimes(InvMixRows[1], col, modulus),
                                           RowTimes(InvMixRows[2], col, modulus), RowTimes(InvMixRows[3], col, modulus)]
  {
    var r := InvMixColumn(col, modulus);
    forall i | 0 <= i < 4
      ensures r[i] == RowTimes(InvMixRows[i], col, modulus)
    {
    }
  }

  /** The four bytes of column c. */
  function Column(s: State, nb: nat, c: nat): (col: seq<Byte>)
    requires IsState(s, nb) && c < nb
    ensures |col| == 4
  {
    seq(4, i requires 0 <= i < 4 => s[i][c])
  }

  /** `mixColumns`: every column replaced by its mixed column. */
  function MixColumns(s: State, nb: nat, modulus: Byte): (r: State)
    requires IsState(s, nb)
    ensures IsState(r, nb)
  {
    seq(4, i requires 0 <= i < 4 =>
      seq(nb, j requires 0 <= j < nb => MixColumn(Column(s, nb, j), modulus)[i]))
  }

  /** `invMixColumns`: every column replaced by its inverse-mixed column. */
  function InvMixColumns(s: State, nb: nat, modulus: Byte): (r: State)
    requires IsState(s, nb)
    ensures IsState(r, nb)
  {
    seq(4, i requires 0 <= i < 4 =>
      seq(nb, j requires 0 <= j < nb => InvMixColumn(Column(s, nb, j), modulus)[i]))
  }

  /** A product of field elements is the remainder of the exact product; so is the byte
   *  itself, which the code uses for the coefficient 1. */
  lemma {:induction false} TermMod(k: Byte, x: Byte, modulus: Byte)
    ensures Term(k, x, modulus) == Mod(ClMul(k, x), G.FieldPoly(modulus))
  {
    if k == 1 {
      ClMulOneLeft(x);
      G.ByteDegree(x);
      ModSmall(x, G.FieldPoly(modulus));
    }
  }

  /** A row of the matrix product is the remainder of the exact sum of products. */
  lemma {:induction false} RowTimesMod(k: seq<Byte>, col: seq<Byte>, modulus: Byte)
    requires |k| == 4 && |col| == 4
    ensures RowTimes(k, col, modulus) == Mod(Dot(k, col), G.FieldPoly(modulus))
  {
    var p := G.FieldPoly(modulus);
    TermMod(k[0], col[0], modulus);
    TermMod(k[1], col[1], modulus);
    TermMod(k[2], col[2], modulus);
    TermMod(k[3], col[3], modulus);
    var a, b, c, d := ClMul(k[0], col[0]), ClMul(k[1], col[1]), ClMul(k[2], col[2]), ClMul(k[3], col[3]);
    ModLinear(a, b, p);
    ModLinear(Xor(a, b), c, p);
    ModLinear(Xor(Xor(a, b), c), d, p);
  }

  /** Reducing the entries of `v` first does not change the remainder of the sum. */
  lemma {:induction false} DotModRight(k: seq<nat>, v: seq<nat>, w: seq<nat>, p: nat)
    requires |k| == 4 && |v| == 4 && |w| == 4 && p != 0
    requires w[0] == Mod(v[0], p) && w[1] == Mod(v[1], p) && w[2] == Mod(v[2], p) && w[3] == Mod(v[3], p)
    ensures Mod(Dot(k, w), p) == Mod(Dot(k, v), p)
  {
    var a, b, c, d := ClMul(k[0], v[0]), ClMul(k[1], v[1]), ClMul(k[2], v[2]), ClMul(k[3], v[3]);
    var a', b', c', d' := ClMul(k[0], w[0]), ClMul(k[1], w[1]), ClMul(k[2], w[2]), ClMul(k[3], w[3]);
    ModMulRight(k[0], v[0], p);
    ModMulRight(k[1], v[1], p);
    ModMulRight(k[2], v[2], p);
    ModMulRight(k[3], v[3], p);
    ModLinear(a, b, p);
    ModLinear(Xor(a, b), c, p);
    ModLinear(Xor(Xor(a, b), c), d, p);
    ModLinear(a', b', p);
    ModLinear(Xor(a', b'), c', p);
    ModLinear(Xor(Xor(a', b'), c'), d', p);
  }

  /** Byte `j` of the mixed column is the remainder of the exact sum of products of row `j`. */
  lemma {:induction false} MixedExact(col: seq<Byte>, modulus: Byte, j: nat)
    requires |col| == 4 && j < 4
    ensures MixColumn(col, modulus)[j] == Mod(Dot(MixRows[j], col), G.FieldPoly(modulus))
  {
    RowTimesMod(MixRows[j], col, modulus);
  }

  /** Any row applied to the mixed column is the remainder of its exact product with the
   *  MixColumns matrix, applied to the column. */
  lemma {:induction false} RowOfMixed(ik: seq<Byte>, col: seq<Byte>, modulus: Byte)
    requires |ik| == 4 && |col| == 4
    ensures RowTimes(ik, MixColumn(col, modulus), modulus) == Mod(Dot(TimesMixRows(ik), col), G.FieldPoly(modulus))
  {
    var p := G.FieldPoly(modulus);
    var mixed := MixColumn(col, modulus);
    var exact := [Dot(MixRows[0], col), Dot(MixRows[1], col), Dot(MixRows[2], col), Dot(MixRows[3], col)];
    RowTimesMod(ik, mixed, modulus);
    MixedExact(col, modulus, 0);
    MixedExact(col, modulus, 1);
    MixedExact(col, modulus, 2);
    MixedExact(col, modulus, 3);
    DotModRight(ik, exact, mixed, p);
    DotOfDots(ik, MixRows[0], MixRows[1], MixRows[2], MixRows[3], col);
  }

  /** Row `r` of InvMixColumns, applied to the mixed column, recovers byte `r` of the column. */
  lemma {:induction false} InvRowOfMix(col: seq<Byte>, modulus: Byte, r: nat)
    requires |col| == 4 && r < 4
    ensures RowTimes(InvMixRows[r], MixColumn(col, modulus), modulus) == col[r]
  {
    RowOfMixed(InvMixRows[r], col, modulus);
    InverseRow(r);
    DotUnit(col, r);
    G.ByteDegree(col[r]);
    ModSmall(col[r], G.FieldPoly(modulus));
  }

  /** `invMixColumn` undoes `mixColumn`, for every modulus. */
  lemma {:induction false} MixColumnInverse(col: seq<Byte>, modulus: Byte)
    requires |col| == 4
    ensures InvMixColumn(MixColumn(col, modulus), modulus) == col
  {
    var t := InvMixColumn(MixColumn(col, modulus), modulus);
    forall r | 0 <= r < 4
      ensures t[r] == col[r]
    {
      InvRowOfMix(col, modulus, r);
    }
  }

  /** Column j of the mixed state is the mixed column j. */
  lemma {:induction false} ColumnOfMixColumns(s: State, nb: nat, modulus: Byte, j: nat)
    requires IsState(s, nb) && j < nb
    ensures Column(MixColumns(s, nb, modulus), nb, j) == MixColumn(Column(s, nb, j), modulus)
  {
  }

  /** One byte of the state after `mixColumns` and `invMixColumns`. */
  lemma {:induction false} MixColumnsEntry(s: State, nb: nat, modulus: Byte, i: nat, j: nat)
    requires IsState(s, nb) && i < 4 && j < nb
    ensures InvMixColumns(MixColumns(s, nb, modulus), nb, modulus)[i][j] == s[i][j]
  {
    var m := MixColumns(s, nb, modulus);
    var c := Column(s, nb, j);
    ColumnOfMixColumns(s, nb, modulus, j);
    MixColumnInverse(c, modulus);
    assert InvMixColumn(Column(m, nb, j), modulus) == c;
    assert c[i] == s[i][j];
    assert InvMixColumns(m, nb, modulus)[i][j] == InvMixColumn(Column(m, nb, j), modulus)[i];
  }

  /** `invMixColumns` undoes `mixColumns`, column by column. */
  lemma {:induction false} MixColumnsInverse(s: State, nb: nat, modulus: Byte)
    requires IsState(s, nb)
    ensures InvMixColumns(MixColumns(s, nb, modulus), nb, modulus) == s
  {
    var t := InvMixColumns(MixColumns(s, nb, modulus), nb, modulus);
    forall i | 0 <= i < 4
      ensures t[i] == s[i]
    {
      forall j | 0 <= j < nb
        ensures t[i][j] == s[i][j]
      {
        MixColumnsEntry(s, nb, modulus, i, j);
      }
    }
  }
}
