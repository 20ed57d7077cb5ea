/** The cipher object of lab3/task3-rijndael-files/lib-src/Rijndael.java. Its sizes and
 *  S-boxes are fixed at construction, the round keys are the one field that changes, and
 *  `encrypt`/`decrypt` run the rounds on a 4 x Nb state updated in place. Each method is
 *  proved against the value-level definitions of RijndaelSpec and RijndaelCipher. */
module Rijndael {
  import opened Wrappers
  import opened Gf2Poly
  import G = Gf256Service
  import S = RijndaelSpec
  import C = RijndaelCipher
  import M = RijndaelMix

  type Byte = G.Byte

  const BlockSizeError: Error := IllegalArgument("Block size must be 128, 192, or 256 bits")
  const KeySizeError: Error := IllegalArgument("Key size must be 128, 192, or 256 bits")
  const InvalidKeySize: Error := IllegalArgument("Invalid key size")
  const InvalidBlockSize: Error := IllegalArgument("Invalid block size")

  /** The block and key sizes the constructor accepts, in bits. */
  predicate AllowedBits(bits: int)
  {
    bits == 128 || bits == 192 || bits == 256
  }

  function Max(a: int, b: int): int
  {
    if a >= b then a else b
  }

  /** What building the S-boxes needs of the modulus: `inverse` succeeds on every nonzero
   *  byte, that is, the modulus passes the irreducibility test and every nonzero byte is
   *  coprime to the field polynomial. */
  ghost predicate AllInvertible(modulus: Byte)
  {
    G.IrreducibleTest(G.FieldPoly(modulus)) && CoprimeBelow(modulus, 256)
  }

  /** Every byte from 1 to i - 1 is coprime to the field polynomial. */
  ghost predicate CoprimeBelow(modulus: Byte, i: nat)
  {
    forall a: Byte | 1 <= a < i :: Gcd(G.FieldPoly(modulus), a) == 1
  }

  /** The 4 x Nb state, read as its four rows. */
  function Grid(state: array2<Byte>): (s: S.State)
    requires state.Length0 == 4
    reads state
    ensures S.IsState(s, state.Length1)
  {
    seq(4, r requires 0 <= r < 4 reads state =>
      seq(state.Length1, c requires 0 <= c < state.Length1 reads state => state[r, c]))
  }

  /** The state holds `t` when every cell holds the corresponding byte of `t`. */
  lemma {:induction false} GridIs(state: array2<Byte>, t: S.State)
    requires state.Length0 == 4 && S.IsState(t, state.Length1)
    requires forall r, c | 0 <= r < 4 && 0 <= c < state.Length1 :: state[r, c] == t[r][c]
    ensures Grid(state) == t
  {
    var g := Grid(state);
    forall r | 0 <= r < 4
      ensures g[r] == t[r]
    {
    }
  }

  /** Bit i of `affineTransform`'s result, summed as the code sums it: bits i, i + 4, i + 5,
   *  i + 6 and i + 7 (mod 8) of the input and bit i of 0x63, in the lowest bit. */
  function AffineBitSum(v: bv8, i: bv8): bv8
    requires i < 8
  {
    ((v >> i) & 1) ^ ((v >> ((i + 4) % 8)) & 1) ^ ((v >> ((i + 5) % 8)) & 1) ^
    ((v >> ((i + 6) % 8)) & 1) ^ ((v >> ((i + 7) % 8)) & 1) ^ ((0x63 >> i) & 1)
  }

  /** The result after the first i turns of the loop: bits 0 to i - 1 in place. */
  function AffineLow(v: bv8, i: bv8): bv8
    requires i <= 8
  {
    if i == 0 then 0 else AffineLow(v, i - 1) | (AffineBitSum(v, i - 1) << (i - 1))
  }

  /** The code's sum for bit i is bit i of the affine map with rotations. */
  lemma {:induction false} AffineBitIsSum(v: bv8, i: bv8)
    requires i < 8
    ensures AffineBitSum(v, i) == (S.AffineBits(v) >> i) & 1
  {
    if i == 0 { }
    else if i == 1 { }
    else if i == 2 { }
    else if i == 3 { }
    else if i == 4 { }
    else if i == 5 { }
    else if i == 6 { }
  }

  lemma {:induction false} AffineLowStep(v: bv8, a: bv8, i: bv8)
    requires i < 8 && a == S.AffineBits(v)
    ensures AffineLow(v, i + 1) == AffineLow(v, i) | (((a >> i) & 1) << i)
  {
    AffineBitIsSum(v, i);
  }

  /** A byte is the union of its eight bits, each put back in place. */
  lemma {:induction false} LowBits(a: bv8)
    ensures a == ((((((((0 | (((a >> 0) & 1) << 0)) | (((a >> 1) & 1) << 1)) | (((a >> 2) & 1) << 2)) | (((a >> 3) & 1) << 3)) | (((a >> 4) & 1) << 4)) | (((a >> 5) & 1) << 5)) | (((a >> 6) & 1) << 6)) | (((a >> 7) & 1) << 7))
  {
  }

  /** After eight turns the loop has built the whole affine image. */
  lemma {:induction false} AffineLowAll(v: bv8)
    ensures AffineLow(v, 8) == S.AffineBits(v)
  {
    var a := S.AffineBits(v);
    AffineLowStep(v, a, 0);
    AffineLowStep(v, a, 1);
    AffineLowStep(v, a, 2);
    AffineLowStep(v, a, 3);
    AffineLowStep(v, a, 4);
    AffineLowStep(v, a, 5);
    AffineLowStep(v, a, 6);
    AffineLowStep(v, a, 7);
    LowBits(a);
  }

  /** `affineTransform`: the S-box's affine map, computed bit by bit from the lowest. */
  method AffineTransform(b: Byte) returns (r: Byte)
    ensures r == S.Affine(b)
  {
    var v: bv8 := S.ToBits(b);
    var result: bv8 := 0;
    var i: bv8 := 0;
    while i < 8
      invariant i <= 8
      invariant result == AffineLow(v, i)
    {
      var bit: bv8 := 0;
      bit := bit ^ ((v >> i) & 1);
      bit := bit ^ ((v >> ((i + 4) % 8)) & 1);
      bit := bit ^ ((v >> ((i + 5) % 8)) & 1);
      bit := bit ^ ((v >> ((i + 6) % 8)) & 1);
      bit := bit ^ ((v >> ((i + 7) % 8)) & 1);
      bit := bit ^ ((0x63 >> i) & 1);
      result := result | (bit << i);
      i := i + 1;
    }
    AffineLowAll(v);
    r := S.FromBits(result);
  }

  /** Two nonzero bytes whose S-box entries have the same inverse affine image share their
   *  field inverse, so they are the same byte. */
  lemma {:induction false} EntryUnique(x: Byte, i: Byte, a: Byte, t: Byte, modulus: Byte)
    requires G.FieldMul(x, S.InvAffine(a), modulus) == 1 && G.FieldMul(i, S.InvAffine(t), modulus) == 1
    ensures a == t ==> x == i
  {
    if a == t {
      G.InverseUnique(x, i, S.InvAffine(a), modulus);
    }
  }

  /** An entry built from a field inverse is never 0x63, the entry of 0. */
  lemma {:induction false} EntryNotZeros(i: Byte, t: Byte, modulus: Byte)
    requires G.FieldMul(i, S.InvAffine(t), modulus) == 1
    ensures t != 0x63
  {
    S.AffineInverse(0);
    G.FieldMulIdentity(i, modulus);
  }

  /** The first i entries of both tables as `initializeSBoxes` leaves them. */
  ghost predicate BoxesBelow(box: seq<Byte>, inv: seq<Byte>, i: nat, modulus: Byte)
  {
    |box| == 256 && |inv| == 256 && 1 <= i <= 256 && box[0] == 0x63 &&
    (forall x | 1 <= x < i :: G.FieldMul(x, S.InvAffine(box[x]), modulus) == 1) &&
    (forall x | 0 <= x < i :: inv[box[x]] == x)
  }

  lemma {:induction false} CoprimeStep(modulus: Byte, i: Byte)
    requires CoprimeBelow(modulus, i) && Gcd(G.FieldPoly(modulus), i) == 1
    ensures CoprimeBelow(modulus, i + 1)
  {
  }

  /** Entry i, the affine image of an inverse of i, differs from every entry before it, so
   *  recording it keeps the inverse table right on all of them. */
  lemma {:induction false} ExtendBoxes(box: seq<Byte>, inv: seq<Byte>, i: Byte, u: Byte, t: Byte, modulus: Byte)
    requires BoxesBelow(box, inv, i, modulus) && G.FieldMul(i, u, modulus) == 1 && t == S.Affine(u)
    ensures BoxesBelow(box[i := t], inv[t := i], i + 1, modulus)
  {
    var box', inv' := box[i := t], inv[t := i];
    S.AffineInverse(u);
    EntryNotZeros(i, t, modulus);
    forall x | 1 <= x < i + 1
      ensures G.FieldMul(x, S.InvAffine(box'[x]), modulus) == 1
    {
      if x < i {
        assert box'[x] == box[x];
      }
    }
    forall x | 0 <= x < i + 1
      ensures inv'[box'[x]] == x
    {
      if x < i {
        if x >= 1 {
          EntryUnique(x, i, box[x], t, modulus);
        }
        assert box'[x] == box[x] != t;
        assert inv'[box[x]] == inv[box[x]];
      }
    }
  }

  /** When `inverse` fails on a nonzero byte, not every byte is invertible, and the error
   *  says whether the modulus or the byte is at fault. */
  lemma {:induction false} InverseFailed(modulus: Byte, i: Byte, r: Result<Byte>)
    requires 1 <= i && r.Err?
    requires r.Ok? <==> G.IrreducibleTest(G.FieldPoly(modulus)) && Gcd(G.FieldPoly(modulus), i) == 1
    requires !G.IrreducibleTest(G.FieldPoly(modulus)) ==> r == Err(G.NotIrreducible)
    requires G.IrreducibleTest(G.FieldPoly(modulus)) && Gcd(G.FieldPoly(modulus), i) != 1 ==> r == Err(G.NotInvertible)
    ensures !AllInvertible(modulus)
    ensures r.error == if G.IrreducibleTest(G.FieldPoly(modulus)) then G.NotInvertible else G.NotIrreducible
  {
  }

  /** All 256 entries in place make the tables an S-box and its inverse. */
  lemma {:induction false} BoxesDone(box: seq<Byte>, inv: seq<Byte>, modulus: Byte)
    requires BoxesBelow(box, inv, 256, modulus)
    ensures S.IsSBox(box, modulus) && C.Inverts(box, inv)
  {
  }

  /** `initializeSBoxes`: entry 0 is 0x63, entry i the affine image of the inverse of i, and
   *  the inverse table maps each entry back. It fails with the error of the first `inverse`
   *  that fails. */
  method BuildSBoxes(modulus: Byte) returns (res: Result<(array<Byte>, array<Byte>)>)
    ensures res.Ok? <==> AllInvertible(modulus)
    ensures res.Err? ==> res.error == if G.IrreducibleTest(G.FieldPoly(modulus)) then G.NotInvertible
                                     else G.NotIrreducible
    ensures res.Ok? ==> fresh(res.value.0) && fresh(res.value.1) &&
                        res.value.0.Length == 256 && res.value.1.Length == 256 &&
                        BoxesBelow(res.value.0[..], res.value.1[..], 256, modulus)
  {
    var sBox := new Byte[256](_ => 0);
    var invSBox := new Byte[256](_ => 0);
    sBox[0] := 0x63;
    invSBox[0x63] := 0;
    var i := 1;
    while i < 256
      invariant BoxesBelow(sBox[..], invSBox[..], i, modulus)
      invariant i > 1 ==> G.IrreducibleTest(G.FieldPoly(modulus))
      invariant CoprimeBelow(modulus, i)
    {
      var failure := FillEntry(sBox, invSBox, i, modulus);
      if failure.Some? {
        return Err(failure.value);
      }
      i := i + 1;
    }
    res := Ok((sBox, invSBox));
  }

  /** One turn of the loop of `initializeSBoxes`: entry i is the affine image of the inverse
   *  of i, or the error of `inverse` stops the loop. */
  method FillEntry(sBox: array<Byte>, invSBox: array<Byte>, i: Byte, modulus: Byte) returns (failure: Option<Error>)
    requires sBox != invSBox && 1 <= i
    requires BoxesBelow(sBox[..], invSBox[..], i, modulus) && CoprimeBelow(modulus, i)
    modifies sBox, invSBox
    ensures failure.Some? ==> !AllInvertible(modulus)
    ensures failure.Some? ==> failure.value == if G.IrreducibleTest(G.FieldPoly(modulus)) then G.NotInvertible
                                               else G.NotIrreducible
    ensures failure.None? ==> G.IrreducibleTest(G.FieldPoly(modulus)) && CoprimeBelow(modulus, i + 1)
    ensures failure.None? ==> BoxesBelow(sBox[..], invSBox[..], i + 1, modulus)
  {
    ghost var box, invBox := sBox[..], invSBox[..];
    var inv := G.Inverse(i, modulus);
    if inv.Err? {
      InverseFailed(modulus, i, inv);
      return Some(inv.error);
    }
    var t := AffineTransform(inv.value);
    CoprimeStep(modulus, i);
    ExtendBoxes(box, invBox, i, inv.value, t, modulus);
    RecordEntry(sBox, invSBox, i, t);
    failure := None;
  }

  /** Entry i of the S-box becomes t, and entry t of the inverse table becomes i. */
  method RecordEntry(sBox: array<Byte>, invSBox: array<Byte>, i: Byte, t: Byte)
    requires sBox != invSBox && sBox.Length == 256 && invSBox.Length == 256
    modifies sBox, invSBox
    ensures sBox[..] == old(sBox[..])[i := t] && invSBox[..] == old(invSBox[..])[t := i]
  {
    sBox[i] := t;
    invSBox[t] := i;
  }

  lemma {:induction false} QuotientNat(i: nat, n: nat)
    requires n >= 1
    ensures 0 <= i / n <= i
  {
  }

  /** There are more expanded words than key words. */
  lemma {:induction false} WordCount(nb: nat, nk: nat, nr: nat)
    requires (nb == 4 || nb == 6 || nb == 8) && (nk == 4 || nk == 6 || nk == 8) && nr == Max(nb, nk) + 6
    ensures nk < nb * (nr + 1)
  {
  }

  class Rijndael {
    const blockSize: nat
    const keySize: nat
    const modulus: Byte
    const Nb: nat
    const Nk: nat
    const Nr: nat
    const sBox: array<Byte>
    const invSBox: array<Byte>
    /** The round keys of the last key set; `None` until a key is set. */
    var encryptionRoundKeys: Option<seq<seq<Byte>>>
    /** The key the round keys were expanded from. */
    ghost var currentKey: seq<Byte>

    /** The sizes fixed at construction. */
    predicate Sizes()
    {
      (Nb == 4 || Nb == 6 || Nb == 8) && (Nk == 4 || Nk == 6 || Nk == 8) &&
      blockSize == 4 * Nb && keySize == 4 * Nk && Nr == Max(Nb, Nk) + 6 &&
      sBox.Length == 256 && invSBox.Length == 256
    }

    /** The sizes, and a modulus `multiplyMod` accepts: all that the state transforms and the
     *  key expansion rely on. */
    predicate Shape()
    {
      Sizes() && G.FieldChecked(modulus, 10)
    }

    /** Round keys, when there are any, are `Nr + 1` keys of `blockSize` bytes. */
    predicate Scheduled()
      reads this
    {
      encryptionRoundKeys.Some? ==> C.KeysFit(encryptionRoundKeys.value, Nb, Nr)
    }

    /** What construction establishes and every method keeps. */
    ghost predicate Valid()
      reads this, sBox, invSBox
    {
      Shape() && AllInvertible(modulus) &&
      S.IsSBox(sBox[..], modulus) && C.Inverts(sBox[..], invSBox[..]) &&
      (encryptionRoundKeys.Some? ==>
         |currentKey| == keySize &&
         encryptionRoundKeys.value == C.RoundKeys(currentKey, Nb, Nk, Nr, sBox[..], modulus))
    }

    constructor Init(nb: nat, nk: nat, modulus: Byte, sBox: array<Byte>, invSBox: array<Byte>)
      requires (nb == 4 || nb == 6 || nb == 8) && (nk == 4 || nk == 6 || nk == 8)
      requires AllInvertible(modulus) && sBox.Length == 256 && invSBox.Length == 256
      requires S.IsSBox(sBox[..], modulus) && C.Inverts(sBox[..], invSBox[..])
      ensures Valid() && encryptionRoundKeys.None?
      ensures this.Nb == nb && this.Nk == nk && this.modulus == modulus
      ensures this.sBox == sBox && this.invSBox == invSBox
    {
      this.blockSize := 4 * nb;
      this.keySize := 4 * nk;
      this.modulus := modulus;
      this.Nb := nb;
      this.Nk := nk;
      this.Nr := Max(nb, nk) + 6;
      this.sBox := sBox;
      this.invSBox := invSBox;
      this.encryptionRoundKeys := None;
      this.currentKey := [];
      G.FieldCheckedIsTest(modulus, 10);
    }

    /** The constructor `Rijndael(blockSizeBits, keySizeBits, modulus)`: the block size is
     *  checked first, then the key size, then the S-boxes are built, which fails when some
     *  nonzero byte has no inverse under the modulus. */
    static method New(blockSizeBits: int, keySizeBits: int, modulus: Byte) returns (res: Result<Rijndael>)
      ensures !AllowedBits(blockSizeBits) ==> res == Err(BlockSizeError)
      ensures AllowedBits(blockSizeBits) && !AllowedBits(keySizeBits) ==> res == Err(KeySizeError)
      ensures AllowedBits(blockSizeBits) && AllowedBits(keySizeBits) ==>
                (res.Ok? <==> AllInvertible(modulus)) &&
                (!G.IrreducibleTest(G.FieldPoly(modulus)) ==> res == Err(G.NotIrreducible))
      ensures res.Ok? ==> fresh(res.value) && res.value.Valid() && res.value.encryptionRoundKeys.None? &&
                          res.value.blockSize == blockSizeBits / 8 && res.value.keySize == keySizeBits / 8 &&
                          res.value.Nb == blockSizeBits / 32 && res.value.Nk == keySizeBits / 32 &&
                          res.value.Nr == Max(blockSizeBits / 32, keySizeBits / 32) + 6 &&
                          res.value.modulus == modulus
    {
      if !AllowedBits(blockSizeBits) {
        return Err(BlockSizeError);
      }
      if !AllowedBits(keySizeBits) {
        return Err(KeySizeError);
      }
      var boxes := BuildSBoxes(modulus);
      if boxes.Err? {
        return Err(boxes.error);
      }
      BoxesDone(boxes.value.0[..], boxes.value.1[..], modulus);
      var r := new Rijndael.Init(blockSizeBits / 32, keySizeBits / 32, modulus, boxes.value.0, boxes.value.1);
      res := Ok(r);
    }

    /** `setEncryptionKey`: a key of the wrong length is refused and nothing changes;
     *  otherwise the round keys become the expansion of the key. */
    method SetEncryptionKey(key: seq<Byte>) returns (res: Result<()>)
      requires Valid()
      modifies this
      ensures Valid()
      ensures |key| != keySize ==> res == Err(InvalidKeySize) && encryptionRoundKeys == old(encryptionRoundKeys)
      ensures |key| == keySize ==>
                res == Ok(()) && encryptionRoundKeys == Some(C.RoundKeys(key, Nb, Nk, Nr, sBox[..], modulus))
    {
      if |key| != keySize {
        return Err(InvalidKeySize);
      }
      var keys := ExpandKey(key);
      encryptionRoundKeys := Some(keys.value);
      currentKey := key;
      res := Ok(());
    }

    /** `setDecryptionKey`: decryption runs on the encryption round keys. */
    method SetDecryptionKey(key: seq<Byte>) returns (res: Result<()>)
      requires Valid()
      modifies this
      ensures Valid()
      ensures |key| != keySize ==> res == Err(InvalidKeySize) && encryptionRoundKeys == old(encryptionRoundKeys)
      ensures |key| == keySize ==>
                res == Ok(()) && encryptionRoundKeys == Some(C.RoundKeys(key, Nb, Nk, Nr, sBox[..], modulus))
    {
      res := SetEncryptionKey(key);
    }

    /** `subWord`: every byte of the word looked up in the S-box. */
    method SubWord(word: seq<Byte>) returns (result: seq<Byte>)
      requires Sizes() && |word| == 4
      ensures result == C.SubWord(word, sBox[..])
    {
      var r := new Byte[4];
      var i := 0;
      while i < 4
        invariant 0 <= i <= 4
        invariant forall k | 0 <= k < i :: r[k] == sBox[word[k]]
        modifies r
      {
        r[i] := sBox[word[i]];
        i := i + 1;
      }
      result := r[..];
    }

    /** `rcon(i)`: 1 for i = 1, otherwise 2 doubled i - 2 times in the field. */
    method Rcon(i: nat) returns (r: Byte)
      requires Shape()
      ensures r == C.Rcon(i, modulus)
    {
      if i == 1 {
        return 1;
      }
      G.FieldCheckedIsTest(modulus, 10);
      r := 2;
      if i >= 2 {
        G.FieldMulIdentity(2, modulus);
      }
      var j := 1;
      while j < i - 1
        invariant 1 <= j && (i >= 2 ==> j <= i - 1)
        invariant i >= 2 ==> r == C.Rcon(j + 1, modulus)
        invariant i < 2 ==> r == 2
      {
        var m := G.MultiplyMod(r, 2, modulus);
        r := m.value;
        j := j + 1;
      }
      if i >= 2 {
        assert j + 1 == i;
      }
    }

    /** `expandKey`: the first nk words are copied from the key (a key shorter than nk words
     *  runs off its end), the remaining words follow the expansion rule, and word
     *  `round * Nb + col` is spread over round key `round` at positions `row * Nb + col`. */
    method ExpandKey(key: seq<Byte>) returns (res: Result<seq<seq<Byte>>>)
      requires Shape()
      ensures |key| < keySize ==> res == Err(IndexOutOfBounds)
      ensures |key| >= keySize ==> res == Ok(C.RoundKeys(key, Nb, Nk, Nr, sBox[..], modulus))
    {
      var roundKeyCount := Nr + 1;
      var wordCount := Nb * roundKeyCount;
      WordCount(Nb, Nk, Nr);
      var w := new Byte[wordCount, 4]((_, _) => 0);
      var copied := CopyKey(w, key);
      if !copied {
        return Err(IndexOutOfBounds);
      }
      var roundKeys := ExpandCopied(w, key);
      res := Ok(roundKeys);
    }

    /** The rest of `expandKey` once the key's own words are in place: the remaining words,
     *  then the round keys. */
    method ExpandCopied(w: array2<Byte>, ghost key: seq<Byte>) returns (roundKeys: seq<seq<Byte>>)
      requires Shape() && w.Length0 == Nb * (Nr + 1) && w.Length1 == 4 && |key| >= keySize
      requires forall k, j | 0 <= k < Nk && 0 <= j < 4 :: w[k, j] == key[4 * k + j]
      modifies w
      ensures roundKeys == C.RoundKeys(key, Nb, Nk, Nr, sBox[..], modulus)
    {
      WordCount(Nb, Nk, Nr);
      ghost var words := C.Words(key, Nk, w.Length0, sBox[..], modulus);
      C.WordsExpand(key, Nk, w.Length0, sBox[..], modulus);
      ExpandWords(w, words);
      roundKeys := SpreadWords(w, words);
    }

    /** The first loop of `expandKey`: word `i` is bytes `4 * i` to `4 * i + 3` of the key,
     *  and a key shorter than `Nk` words runs off its end. */
    method CopyKey(w: array2<Byte>, key: seq<Byte>) returns (copied: bool)
      requires Sizes() && w.Length0 >= Nk && w.Length1 == 4
      modifies w
      ensures copied <==> |key| >= keySize
      ensures copied ==> forall k, j | 0 <= k < Nk && 0 <= j < 4 :: w[k, j] == key[4 * k + j]
    {
      var i := 0;
      while i < Nk
        invariant 0 <= i <= Nk && 4 * i <= |key|
        invariant forall k, j | 0 <= k < i && 0 <= j < 4 :: w[k, j] == key[4 * k + j]
        modifies w
      {
        var j := 0;
        while j < 4
          invariant 0 <= j <= 4 && 4 * i + j <= |key|
          invariant forall k, j' | 0 <= k < i && 0 <= j' < 4 :: w[k, j'] == key[4 * k + j']
          invariant forall j' | 0 <= j' < j :: w[i, j'] == key[4 * i + j']
          modifies w
        {
          if 4 * i + j >= |key| {
            return false;
          }
          w[i, j] := key[4 * i + j];
          j := j + 1;
        }
        i := i + 1;
      }
      copied := true;
    }

    /** The middle loop of `expandKey`: every word after the key's own is the word `Nk` places
     *  back plus the transformed previous word. */
    method ExpandWords(w: array2<Byte>, ghost words: seq<seq<Byte>>)
      requires Shape() && w.Length1 == 4 && |words| == w.Length0 && Nk <= w.Length0
      requires forall k | 0 <= k < |words| :: |words[k]| == 4
      requires forall k | Nk <= k < |words| :: C.Expands(words, k, Nk, sBox[..], modulus)
      requires forall k, j | 0 <= k < Nk && 0 <= j < 4 :: w[k, j] == words[k][j]
      modifies w
      ensures forall k, j | 0 <= k < |words| && 0 <= j < 4 :: w[k, j] == words[k][j]
    {
      var i := Nk;
      while i < w.Length0
        invariant Nk <= i <= w.Length0
        invariant forall k, j | 0 <= k < i && 0 <= j < 4 :: w[k, j] == words[k][j]
        modifies w
      {
        var temp := [w[i - 1, 0], w[i - 1, 1], w[i - 1, 2], w[i - 1, 3]];
        assert temp == words[i - 1];
        temp := NextTemp(temp, i);
        assert C.Expands(words, i, Nk, sBox[..], modulus);
        AddWord(w, i, temp, words);
        i := i + 1;
      }
    }

    /** The innermost loop of the expansion: byte `j` of word `i` is byte `j` of word `i - Nk`
     *  plus byte `j` of the transformed previous word. */
    method AddWord(w: array2<Byte>, i: nat, temp: seq<Byte>, ghost words: seq<seq<Byte>>)
      requires w.Length1 == 4 && |words| == w.Length0 && 1 <= Nk <= i < w.Length0 && |temp| == 4
      requires forall k | 0 <= k < |words| :: |words[k]| == 4
      requires words[i] == C.XorWord(words[i - Nk], temp)
      requires forall k, j | 0 <= k < i && 0 <= j < 4 :: w[k, j] == words[k][j]
      modifies w
      ensures forall k, j | 0 <= k <= i && 0 <= j < 4 :: w[k, j] == words[k][j]
    {
      var j := 0;
      while j < 4
        invariant 0 <= j <= 4
        invariant forall k, j' | 0 <= k < i && 0 <= j' < 4 :: w[k, j'] == words[k][j']
        invariant forall j' | 0 <= j' < j :: w[i, j'] == words[i][j']
        modifies w
      {
        w[i, j] := G.Add(w[i - Nk, j], temp[j]);
        j := j + 1;
      }
    }

    /** The body of the expansion loop before the addition: the previous word rotated,
     *  substituted and given the round constant every `Nk` words, only substituted at the
     *  middle of a 256-bit key's period, and otherwise kept. */
    method NextTemp(prev: seq<Byte>, i: nat) returns (temp: seq<Byte>)
      requires Shape() && |prev| == 4 && Nk >= 1
      ensures temp == C.Temp(prev, i, Nk, sBox[..], modulus)
    {
      temp := prev;
      if i % Nk == 0 {
        temp := SubWord(C.RotWord(temp));
        QuotientNat(i, Nk);
        var rc := Rcon(i / Nk);
        temp := temp[0 := G.Add(temp[0], rc)];
      } else if Nk > 6 && i % Nk == 4 {
        temp := SubWord(temp);
      }
    }

    /** The last loop of `expandKey`: byte `row` of word `round * Nb + col` is stored in round
     *  key `round` at position `row * Nb + col`. */
    method SpreadWords(w: array2<Byte>, ghost words: seq<seq<Byte>>) returns (roundKeys: seq<seq<Byte>>)
      requires Sizes() && w.Length0 == Nb * (Nr + 1) && w.Length1 == 4 && |words| == w.Length0
      requires forall k | 0 <= k < |words| :: |words[k]| == 4
      requires forall k, j | 0 <= k < w.Length0 && 0 <= j < 4 :: w[k, j] == words[k][j]
      ensures roundKeys == C.Layout(words, Nb, Nr)
    {
      var roundKeyCount := Nr + 1;
      var keys := new Byte[roundKeyCount, blockSize]((_, _) => 0);
      var round := 0;
      while round < roundKeyCount
        invariant 0 <= round <= roundKeyCount
        invariant forall r: nat, rw: nat, c: nat | r < round && rw < 4 && c < Nb ::
                    keys[r, C.Pos(rw, c, Nb)] == words[C.Slot(r, c, Nb, Nr)][rw]
        modifies keys
      {
        SpreadRound(keys, w, round, words);
        round := round + 1;
      }
      roundKeys := seq(roundKeyCount, r requires 0 <= r < roundKeyCount reads keys =>
                     seq(blockSize, idx requires 0 <= idx < blockSize reads keys => keys[r, idx]));
      C.LayoutByPositions(roundKeys, words, Nb, Nr);
    }

    /** One round of the last loop of `expandKey`: round key `round` receives words
     *  `round * Nb` to `round * Nb + Nb - 1`, column by column. */
    method SpreadRound(keys: array2<Byte>, w: array2<Byte>, round: nat, ghost words: seq<seq<Byte>>)
      requires Sizes() && w.Length0 == Nb * (Nr + 1) && w.Length1 == 4 && |words| == w.Length0
      requires keys.Length0 == Nr + 1 && keys.Length1 == blockSize && keys != w && round <= Nr
      requires forall k | 0 <= k < |words| :: |words[k]| == 4
      requires forall k, j | 0 <= k < w.Length0 && 0 <= j < 4 :: w[k, j] == words[k][j]
      requires forall r: nat, rw: nat, c: nat | r < round && rw < 4 && c < Nb ::
                 keys[r, C.Pos(rw, c, Nb)] == words[C.Slot(r, c, Nb, Nr)][rw]
      modifies keys
      ensures forall r: nat, rw: nat, c: nat | r <= round && rw < 4 && c < Nb ::
                keys[r, C.Pos(rw, c, Nb)] == words[C.Slot(r, c, Nb, Nr)][rw]
    {
      var col := 0;
      while col < Nb
        invariant 0 <= col <= Nb
        invariant forall r: nat, rw: nat, c: nat | r < round && rw < 4 && c < Nb ::
                    keys[r, C.Pos(rw, c, Nb)] == words[C.Slot(r, c, Nb, Nr)][rw]
        invariant forall rw: nat, c: nat | rw < 4 && c < col ::
                    keys[round, C.Pos(rw, c, Nb)] == words[C.Slot(round, c, Nb, Nr)][rw]
        modifies keys
      {
        var row := 0;
        while row < 4
          invariant 0 <= row <= 4
          invariant forall r: nat, rw: nat, c: nat | r < round && rw < 4 && c < Nb ::
                      keys[r, C.Pos(rw, c, Nb)] == words[C.Slot(r, c, Nb, Nr)][rw]
          invariant forall rw: nat, c: nat | rw < 4 && c < Nb && (c < col || (c == col && rw < row)) ::
                      keys[round, C.Pos(rw, c, Nb)] == words[C.Slot(round, c, Nb, Nr)][rw]
          modifies keys
        {
          C.PosDistinct(row, col, Nb);
          assert C.Pos(row, col, Nb) == row * Nb + col;
          assert C.Slot(round, col, Nb, Nr) == round * Nb + col;
          keys[round, row * Nb + col] := w[round * Nb + col, row];
          row := row + 1;
        }
        col := col + 1;
      }
    }

    // -------------------------------------------------------------------------------------
    // Encryption and decryption of one block

    /** `encrypt`: a block of the wrong size is refused; with no key set, the first
     *  `addRoundKey` reads the missing round keys; otherwise the block is loaded column by
     *  column, put through the rounds and read out column by column. */
    method Encrypt(block: seq<Byte>) returns (res: Result<seq<Byte>>)
      requires Shape() && Scheduled()
      ensures |block| != blockSize ==> res == Err(InvalidBlockSize)
      ensures |block| == blockSize && encryptionRoundKeys.None? ==> res == Err(NullPointer)
      ensures |block| == blockSize && encryptionRoundKeys.Some? ==>
                res == Ok(C.EncryptBlock(block, encryptionRoundKeys.value, Nb, Nr, sBox[..], modulus))
    {
      if |block| != blockSize {
        return Err(InvalidBlockSize);
      }
      var state := LoadState(block);
      if encryptionRoundKeys.None? {
        return Err(NullPointer);
      }
      EncryptState(state, encryptionRoundKeys.value);
      var result := StoreState(state);
      res := Ok(result);
    }

    /** `decrypt`: the same checks, then the inverse rounds in reverse order. */
    method Decrypt(block: seq<Byte>) returns (res: Result<seq<Byte>>)
      requires Shape() && Scheduled()
      ensures |block| != blockSize ==> res == Err(InvalidBlockSize)
      ensures |block| == blockSize && encryptionRoundKeys.None? ==> res == Err(NullPointer)
      ensures |block| == blockSize && encryptionRoundKeys.Some? ==>
                res == Ok(C.DecryptBlock(block, encryptionRoundKeys.value, Nb, Nr, invSBox[..], modulus))
    {
      if |block| != blockSize {
        return Err(InvalidBlockSize);
      }
      var state := LoadState(block);
      if encryptionRoundKeys.None? {
        return Err(NullPointer);
      }
      DecryptState(state, encryptionRoundKeys.value);
      var result := StoreState(state);
      res := Ok(result);
    }

    /** With a key set, the two methods' results are inverse: `decrypt` gives back the block
     *  `encrypt` was given, whichever key and whichever S-box pair construction accepted. */
    lemma {:induction false} DecryptUndoesEncrypt(block: seq<Byte>)
      requires Valid() && encryptionRoundKeys.Some? && |block| == blockSize
      ensures Scheduled()
      ensures C.DecryptBlock(C.EncryptBlock(block, encryptionRoundKeys.value, Nb, Nr, sBox[..], modulus),
                             encryptionRoundKeys.value, Nb, Nr, invSBox[..], modulus) == block
    {
      C.DecryptEncrypt(block, encryptionRoundKeys.value, Nb, Nr, sBox[..], invSBox[..], modulus);
    }

    /** The rounds of `encrypt`: the initial round key, Nr - 1 full rounds and a last round
     *  without `mixColumns`. */
    method EncryptState(state: array2<Byte>, keys: seq<seq<Byte>>)
      requires Shape() && state.Length0 == 4 && state.Length1 == Nb && C.KeysFit(keys, Nb, Nr)
      modifies state
      ensures Grid(state) == C.CipherState(old(Grid(state)), keys, Nb, Nr, sBox[..], modulus)
    {
      AddRoundKey(state, keys[0]);
      EncryptRounds(state, keys);
      SubBytes(state);
      ShiftRows(state);
      AddRoundKey(state, keys[Nr]);
    }

    /** The loop of `encrypt`: rounds 1 to Nr - 1, each with its own round key. */
    method EncryptRounds(state: array2<Byte>, keys: seq<seq<Byte>>)
      requires Shape() && state.Length0 == 4 && state.Length1 == Nb && C.KeysFit(keys, Nb, Nr)
      modifies state
      ensures Grid(state) == C.Rounds(old(Grid(state)), keys, Nr - 1, Nb, Nr, sBox[..], modulus)
    {
      ghost var start := Grid(state);
      var round := 1;
      while round < Nr
        invariant 1 <= round <= Nr
        invariant Grid(state) == C.Rounds(start, keys, round - 1, Nb, Nr, sBox[..], modulus)
      {
        EncryptStep(state, keys, round, start);
        round := round + 1;
      }
    }

    /** One pass of the loop of `encrypt`: round `round` carries the rounds before it one
     *  round further. */
    method EncryptStep(state: array2<Byte>, keys: seq<seq<Byte>>, round: nat, ghost start: S.State)
      requires Shape() && state.Length0 == 4 && state.Length1 == Nb && C.KeysFit(keys, Nb, Nr)
      requires S.IsState(start, Nb) && 1 <= round < Nr
      requires Grid(state) == C.Rounds(start, keys, round - 1, Nb, Nr, sBox[..], modulus)
      modifies state
      ensures Grid(state) == C.Rounds(start, keys, round, Nb, Nr, sBox[..], modulus)
    {
      ghost var box := sBox[..];
      EncryptRound(state, keys[round]);
      C.RoundsStep(start, keys, round, Nb, Nr, box, modulus);
    }

    /** One full round of `encrypt`: subBytes, shiftRows, mixColumns, addRoundKey. */
    method EncryptRound(state: array2<Byte>, roundKey: seq<Byte>)
      requires Shape() && state.Length0 == 4 && state.Length1 == Nb && |roundKey| == blockSize
      modifies state
      ensures Grid(state) == C.EncRound(old(Grid(state)), roundKey, Nb, sBox[..], modulus)
    {
      SubBytes(state);
      ShiftRows(state);
      MixColumns(state);
      AddRoundKey(state, roundKey);
    }

    /** The rounds of `decrypt`: the last round key, rounds Nr - 1 down to 1, and a final
     *  round without `invMixColumns`. */
    method DecryptState(state: array2<Byte>, keys: seq<seq<Byte>>)
      requires Shape() && state.Length0 == 4 && state.Length1 == Nb && C.KeysFit(keys, Nb, Nr)
      modifies state
      ensures Grid(state) == C.InvCipherState(old(Grid(state)), keys, Nb, Nr, invSBox[..], modulus)
    {
      AddRoundKey(state, keys[Nr]);
      DecryptRounds(state, keys);
      InvShiftRows(state);
      InvSubBytes(state);
      AddRoundKey(state, keys[0]);
    }

    /** The loop of `decrypt`: rounds Nr - 1 down to 1. */
    method DecryptRounds(state: array2<Byte>, keys: seq<seq<Byte>>)
      requires Shape() && state.Length0 == 4 && state.Length1 == Nb && C.KeysFit(keys, Nb, Nr)
      modifies state
      ensures Grid(state) == C.DecDown(old(Grid(state)), keys, Nr - 1, Nb, Nr, invSBox[..], modulus)
    {
      ghost var top := Grid(state);
      var round: nat := Nr - 1;
      while round > 0
        invariant round < Nr
        invariant Grid(state) == C.DecAbove(top, keys, round, Nb, Nr, invSBox[..], modulus)
      {
        DecryptStep(state, keys, round, top);
        round := round - 1;
      }
      assert round == 0;
      C.DecAboveAll(top, keys, Nb, Nr, invSBox[..], modulus);
    }

    /** One pass of the loop of `decrypt`: round `round` carries the rounds above it one round
     *  further down. */
    method DecryptStep(state: array2<Byte>, keys: seq<seq<Byte>>, round: nat, ghost top: S.State)
      requires Shape() && state.Length0 == 4 && state.Length1 == Nb && C.KeysFit(keys, Nb, Nr)
      requires S.IsState(top, Nb) && 1 <= round <= Nr - 1
      requires Grid(state) == C.DecAbove(top, keys, round, Nb, Nr, invSBox[..], modulus)
      modifies state
      ensures Grid(state) == C.DecAbove(top, keys, round - 1, Nb, Nr, invSBox[..], modulus)
    {
      DecryptRound(state, keys[round]);
    }

    /** One full round of `decrypt`: invShiftRows, invSubBytes, addRoundKey, invMixColumns. */
    method DecryptRound(state: array2<Byte>, roundKey: seq<Byte>)
      requires Shape() && state.Length0 == 4 && state.Length1 == Nb && |roundKey| == blockSize
      modifies state
      ensures Grid(state) == C.DecRound(old(Grid(state)), roundKey, Nb, invSBox[..], modulus)
    {
      InvShiftRows(state);
      InvSubBytes(state);
      AddRoundKey(state, roundKey);
      InvMixColumns(state);
    }

    /** The first loops of `encrypt` and `decrypt`: byte `col * 4 + row` of the block goes to
     *  row `row`, column `col` of a new state. */
    method LoadState(block: seq<Byte>) returns (state: array2<Byte>)
      requires Sizes() && |block| == blockSize
      ensures fresh(state) && state.Length0 == 4 && state.Length1 == Nb
      ensures Grid(state) == C.ToState(block, Nb)
    {
      state := new Byte[4, Nb];
      for col := 0 to Nb
        invariant forall r, c | 0 <= r < 4 && 0 <= c < col :: state[r, c] == block[c * 4 + r]
      {
        for row := 0 to 4
          invariant forall r, c | 0 <= r < 4 && 0 <= c < Nb && (c < col || (c == col && r < row)) ::
                      state[r, c] == block[c * 4 + r]
        {
          state[row, col] := block[col * 4 + row];
        }
      }
      GridIs(state, C.ToState(block, Nb));
    }

    /** The last loops of `encrypt` and `decrypt`: row `row`, column `col` of the state goes
     *  to byte `col * 4 + row` of the result. */
    method StoreState(state: array2<Byte>) returns (block: seq<Byte>)
      requires Sizes() && state.Length0 == 4 && state.Length1 == Nb
      ensures block == C.FromState(Grid(state), Nb)
    {
      var result := new Byte[blockSize];
      for col := 0 to Nb
        invariant forall i | 0 <= i < col * 4 :: result[i] == state[i % 4, i / 4]
      {
        for row := 0 to 4
          invariant forall i | 0 <= i < col * 4 + row :: result[i] == state[i % 4, i / 4]
        {
          result[col * 4 + row] := state[row, col];
        }
      }
      block := result[..];
    }

    // -------------------------------------------------------------------------------------
    // The state transforms, each on the 4 x Nb state in place

    /** `subBytes`: every byte of the state replaced by its S-box entry. */
    method SubBytes(state: array2<Byte>)
      requires Sizes() && state.Length0 == 4 && state.Length1 == Nb
      modifies state
      ensures Grid(state) == S.SubBytes(old(Grid(state)), sBox[..])
    {
      Substitute(state, sBox);
    }

    /** `invSubBytes`: every byte of the state replaced by its inverse S-box entry. */
    method InvSubBytes(state: array2<Byte>)
      requires Sizes() && state.Length0 == 4 && state.Length1 == Nb
      modifies state
      ensures Grid(state) == S.SubBytes(old(Grid(state)), invSBox[..])
    {
      Substitute(state, invSBox);
    }

    /** The loop `subBytes` and `invSubBytes` share, row by row and column by column. */
    method Substitute(state: array2<Byte>, table: array<Byte>)
      requires Sizes() && state.Length0 == 4 && state.Length1 == Nb && table.Length == 256
      modifies state
      ensures Grid(state) == S.SubBytes(old(Grid(state)), table[..])
    {
      ghost var s0 := Grid(state);
      ghost var box := table[..];
      for row := 0 to 4
        invariant forall r, c | 0 <= r < 4 && 0 <= c < Nb ::
                    state[r, c] == if r < row then box[s0[r][c]] else s0[r][c]
      {
        for col := 0 to Nb
          invariant forall r, c | 0 <= r < 4 && 0 <= c < Nb ::
                      state[r, c] == if r < row || (r == row && c < col) then box[s0[r][c]] else s0[r][c]
        {
          state[row, col] := table[state[row, col]];
        }
      }
      GridIs(state, S.SubBytes(s0, box));
    }

    /** `shiftRows`: rows 1 to 3 are each rebuilt in a fresh row, byte `col` taken from
     *  column `(col + row) % Nb`, and the fresh row replaces the old one. */
    method ShiftRows(state: array2<Byte>)
      requires Sizes() && state.Length0 == 4 && state.Length1 == Nb
      modifies state
      ensures Grid(state) == S.ShiftRows(old(Grid(state)), Nb)
    {
      ghost var s0 := Grid(state);
      ghost var t := S.ShiftRows(s0, Nb);
      for row := 1 to 4
        invariant forall r, c | 0 <= r < 4 && 0 <= c < Nb :: state[r, c] == if r < row then t[r][c] else s0[r][c]
      {
        var temp := new Byte[Nb];
        for col := 0 to Nb
          invariant forall c | 0 <= c < col :: temp[c] == t[row][c]
          modifies temp
        {
          temp[col] := state[row, (col + row) % Nb];
        }
        ReplaceRow(state, row, temp, s0, t);
      }
      GridIs(state, t);
    }

    /** `invShiftRows`: as `shiftRows`, byte `col` taken from column `(col - row + Nb) % Nb`. */
    method InvShiftRows(state: array2<Byte>)
      requires Sizes() && state.Length0 == 4 && state.Length1 == Nb
      modifies state
      ensures Grid(state) == S.InvShiftRows(old(Grid(state)), Nb)
    {
      ghost var s0 := Grid(state);
      ghost var t := S.InvShiftRows(s0, Nb);
      for row := 1 to 4
        invariant forall r, c | 0 <= r < 4 && 0 <= c < Nb :: state[r, c] == if r < row then t[r][c] else s0[r][c]
      {
        var temp := new Byte[Nb];
        for col := 0 to Nb
          invariant forall c | 0 <= c < col :: temp[c] == t[row][c]
          modifies temp
        {
          temp[col] := state[row, (col - row + Nb) % Nb];
        }
        ReplaceRow(state, row, temp, s0, t);
      }
      GridIs(state, t);
    }

    /** `state[row] = temp`: the rebuilt row takes the old row's place; rows below it already
     *  hold `t`, rows above it still hold `s0`. */
    method ReplaceRow(state: array2<Byte>, row: nat, temp: array<Byte>, ghost s0: S.State, ghost t: S.State)
      requires state.Length0 == 4 && row < 4 && temp.Length == state.Length1
      requires S.IsState(s0, state.Length1) && S.IsState(t, state.Length1)
      requires forall c | 0 <= c < temp.Length :: temp[c] == t[row][c]
      requires forall r, c | 0 <= r < 4 && 0 <= c < state.Length1 ::
                 state[r, c] == if r < row then t[r][c] else s0[r][c]
      modifies state
      ensures forall r, c | 0 <= r < 4 && 0 <= c < state.Length1 ::
                state[r, c] == if r <= row then t[r][c] else s0[r][c]
    {
      for col := 0 to temp.Length
        invariant forall r, c | 0 <= r < 4 && 0 <= c < state.Length1 ::
                    state[r, c] == if r < row || (r == row && c < col) then t[r][c] else s0[r][c]
      {
        state[row, col] := temp[col];
      }
    }

    /** `addRoundKey`: column by column, the byte in row `row` is added to byte
     *  `col * 4 + row` of the round key. */
    method AddRoundKey(state: array2<Byte>, roundKey: seq<Byte>)
      requires Sizes() && state.Length0 == 4 && state.Length1 == Nb && |roundKey| == blockSize
      modifies state
      ensures Grid(state) == S.AddRoundKey(old(Grid(state)), roundKey, Nb)
    {
      ghost var s0 := Grid(state);
      ghost var t := S.AddRoundKey(s0, roundKey, Nb);
      for col := 0 to Nb
        invariant forall r, c | 0 <= r < 4 && 0 <= c < Nb :: state[r, c] == if c < col then t[r][c] else s0[r][c]
      {
        for row := 0 to 4
          invariant forall r, c | 0 <= r < 4 && 0 <= c < Nb ::
                      state[r, c] == if c < col || (c == col && r < row) then t[r][c] else s0[r][c]
        {
          state[row, col] := G.Add(state[row, col], roundKey[col * 4 + row]);
        }
      }
      GridIs(state, t);
    }

    /** `mixColumns`: each column is copied out, mixed by `mixColumn`, and written back. */
    method MixColumns(state: array2<Byte>)
      requires Shape() && state.Length0 == 4 && state.Length1 == Nb
      modifies state
      ensures Grid(state) == S.MixColumns(old(Grid(state)), Nb, modulus)
    {
      ghost var s0 := Grid(state);
      ghost var t := S.MixColumns(s0, Nb, modulus);
      for col := 0 to Nb
        invariant forall r, c | 0 <= r < 4 && 0 <= c < Nb :: state[r, c] == if c < col then t[r][c] else s0[r][c]
      {
        var column := ReadColumn(state, col);
        var mixed := MixColumn(column);
        WriteColumn(state, col, mixed, s0, t);
      }
      GridIs(state, t);
    }

    /** `invMixColumns`: each column is copied out, mixed by `invMixColumn`, and written
     *  back. */
    method InvMixColumns(state: array2<Byte>)
      requires Shape() && state.Length0 == 4 && state.Length1 == Nb
      modifies state
      ensures Grid(state) == S.InvMixColumns(old(Grid(state)), Nb, modulus)
    {
      ghost var s0 := Grid(state);
      ghost var t := S.InvMixColumns(s0, Nb, modulus);
      for col := 0 to Nb
        invariant forall r, c | 0 <= r < 4 && 0 <= c < Nb :: state[r, c] == if c < col then t[r][c] else s0[r][c]
      {
        var column := ReadColumn(state, col);
        var mixed := InvMixColumn(column);
        WriteColumn(state, col, mixed, s0, t);
      }
      GridIs(state, t);
    }

    /** The copy into `column` at the head of the column loops. */
    method ReadColumn(state: array2<Byte>, col: nat) returns (column: array<Byte>)
      requires state.Length0 == 4 && col < state.Length1
      ensures fresh(column) && column[..] == S.Column(Grid(state), state.Length1, col)
    {
      column := new Byte[4];
      for row := 0 to 4
        invariant forall r | 0 <= r < row :: column[r] == state[r, col]
      {
        column[row] := state[row, col];
      }
    }

    /** The copy back from `mixed` at the end of the column loops: column `col` takes the
     *  mixed bytes, columns before it already hold `t`, columns after it still hold `s0`. */
    method WriteColumn(state: array2<Byte>, col: nat, mixed: array<Byte>, ghost s0: S.State, ghost t: S.State)
      requires state.Length0 == 4 && col < state.Length1 && mixed.Length == 4
      requires S.IsState(s0, state.Length1) && S.IsState(t, state.Length1)
      requires forall r | 0 <= r < 4 :: mixed[r] == t[r][col]
      requires forall r, c | 0 <= r < 4 && 0 <= c < state.Length1 :: state[r, c] == if c < col then t[r][c] else s0[r][c]
      modifies state
      ensures forall r, c | 0 <= r < 4 && 0 <= c < state.Length1 :: state[r, c] == if c <= col then t[r][c] else s0[r][c]
    {
      for row := 0 to 4
        invariant forall r, c | 0 <= r < 4 && 0 <= c < state.Length1 ::
                    state[r, c] == if c < col || (c == col && r < row) then t[r][c] else s0[r][c]
      {
        state[row, col] := mixed[row];
      }
    }

    /** `mixColumn`: each output byte is a row of 2, 3, 1, 1 (rotated) times the column. */
    method MixColumn(column: array<Byte>) returns (result: array<Byte>)
      requires G.FieldChecked(modulus, 10) && column.Length == 4
      ensures fresh(result) && result.Length == 4 && result[..] == S.MixColumn(column[..], modulus)
    {
      var b0 := RowProduct(M.MixRows[0], column);
      var b1 := RowProduct(M.MixRows[1], column);
      var b2 := RowProduct(M.MixRows[2], column);
      var b3 := RowProduct(M.MixRows[3], column);
      result := ColumnOf(b0, b1, b2, b3);
      S.MixColumnRows(column[..], modulus);
    }

    /** `invMixColumn`: each output byte is a row of 0E, 0B, 0D, 09 (rotated) times the
     *  column. */
    method InvMixColumn(column: array<Byte>) returns (result: array<Byte>)
      requires G.FieldChecked(modulus, 10) && column.Length == 4
      ensures fresh(result) && result.Length == 4 && result[..] == S.InvMixColumn(column[..], modulus)
    {
      var b0 := RowProduct(M.InvMixRows[0], column);
      var b1 := RowProduct(M.InvMixRows[1], column);
      var b2 := RowProduct(M.InvMixRows[2], column);
      var b3 := RowProduct(M.InvMixRows[3], column);
      result := ColumnOf(b0, b1, b2, b3);
      S.InvMixColumnRows(column[..], modulus);
    }

    /** A new four-byte column holding the given bytes. */
    static method ColumnOf(b0: Byte, b1: Byte, b2: Byte, b3: Byte) returns (result: array<Byte>)
      ensures fresh(result) && result[..] == [b0, b1, b2, b3]
    {
      result := new Byte[4];
      result[0], result[1], result[2], result[3] := b0, b1, b2, b3;
    }

    /** One output byte of `mixColumn` or `invMixColumn`: the four products summed left to
     *  right with `^`. */
    method RowProduct(k: seq<Byte>, column: array<Byte>) returns (b: Byte)
      requires G.FieldChecked(modulus, 10) && |k| == 4 && column.Length == 4
      ensures b == S.RowTimes(k, column[..], modulus)
    {
      G.FieldCheckedIsTest(modulus, 10);
      var t0 := Times(k[0], column[0]);
      var t1 := Times(k[1], column[1]);
      var t2 := Times(k[2], column[2]);
      var t3 := Times(k[3], column[3]);
      b := G.Add(G.Add(G.Add(t0, t1), t2), t3);
    }

    /** One product of a row: `multiplyMod(k, x, modulus)`, where the code writes the byte
     *  itself for the coefficient 1. */
    method Times(k: Byte, x: Byte) returns (r: Byte)
      requires G.IrreducibleTest(G.FieldPoly(modulus))
      ensures r == S.Term(k, x, modulus)
    {
      if k == 1 {
        r := x;
      } else {
        var p := G.MultiplyMod(k, x, modulus);
        r := p.value;
      }
    }
  }
}
