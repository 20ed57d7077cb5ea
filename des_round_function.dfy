/** The DES cipher function f(R, K) = P(S(E(R) xor K)) of FIPS PUB 46-3, figure 2
 *  (lab1/task4-des/src/DESRoundFunction.java). Bits are numbered from the most significant
 *  bit of byte 0, and E and P go through the bit permutation with 1-based detection. */
module DesRoundFunction {
  import opened Wrappers
  import opened Bytes
  import BP = BitPermutation
  import DesBitPermutation
  import opened DesTables
  import Feistel

  /** `getBit`: bit `i`, most significant first. */
  function GetBit(data: seq<bv8>, i: nat): bv8
  {
    BP.GetBit(data, i, BP.Inverted)
  }

  /** Bit `k` (0 = b1, …, 5 = b6) of the six-bit group `i`, as a number. */
  function GroupBit(input: seq<bv8>, i: nat, k: nat): (b: int)
    ensures b == 0 || b == 1
  {
    if GetBit(input, 6 * i + k) == 1 then 1 else 0
  }

  /** The S-box row: the outer bits b1 b6. */
  function Row(input: seq<bv8>, i: nat): (row: int)
    ensures 0 <= row < 4
  {
    2 * GroupBit(input, i, 0) + GroupBit(input, i, 5)
  }

  /** The S-box column: the inner bits b2 b3 b4 b5. */
  function Column(input: seq<bv8>, i: nat): (col: int)
    ensures 0 <= col < 16
  {
    8 * GroupBit(input, i, 1) + 4 * GroupBit(input, i, 2) + 2 * GroupBit(input, i, 3) + GroupBit(input, i, 4)
  }

  /** The value S_i selects for group `i` of the input. */
  function SBoxValue(t: DesTables, input: seq<bv8>, i: nat): (v: int)
    requires i < 8
    ensures 0 <= v < 16
  {
    t.sBoxes[i][Row(input, i)][Column(input, i)]
  }

  /** Bit `j` of a 4-bit value, most significant first: `(v >> (3 - j)) & 1`. */
  function NibbleBit(v: int, j: nat): (b: bv8)
    requires j < 4
    ensures b == 0 || b == 1
  {
    var shifted := if j == 0 then v / 8 else if j == 1 then v / 4 else if j == 2 then v / 2 else v;
    if shifted % 2 == 1 then 1 else 0
  }

  /** The output buffer after the first `k` of the four `setBit` calls that store value `v`
   *  at bits 4i..4i+3. */
  function NibbleWrites(o: seq<bv8>, i: nat, v: int, k: nat): (r: seq<bv8>)
    requires i < 8 && |o| == 4 && k <= 4
    ensures |r| == 4
  {
    if k == 0 then o else BP.SetBit(NibbleWrites(o, i, v, k - 1), 4 * i + k - 1, NibbleBit(v, k - 1), BP.Inverted)
  }

  /** The eight values the S-boxes select for the eight six-bit groups of `input`. */
  function SBoxValues(t: DesTables, input: seq<bv8>): (vs: seq<int>)
    ensures |vs| == 8 && forall i | 0 <= i < 8 :: vs[i] == SBoxValue(t, input, i)
  {
    seq(8, i requires 0 <= i < 8 => SBoxValue(t, input, i))
  }

  /** The output buffer after the first `n` values have been written. */
  function WriteNibbles(vs: seq<int>, n: nat): (r: seq<bv8>)
    requires n <= |vs| && n <= 8
    ensures |r| == 4
  {
    if n == 0 then Zeros(4) else NibbleWrites(WriteNibbles(vs, n - 1), n - 1, vs[n - 1], 4)
  }

  /** `applySBoxes`: eight six-bit groups in, eight four-bit values out. */
  function ApplySBoxes(t: DesTables, input: seq<bv8>): (r: seq<bv8>)
    ensures |r| == 4
  {
    WriteNibbles(SBoxValues(t, input), 8)
  }

  /** Write `k` of nibble `i` is one `setBit` on the result of the writes before it. */
  lemma {:induction false} NibbleWritesStep(o: seq<bv8>, i: nat, v: int, k: nat)
    requires i < 8 && |o| == 4 && k < 4
    ensures NibbleWrites(o, i, v, k + 1) == BP.SetBit(NibbleWrites(o, i, v, k), 4 * i + k, NibbleBit(v, k), BP.Inverted)
  {
  }

  /** The four writes of nibble `i`, one after another. */
  lemma {:induction false} NibbleWritesFour(o: seq<bv8>, i: nat, v: int, o1: seq<bv8>, o2: seq<bv8>, o3: seq<bv8>, o4: seq<bv8>)
    requires i < 8 && |o| == 4
    requires o1 == BP.SetBit(o, 4 * i, NibbleBit(v, 0), BP.Inverted)
    requires o2 == BP.SetBit(o1, 4 * i + 1, NibbleBit(v, 1), BP.Inverted)
    requires o3 == BP.SetBit(o2, 4 * i + 2, NibbleBit(v, 2), BP.Inverted)
    requires o4 == BP.SetBit(o3, 4 * i + 3, NibbleBit(v, 3), BP.Inverted)
    ensures o4 == NibbleWrites(o, i, v, 4)
  {
    NibbleWritesStep(o, i, v, 0);
    NibbleWritesStep(o, i, v, 1);
    NibbleWritesStep(o, i, v, 2);
    NibbleWritesStep(o, i, v, 3);
  }

  /** Write `k` stores bit `k` of the value at bit 4i+k. */
  lemma {:induction false} NibbleWriteSets(o: seq<bv8>, i: nat, v: int, k: nat)
    requires i < 8 && |o| == 4 && k < 4
    ensures GetBit(NibbleWrites(o, i, v, k + 1), 4 * i + k) == NibbleBit(v, k)
  {
    NibbleWritesStep(o, i, v, k);
    BP.SetBitAt(NibbleWrites(o, i, v, k), 4 * i + k, NibbleBit(v, k), BP.Inverted, 4 * i + k);
  }

  /** Write `k` leaves every other bit alone. */
  lemma {:induction false} NibbleWriteKeeps(o: seq<bv8>, i: nat, v: int, k: nat, q: nat)
    requires i < 8 && |o| == 4 && k < 4 && q < 32 && q != 4 * i + k
    ensures GetBit(NibbleWrites(o, i, v, k + 1), q) == GetBit(NibbleWrites(o, i, v, k), q)
  {
    NibbleWritesStep(o, i, v, k);
    BP.SetBitAt(NibbleWrites(o, i, v, k), 4 * i + k, NibbleBit(v, k), BP.Inverted, q);
  }

  /** The first `k` writes of nibble `i` leave every bit outside 4i..4i+k-1 alone. */
  lemma {:induction false} NibbleWritesKeep(o: seq<bv8>, i: nat, v: int, k: nat, q: nat)
    requires i < 8 && |o| == 4 && k <= 4 && q < 32 && (q < 4 * i || 4 * i + k <= q)
    ensures GetBit(NibbleWrites(o, i, v, k), q) == GetBit(o, q)
  {
    if k > 0 {
      NibbleWritesKeep(o, i, v, k - 1, q);
      NibbleWriteKeeps(o, i, v, k - 1, q);
    }
  }

  /** After the first `k` writes of nibble `i`, bit 4i+j (j < k) is bit `j` of `v`, most
   *  significant first. */
  lemma {:induction false} NibbleWritesSet(o: seq<bv8>, i: nat, v: int, k: nat, j: nat)
    requires i < 8 && |o| == 4 && j < k <= 4
    ensures GetBit(NibbleWrites(o, i, v, k), 4 * i + j) == NibbleBit(v, j)
  {
    if j == k - 1 {
      NibbleWriteSets(o, i, v, j);
    } else {
      NibbleWritesSet(o, i, v, k - 1, j);
      NibbleWriteKeeps(o, i, v, k - 1, 4 * i + j);
    }
  }

  /** After `n` values, bit `j` of nibble `g < n` is bit `j` of value `g`. */
  lemma {:induction false} WriteNibblesIn(vs: seq<int>, n: nat, g: nat, j: nat)
    requires n <= |vs| && n <= 8 && g < n && j < 4
    ensures GetBit(WriteNibbles(vs, n), 4 * g + j) == NibbleBit(vs[g], j)
  {
    WriteNibblesLater(vs, n, g, j);
    WriteNibblesLast(vs, g, j);
  }

  /** Value `g` sets nibble `g` when it is written. */
  lemma {:induction false} WriteNibblesLast(vs: seq<int>, g: nat, j: nat)
    requires g < |vs| && g < 8 && j < 4
    ensures GetBit(WriteNibbles(vs, g + 1), 4 * g + j) == NibbleBit(vs[g], j)
  {
    NibbleWritesSet(WriteNibbles(vs, g), g, vs[g], 4, j);
  }

  /** The values written after value `g` leave nibble `g` alone. */
  lemma {:induction false} WriteNibblesLater(vs: seq<int>, n: nat, g: nat, j: nat)
    requires n <= |vs| && n <= 8 && g < n && j < 4
    ensures GetBit(WriteNibbles(vs, n), 4 * g + j) == GetBit(WriteNibbles(vs, g + 1), 4 * g + j)
  {
    if n > g + 1 {
      WriteNibblesLater(vs, n - 1, g, j);
      NibbleWritesKeep(WriteNibbles(vs, n - 1), n - 1, vs[n - 1], 4, 4 * g + j);
    }
  }

  /** Output bits 4i..4i+3 hold S_i's value for group `i`, most significant bit first. */
  lemma {:induction false} SBoxOutputBits(t: DesTables, input: seq<bv8>, i: nat, j: nat)
    requires i < 8 && j < 4
    ensures GetBit(ApplySBoxes(t, input), 4 * i + j) == NibbleBit(SBoxValue(t, input, i), j)
  {
    WriteNibblesIn(SBoxValues(t, input), 8, i, j);
  }

  /** Output bits 4i..4i+3 depend only on input bits 6i..6i+5. */
  lemma {:induction false} SBoxOutputLocal(t: DesTables, a: seq<bv8>, b: seq<bv8>, i: nat, j: nat)
    requires i < 8 && j < 4
    requires forall k | 0 <= k < 6 :: GroupBit(a, i, k) == GroupBit(b, i, k)
    ensures GetBit(ApplySBoxes(t, a), 4 * i + j) == GetBit(ApplySBoxes(t, b), 4 * i + j)
  {
    SBoxOutputBits(t, a, i, j);
    SBoxOutputBits(t, b, i, j);
    assert Row(a, i) == Row(b, i) by {
      assert GroupBit(a, i, 0) == GroupBit(b, i, 0) && GroupBit(a, i, 5) == GroupBit(b, i, 5);
    }
    assert Column(a, i) == Column(b, i) by {
      assert GroupBit(a, i, 1) == GroupBit(b, i, 1) && GroupBit(a, i, 2) == GroupBit(b, i, 2);
      assert GroupBit(a, i, 3) == GroupBit(b, i, 3) && GroupBit(a, i, 4) == GroupBit(b, i, 4);
    }
  }

  /** The expansion E(R): 48 bits chosen from the 32 of the half-block. */
  function Expanded(t: DesTables, block: seq<bv8>): (x: seq<bv8>)
    requires |block| == 4
    ensures |x| == 6
  {
    OneBasedAccepted(block, t.e, BP.Inverted);
    BP.Permute(block, t.e, BP.Inverted, false).value
  }

  /** Bit `m` of E(R) is bit E[m] of R (1-based). */
  lemma {:induction false} ExpandedBit(t: DesTables, block: seq<bv8>, m: nat)
    requires |block| == 4 && m < 48
    ensures GetBit(Expanded(t, block), m) == GetBit(block, t.e[m] - 1)
  {
    OneBasedAccepted(block, t.e, BP.Inverted);
    BP.PermuteBitAt(block, t.e, BP.Inverted, false, m);
  }

  /** S(E(R) xor K): the 32 bits the S-boxes produce before P. */
  function Substituted(t: DesTables, block: seq<bv8>, roundKey: seq<bv8>): (x: seq<bv8>)
    requires |block| == 4 && |roundKey| == 6
    ensures |x| == 4
  {
    ApplySBoxes(t, Xor(Expanded(t, block), roundKey))
  }

  /** `encryptBlock`: a half-block that is not 4 bytes or a round key that is not 6 bytes is
   *  rejected; otherwise the 4-byte P(S(E(block) xor roundKey)). */
  function F(t: DesTables, block: seq<bv8>, roundKey: seq<bv8>): (r: Result<seq<bv8>>)
    ensures r.Ok? <==> |block| == 4 && |roundKey| == 6
    ensures |block| != 4 ==> r == Err(IllegalArgument("Block must be 4 bytes (32 bits)"))
    ensures |block| == 4 && |roundKey| != 6 ==> r == Err(IllegalArgument("Round key must be 6 bytes (48 bits)"))
    ensures r.Ok? ==> |r.value| == 4
  {
    if |block| != 4 then Err(IllegalArgument("Block must be 4 bytes (32 bits)"))
    else if |roundKey| != 6 then Err(IllegalArgument("Round key must be 6 bytes (48 bits)"))
    else
      var sOut := Substituted(t, block, roundKey);
      OneBasedAccepted(sOut, t.p, BP.Inverted);
      BP.Permute(sOut, t.p, BP.Inverted, false)
  }

  /** Bit `k` of f(R, K) is bit P[k] (1-based) of S(E(R) xor K). */
  lemma {:induction false} FBit(t: DesTables, block: seq<bv8>, roundKey: seq<bv8>, k: nat)
    requires |block| == 4 && |roundKey| == 6 && k < 32
    ensures GetBit(F(t, block, roundKey).value, k) == GetBit(Substituted(t, block, roundKey), t.p[k] - 1)
  {
    var sOut := Substituted(t, block, roundKey);
    OneBasedAccepted(sOut, t.p, BP.Inverted);
    BP.PermuteBitAt(sOut, t.p, BP.Inverted, false, k);
  }

  /** The round function as the value a Feistel network consumes. */
  function AsRoundFunction(t: DesTables): Feistel.RoundFunction
  {
    (block, roundKey) => F(t, block, roundKey)
  }

  /** The loop of `applySBoxes`: per group, read six bits, look up S_i, write four bits. */
  method ApplySBoxesLoop(t: DesTables, input: seq<bv8>) returns (out: seq<bv8>)
    requires |input| == 6
    ensures out == ApplySBoxes(t, input)
  {
    var output := new bv8[4](_ => 0);
    assert output[..] == Zeros(4);
    for i := 0 to 8
      invariant output[..] == WriteNibbles(SBoxValues(t, input), i)
    {
      var b1 := if GetBit(input, 6 * i) == 1 then 1 else 0;
      var b2 := if GetBit(input, 6 * i + 1) == 1 then 1 else 0;
      var b3 := if GetBit(input, 6 * i + 2) == 1 then 1 else 0;
      var b4 := if GetBit(input, 6 * i + 3) == 1 then 1 else 0;
      var b5 := if GetBit(input, 6 * i + 4) == 1 then 1 else 0;
      var b6 := if GetBit(input, 6 * i + 5) == 1 then 1 else 0;
      assert b1 == GroupBit(input, i, 0) && b6 == GroupBit(input, i, 5);
      assert b2 == GroupBit(input, i, 1) && b3 == GroupBit(input, i, 2);
      assert b4 == GroupBit(input, i, 3) && b5 == GroupBit(input, i, 4);
      var row := 2 * b1 + b6;
      var col := 8 * b2 + 4 * b3 + 2 * b4 + b5;
      assert row == Row(input, i) && col == Column(input, i);
      var v := t.sBoxes[i][row][col];
      assert v == SBoxValues(t, input)[i];
      WriteNibbleInPlace(output, i, v);
    }
    out := output[..];
  }

  /** The four `setBit` calls of one loop iteration of `applySBoxes`. */
  method WriteNibbleInPlace(output: array<bv8>, i: nat, v: int)
    requires i < 8 && output.Length == 4
    modifies output
    ensures output[..] == NibbleWrites(old(output[..]), i, v, 4)
  {
    ghost var o := output[..];
    BP.SetBitInPlace(output, 4 * i, NibbleBit(v, 0), BP.Inverted);
    ghost var o1 := output[..];
    BP.SetBitInPlace(output, 4 * i + 1, NibbleBit(v, 1), BP.Inverted);
    ghost var o2 := output[..];
    BP.SetBitInPlace(output, 4 * i + 2, NibbleBit(v, 2), BP.Inverted);
    ghost var o3 := output[..];
    BP.SetBitInPlace(output, 4 * i + 3, NibbleBit(v, 3), BP.Inverted);
    NibbleWritesFour(o, i, v, o1, o2, o3, output[..]);
  }

  /** `encryptBlock`, step by step through the permutation, XOR and S-box routines. */
  method EncryptBlock(t: DesTables, block: seq<bv8>, roundKey: seq<bv8>) returns (r: Result<seq<bv8>>)
    ensures r == F(t, block, roundKey)
  {
    if |block| != 4 {
      return Err(IllegalArgument("Block must be 4 bytes (32 bits)"));
    }
    if |roundKey| != 6 {
      return Err(IllegalArgument("Round key must be 6 bytes (48 bits)"));
    }
    OneBasedAccepted(block, t.e, BP.Inverted);
    var expanded := DesBitPermutation.PermutateBits(block, t.e, BP.Inverted, false);
    var xored := XorLoop(expanded.value, roundKey);
    var sBoxOutput := ApplySBoxesLoop(t, xored);
    r := DesBitPermutation.PermutateBits(sBoxOutput, t.p, BP.Inverted, false);
  }

  /** `decryptBlock` is `encryptBlock`. */
  method DecryptBlock(t: DesTables, block: seq<bv8>, roundKey: seq<bv8>) returns (r: Result<seq<bv8>>)
    ensures r == F(t, block, roundKey)
  {
    r := EncryptBlock(t, block, roundKey);
  }
}
