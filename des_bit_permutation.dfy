/** The copy of the bit permutation that the DES code calls
 *  (lab1/task4-des/src/BitPermutation.java). Its body is the same as the stand-alone
 *  primitive, so it is modelled as that primitive. */
module DesBitPermutation {
  import opened Wrappers
  import BitPermutation

  /** `permutateBits` of the DES copy: the same validation with the same messages, offset
   *  detection and filling loop, hence the same result as the stand-alone primitive on every
   *  input, errors included. */
  method PermutateBits(data: seq<bv8>, pBlock: seq<int>, mode: BitPermutation.BitIndexMode, zeroIndexed: bool)
    returns (r: Result<seq<bv8>>)
    ensures r == BitPermutation.Permute(data, pBlock, mode, zeroIndexed)
    ensures r.Ok? <==>
      (|data| > 0 && |pBlock| > 0 && BitPermutation.InRange(data, pBlock, BitPermutation.SourceOffset(pBlock, zeroIndexed)))
    ensures r.Ok? ==> |r.value| == BitPermutation.MinBytes(|pBlock|)
  {
    r := BitPermutation.PermutateBits(data, pBlock, mode, zeroIndexed);
  }
}
