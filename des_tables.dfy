/** The DES constant tables (IP, IP⁻¹, E, P, PC-1, PC-2, the rotation schedule and the eight
 *  S-boxes). Their values live in DESConstants, which is not part of this model; the model
 *  takes any tables of the shapes FIPS PUB 46-3 gives them, with 1-based bit positions. */
module DesTables {
  import BitPermutation

  datatype Tables = Tables(
    ip: seq<int>, ipInv: seq<int>, e: seq<int>, p: seq<int>,
    pc1: seq<int>, pc2: seq<int>, shifts: seq<nat>, sBoxes: seq<seq<seq<int>>>)

  /** `n` entries, each a 1-based position no greater than `hi`. */
  predicate Positions(t: seq<int>, n: nat, hi: int)
  {
    |t| == n && forall k | 0 <= k < n :: 1 <= t[k] <= hi
  }

  /** Eight S-boxes of four rows of sixteen 4-bit values. */
  predicate SBoxesShape(s: seq<seq<seq<int>>>)
  {
    |s| == 8 &&
    forall i | 0 <= i < 8 :: |s[i]| == 4 &&
      forall row | 0 <= row < 4 :: |s[i][row]| == 16 &&
        forall col | 0 <= col < 16 :: 0 <= s[i][row][col] < 16
  }

  predicate WellFormed(t: Tables)
  {
    Positions(t.ip, 64, 64) && Positions(t.ipInv, 64, 64) &&
    Positions(t.e, 48, 32) && Positions(t.p, 32, 32) &&
    Positions(t.pc1, 56, 64) && Positions(t.pc2, 48, 56) &&
    |t.shifts| == 16 && SBoxesShape(t.sBoxes)
  }

  function Ones(n: nat): (s: seq<int>)
    ensures Positions(s, n, 1)
  {
    seq(n, _ => 1)
  }

  type DesTables = t: Tables | WellFormed(t)
    witness Tables(Ones(64), Ones(64), Ones(48), Ones(32), Ones(56), Ones(48),
                   seq(16, _ => 1), seq(8, _ => seq(4, _ => seq(16, _ => 0))))

  /** IP and IP⁻¹ undo each other, read as 1-based tables. */
  predicate InitialPermutationsInverse(t: DesTables)
  {
    BitPermutation.Undoes(t.ip, t.ipInv, -1, -1) && BitPermutation.Undoes(t.ipInv, t.ip, -1, -1)
  }

  /** A 1-based table whose entries name bits of `data` is accepted by the permutation in
   *  its auto-detecting mode and yields `MinBytes(|t|)` bytes. */
  lemma {:induction false} OneBasedAccepted(data: seq<bv8>, t: seq<int>, mode: BitPermutation.BitIndexMode)
    requires |data| > 0 && |t| > 0 && Positions(t, |t|, 8 * |data|)
    ensures BitPermutation.SourceOffset(t, false) == -1
    ensures BitPermutation.Permute(data, t, mode, false).Ok?
    ensures |BitPermutation.Permute(data, t, mode, false).value| == BitPermutation.MinBytes(|t|)
  {
    assert 0 !in t by {
      forall k | 0 <= k < |t| ensures t[k] != 0 { }
    }
  }
}
