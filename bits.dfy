/** Single bits of a byte: the `(x >> p) & 1` reads and `|= 1 << p` / `&= ~(1 << p)` writes
 *  that the bit-level code of the ciphers performs. */
module Bits {

  /** The single-bit mask `1 << p`. */
  function Mask(p: nat): bv8
    requires p < 8
  {
    if p == 0 then 1 else Mask(p - 1) << 1
  }

  /** Bit `p` (0 = least significant) of byte `x`, as 0 or 1: `(x >> p) & 1`. */
  function Bit(x: bv8, p: nat): bv8
    requires p < 8
  {
    if x & Mask(p) == 0 then 0 else 1
  }

  lemma {:induction false} MaskFacts(x: bv8, m: bv8, n: bv8)
    ensures (x | m) & m == m && (x & !m) & m == 0
    ensures m & n == 0 ==> (x | m) & n == x & n && (x & !m) & n == x & n
  {
  }

  lemma {:induction false} MasksDisjoint(p: nat, q: nat)
    requires p < 8 && q < 8 && p != q
    ensures Mask(p) & Mask(q) == 0
  {
    assert p == 0 || p == 1 || p == 2 || p == 3 || p == 4 || p == 5 || p == 6 || p == 7;
    assert q == 0 || q == 1 || q == 2 || q == 3 || q == 4 || q == 5 || q == 6 || q == 7;
  }

  lemma {:induction false} MaskNonZero(p: nat)
    requires p < 8
    ensures Mask(p) != 0
  {
    assert p == 0 || p == 1 || p == 2 || p == 3 || p == 4 || p == 5 || p == 6 || p == 7;
  }

  /** A byte is determined by its eight bits. */
  lemma {:induction false} ByteFromBits(x: bv8, y: bv8)
    requires forall p: nat | p < 8 :: Bit(x, p) == Bit(y, p)
    ensures x == y
  {
    assert Bit(x, 0) == Bit(y, 0) && Bit(x, 1) == Bit(y, 1) && Bit(x, 2) == Bit(y, 2) && Bit(x, 3) == Bit(y, 3);
    assert Bit(x, 4) == Bit(y, 4) && Bit(x, 5) == Bit(y, 5) && Bit(x, 6) == Bit(y, 6) && Bit(x, 7) == Bit(y, 7);
  }

  /** Byte `x` with bit `p` set (`one`) or cleared. */
  function ByteWithBit(x: bv8, p: nat, one: bool): bv8
    requires p < 8
  {
    if one then x | Mask(p) else x & !Mask(p)
  }

  lemma {:induction false} BitOfByteWithBit(x: bv8, p: nat, q: nat, one: bool)
    requires p < 8 && q < 8
    ensures Bit(ByteWithBit(x, p, one), q) == if q == p then (if one then 1 else 0) else Bit(x, q)
  {
    if q == p {
      MaskNonZero(p);
      MaskFacts(x, Mask(p), 0);
    } else {
      MasksDisjoint(p, q);
      MaskFacts(x, Mask(p), Mask(q));
    }
  }

}
