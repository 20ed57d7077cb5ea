/** The DES key schedule of lab1/task5-file-encryption-demo/lib-src/DESKeySchedule.java:
 *  PC-1, the two 28-bit halves C and D rotated left by the schedule's shift counts, their
 *  concatenation and PC-2 (FIPS PUB 46-3, figure 3), with the split into halves exactly as
 *  the code performs it: C is bytes 0..2 of the PC-1 output followed by a zero byte, and D is
 *  bytes 3..6. Bits are numbered from the most significant bit of byte 0. */
module DesKeySchedule {
  import opened Wrappers
  import Bytes
  import BP = BitPermutation
  import DesBitPermutation
  import opened DesTables
  import Feistel

  /** Bit `i` of `data`, most significant first (0 past the end). */
  function BitAt(data: seq<bv8>, i: nat): (b: bv8)
    ensures b == 0 || b == 1
  {
    BP.GetBit(data, i, BP.Inverted)
  }

  /** `getBit(data, i, totalBits)`: indices from `totalBits` on read as 0. */
  function GetBit(data: seq<bv8>, i: nat, total: nat): (b: bv8)
    ensures b == 0 || b == 1
    ensures i >= total ==> b == 0
    ensures i < total ==> b == BitAt(data, i)
  {
    if i >= total then 0 else BitAt(data, i)
  }

  /** `setBit(data, i, value, totalBits)`: indices from `totalBits` on are ignored. */
  function SetBit(data: seq<bv8>, i: nat, value: bv8, total: nat): (r: seq<bv8>)
    requires total <= 8 * |data|
    ensures |r| == |data|
  {
    if i >= total then data else BP.SetBit(data, i, value, BP.Inverted)
  }

  /** `setBit` changes bit `i` (below `totalBits`) to the requested value and no other bit. */
  lemma {:induction false} SetBitEffect(data: seq<bv8>, i: nat, value: bv8, total: nat, q: nat)
    requires total <= 8 * |data| && q < 8 * |data|
    ensures BitAt(SetBit(data, i, value, total), q) ==
      if q == i && i < total then (if value == 1 then 1 else 0) else BitAt(data, q)
  {
    if i < total {
      BP.SetBitAt(data, i, value, BP.Inverted, q);
    }
  }

  /** The buffer after the first `n` passes of the inner loop of `leftShift`, in which pass
   *  `i` copies bit `i + 1` down to bit `i`. */
  function ShiftDown(d: seq<bv8>, total: nat, n: nat): (r: seq<bv8>)
    requires 1 <= total <= 8 * |d| && n < total
    ensures |r| == |d|
  {
    if n == 0 then d
    else
      var p := ShiftDown(d, total, n - 1);
      SetBit(p, n - 1, GetBit(p, n, total), total)
  }

  /** One pass of the outer loop of `leftShift`: bit 0 is saved, bits 1..total-1 move down
   *  one place, and the saved bit goes to position total-1. */
  function RotateOnce(d: seq<bv8>, total: nat): (r: seq<bv8>)
    requires 1 <= total <= 8 * |d|
    ensures |r| == |d|
  {
    SetBit(ShiftDown(d, total, total - 1), total - 1, GetBit(d, 0, total), total)
  }

  /** `leftShift(data, shifts, totalBits)`: `shifts` single rotations of the first
   *  `totalBits` bits. */
  function LeftShift(d: seq<bv8>, shifts: nat, total: nat): (r: seq<bv8>)
    requires 1 <= total <= 8 * |d|
    ensures |r| == |d|
  {
    if shifts == 0 then d else RotateOnce(LeftShift(d, shifts - 1, total), total)
  }

  /** Pass q + 1 of the inner loop copies bit q + 1 down to bit `q`. */
  lemma {:induction false} ShiftDownCopies(d: seq<bv8>, total: nat, q: nat)
    requires 1 <= total <= 8 * |d| && q + 1 < total
    ensures BitAt(ShiftDown(d, total, q + 1), q) == BitAt(ShiftDown(d, total, q), q + 1)
  {
    var p := ShiftDown(d, total, q);
    SetBitEffect(p, q, GetBit(p, q + 1, total), total, q);
  }

  /** Pass `n` of the inner loop changes no bit but bit n-1. */
  lemma {:induction false} ShiftDownKeeps(d: seq<bv8>, total: nat, n: nat, q: nat)
    requires 1 <= total <= 8 * |d| && 0 < n < total && q < 8 * |d| && q != n - 1
    ensures BitAt(ShiftDown(d, total, n), q) == BitAt(ShiftDown(d, total, n - 1), q)
  {
    var p := ShiftDown(d, total, n - 1);
    SetBitEffect(p, n - 1, GetBit(p, n, total), total, q);
  }

  /** After `n` passes, bits 0..n-1 hold the old bits 1..n and the rest are untouched. */
  lemma {:induction false} ShiftDownBit(d: seq<bv8>, total: nat, n: nat, q: nat)
    requires 1 <= total <= 8 * |d| && n < total && q < 8 * |d|
    ensures BitAt(ShiftDown(d, total, n), q) == if q < n then BitAt(d, q + 1) else BitAt(d, q)
  {
    if q < n {
      ShiftDownBelow(d, total, n, q);
    } else {
      ShiftDownAbove(d, total, n, q);
    }
  }

  /** The passes so far have moved bit q + 1 down to each bit `q < n`. */
  lemma {:induction false} ShiftDownBelow(d: seq<bv8>, total: nat, n: nat, q: nat)
    requires 1 <= total <= 8 * |d| && q < n < total
    ensures BitAt(ShiftDown(d, total, n), q) == BitAt(d, q + 1)
  {
    ShiftDownLater(d, total, n, q);
    ShiftDownCopies(d, total, q);
    ShiftDownAbove(d, total, q, q + 1);
  }

  /** The passes after pass q + 1 leave bit `q` alone. */
  lemma {:induction false} ShiftDownLater(d: seq<bv8>, total: nat, n: nat, q: nat)
    requires 1 <= total <= 8 * |d| && q < n < total
    ensures BitAt(ShiftDown(d, total, n), q) == BitAt(ShiftDown(d, total, q + 1), q)
  {
    if n > q + 1 {
      ShiftDownKeeps(d, total, n, q);
      ShiftDownLater(d, total, n - 1, q);
    }
  }

  /** The first `n` passes leave bits `q >= n` alone. */
  lemma {:induction false} ShiftDownAbove(d: seq<bv8>, total: nat, n: nat, q: nat)
    requires 1 <= total <= 8 * |d| && n < total && n <= q < 8 * |d|
    ensures BitAt(ShiftDown(d, total, n), q) == BitAt(d, q)
  {
    if n > 0 {
      ShiftDownKeeps(d, total, n, q);
      ShiftDownAbove(d, total, n - 1, q);
    }
  }

  /** One rotation moves every bit below `total` one place towards bit 0, bit 0 wrapping
   *  round to bit total-1, and leaves the bits from `total` on alone. */
  lemma {:induction false} RotateOnceBit(d: seq<bv8>, total: nat, q: nat)
    requires 1 <= total <= 8 * |d| && q < 8 * |d|
    ensures BitAt(RotateOnce(d, total), q) == BitAt(d, NextBit(q, total))
  {
    var p := ShiftDown(d, total, total - 1);
    ShiftDownBit(d, total, total - 1, q);
    SetBitEffect(p, total - 1, GetBit(d, 0, total), total, q);
  }

  /** The bit that one rotation brings to position `q`. */
  function NextBit(q: nat, total: nat): nat
  {
    if q + 1 < total then q + 1 else if q + 1 == total then 0 else q
  }

  /** The number of bits in each of the halves C and D. */
  const HalfBits: nat := 28

  lemma {:induction false} NextBitMod(q: nat, s: nat)
    requires q < 28 && 1 <= s
    ensures (NextBit(q, HalfBits) + (s - 1)) % 28 == (q + s) % 28
  {
    if q == 27 {
      var x := s - 1;
      assert (x + 28) % 28 == x % 28;
    }
  }

  /** `shifts` rotations bring bit (q + shifts) mod 28 to position q < 28. */
  lemma {:induction false} LeftShiftBitLow(d: seq<bv8>, shifts: nat, q: nat)
    requires 28 <= 8 * |d| && q < 28
    ensures BitAt(LeftShift(d, shifts, HalfBits), q) == BitAt(d, (q + shifts) % 28)
  {
    if shifts > 0 {
      var prev := LeftShift(d, shifts - 1, HalfBits);
      var next := NextBit(q, HalfBits);
      assert next < 28;
      RotateOnceBit(prev, HalfBits, q);
      LeftShiftBitLow(d, shifts - 1, next);
      NextBitMod(q, shifts);
      assert BitAt(prev, next) == BitAt(d, (q + shifts) % 28);
    } else {
      WholeTurns(q, 0);
    }
  }

  /** Rotations leave the bits from 28 on alone. */
  lemma {:induction false} LeftShiftBitHigh(d: seq<bv8>, shifts: nat, q: nat)
    requires 28 <= q < 8 * |d|
    ensures BitAt(LeftShift(d, shifts, HalfBits), q) == BitAt(d, q)
  {
    if shifts > 0 {
      RotateOnceBit(LeftShift(d, shifts - 1, HalfBits), HalfBits, q);
      LeftShiftBitHigh(d, shifts - 1, q);
    }
  }

  /** Shifting by `a` and then by `b` is shifting by `a + b`. */
  lemma {:induction false} LeftShiftAdd(d: seq<bv8>, a: nat, b: nat, total: nat)
    requires 1 <= total <= 8 * |d|
    ensures LeftShift(LeftShift(d, a, total), b, total) == LeftShift(d, a + b, total)
  {
    if b > 0 {
      LeftShiftAdd(d, a, b - 1, total);
    }
  }

  lemma {:induction false} WholeTurns(q: nat, s: nat)
    requires q < 28 && s % 28 == 0
    ensures (q + s) % 28 == q
  {
  }

  lemma {:induction false} FullTurnBit(d: seq<bv8>, shifts: nat, q: nat)
    requires 28 <= 8 * |d| && shifts % 28 == 0 && q < 8 * |d|
    ensures BitAt(LeftShift(d, shifts, HalfBits), q) == BitAt(d, q)
  {
    if q < 28 {
      LeftShiftBitLow(d, shifts, q);
      WholeTurns(q, shifts);
    } else {
      LeftShiftBitHigh(d, shifts, q);
    }
  }

  /** Rotating a 28-bit half by a whole number of turns gives it back. */
  lemma {:induction false} LeftShiftFullTurn(d: seq<bv8>, shifts: nat)
    requires 28 <= 8 * |d| && shifts % 28 == 0
    ensures LeftShift(d, shifts, HalfBits) == d
  {
    var r := LeftShift(d, shifts, HalfBits);
    forall q: nat | q < 8 * |r|
      ensures BP.GetBit(r, q, BP.Inverted) == BP.GetBit(d, q, BP.Inverted)
    {
      FullTurnBit(d, shifts, q);
    }
    BP.BitsDetermineBytes(r, d, BP.Inverted);
  }

  /** One loop of `concatenate` after its first `n` passes: pass `i` copies bit `i` of `src`
   *  (read with bound `srcTotal`) to bit `offset + i` of the result (written with bound
   *  `dstTotal`). */
  function CopyBits(r: seq<bv8>, src: seq<bv8>, srcTotal: nat, dstTotal: nat, offset: nat, n: nat): (out: seq<bv8>)
    requires dstTotal <= 8 * |r|
    ensures |out| == |r|
  {
    if n == 0 then r
    else SetBit(CopyBits(r, src, srcTotal, dstTotal, offset, n - 1), offset + n - 1, GetBit(src, n - 1, srcTotal), dstTotal)
  }

  /** `concatenate(C, D, h)`: a fresh buffer of ceil(2h/8) bytes, C's first h bits at 0..h-1
   *  and D's first h bits at h..2h-1. */
  function Concatenate(c: seq<bv8>, d: seq<bv8>, h: nat): (r: seq<bv8>)
    ensures |r| == BP.MinBytes(2 * h)
  {
    var zero := Bytes.Zeros(BP.MinBytes(2 * h));
    CopyBits(CopyBits(zero, c, h, 2 * h, 0, h), d, h, 2 * h, h, h)
  }

  /** Pass `n` of a copy loop writes one bit and changes nothing else. */
  lemma {:induction false} CopyBitsStep(r: seq<bv8>, src: seq<bv8>, srcTotal: nat, dstTotal: nat, offset: nat, n: nat, q: nat)
    requires dstTotal <= 8 * |r| && 0 < n <= srcTotal && offset + n <= dstTotal && q < 8 * |r|
    ensures BitAt(CopyBits(r, src, srcTotal, dstTotal, offset, n), q) ==
      if q == offset + n - 1 then BitAt(src, n - 1) else BitAt(CopyBits(r, src, srcTotal, dstTotal, offset, n - 1), q)
  {
    var p := CopyBits(r, src, srcTotal, dstTotal, offset, n - 1);
    SetBitEffect(p, offset + n - 1, GetBit(src, n - 1, srcTotal), dstTotal, q);
  }

  /** After `n` passes, bits offset..offset+n-1 are bits 0..n-1 of `src`; others are as before. */
  lemma {:induction false} CopyBitsBit(r: seq<bv8>, src: seq<bv8>, srcTotal: nat, dstTotal: nat, offset: nat, n: nat, q: nat)
    requires dstTotal <= 8 * |r| && n <= srcTotal && offset + n <= dstTotal && q < 8 * |r|
    ensures BitAt(CopyBits(r, src, srcTotal, dstTotal, offset, n), q) ==
      if offset <= q < offset + n then BitAt(src, q - offset) else BitAt(r, q)
  {
    if n > 0 {
      CopyBitsStep(r, src, srcTotal, dstTotal, offset, n, q);
      if q != offset + n - 1 {
        CopyBitsBit(r, src, srcTotal, dstTotal, offset, n - 1, q);
      }
    }
  }

  /** Bit q < 2h of the concatenation is bit q of C below h and bit q - h of D above. */
  lemma {:induction false} ConcatenateBit(c: seq<bv8>, d: seq<bv8>, h: nat, q: nat)
    requires q < 2 * h
    ensures BitAt(Concatenate(c, d, h), q) == if q < h then BitAt(c, q) else BitAt(d, q - h)
  {
    var zero := Bytes.Zeros(BP.MinBytes(2 * h));
    var first := CopyBits(zero, c, h, 2 * h, 0, h);
    CopyBitsBit(first, d, h, 2 * h, h, h, q);
    if q < h {
      CopyBitsBit(zero, c, h, 2 * h, 0, h, q);
    }
  }

  /** A half after the rotations of rounds 0..n-1 (the reassignments of C or D in the loop of
   *  `expandKey`). */
  function Rotated(half: seq<bv8>, shifts: seq<nat>, n: nat): (r: seq<bv8>)
    requires |half| == 4 && n <= |shifts|
    ensures |r| == 4
  {
    if n == 0 then half else LeftShift(Rotated(half, shifts, n - 1), shifts[n - 1], HalfBits)
  }

  function Sum(s: seq<nat>): nat
  {
    if |s| == 0 then 0 else Sum(s[..|s| - 1]) + s[|s| - 1]
  }

  /** Round n's half is the initial half rotated by SHIFTS[0] + ... + SHIFTS[n-1]. */
  lemma {:induction false} RotatedByTotal(half: seq<bv8>, shifts: seq<nat>, n: nat)
    requires |half| == 4 && n <= |shifts|
    ensures Rotated(half, shifts, n) == LeftShift(half, Sum(shifts[..n]), HalfBits)
  {
    if n > 0 {
      RotatedByTotal(half, shifts, n - 1);
      assert shifts[..n][..n - 1] == shifts[..n - 1];
      LeftShiftAdd(half, Sum(shifts[..n - 1]), shifts[n - 1], HalfBits);
    }
  }

  /** PC-1 of the key: 56 bits in 7 bytes. */
  function PermutedKey(t: DesTables, key: seq<bv8>): (pk: seq<bv8>)
    requires |key| == 8
    ensures |pk| == 7
  {
    OneBasedAccepted(key, t.pc1, BP.Inverted);
    BP.Permute(key, t.pc1, BP.Inverted, false).value
  }

  /** The initial C: bytes 0..2 of the PC-1 output, extended by a zero byte. */
  function InitialC(pk: seq<bv8>): (c: seq<bv8>)
    requires |pk| == 7
    ensures |c| == 4
  {
    pk[0..3] + [0]
  }

  /** The initial D: bytes 3..6 of the PC-1 output. */
  function InitialD(pk: seq<bv8>): (d: seq<bv8>)
    requires |pk| == 7
    ensures |d| == 4
  {
    pk[3..7]
  }

  /** Round key `i`: PC-2 of C‖D after the rotations of rounds 0..i. */
  function RoundKey(t: DesTables, c0: seq<bv8>, d0: seq<bv8>, i: nat): (k: seq<bv8>)
    requires |c0| == 4 && |d0| == 4 && i < 16
    ensures |k| == 6
  {
    var cd := Concatenate(Rotated(c0, t.shifts, i + 1), Rotated(d0, t.shifts, i + 1), HalfBits);
    OneBasedAccepted(cd, t.pc2, BP.Inverted);
    BP.Permute(cd, t.pc2, BP.Inverted, false).value
  }

  /** `expandKey`: a key that is not 8 bytes is rejected; otherwise sixteen 6-byte round keys. */
  function ExpandKey(t: DesTables, key: seq<bv8>): (r: Result<seq<seq<bv8>>>)
    ensures r.Ok? <==> |key| == 8
    ensures r.Err? ==> r.error == IllegalArgument("DES key must be 8 bytes")
    ensures r.Ok? ==> |r.value| == 16 && forall i | 0 <= i < 16 :: |r.value[i]| == 6
  {
    if |key| != 8 then Err(IllegalArgument("DES key must be 8 bytes"))
    else
      var pk := PermutedKey(t, key);
      Ok(seq(16, i requires 0 <= i < 16 => RoundKey(t, InitialC(pk), InitialD(pk), i)))
  }

  /** The schedule as the key-schedule value a Feistel network consumes. */
  function AsKeySchedule(t: DesTables): Feistel.KeySchedule
  {
    key => ExpandKey(t, key)
  }

  /** Bit m of the PC-1 output is bit PC1[m] (1-based) of the key. */
  lemma {:induction false} PermutedKeyBit(t: DesTables, key: seq<bv8>, m: nat)
    requires |key| == 8 && m < 56
    ensures BitAt(PermutedKey(t, key), m) == BitAt(key, t.pc1[m] - 1)
  {
    OneBasedAccepted(key, t.pc1, BP.Inverted);
    BP.PermuteBitAt(key, t.pc1, BP.Inverted, false, m);
  }

  /** C starts as PC-1 bits 0..23 followed by four zero bits; D starts as PC-1 bits 24..51. */
  lemma {:induction false} InitialHalvesBits(pk: seq<bv8>, q: nat)
    requires |pk| == 7 && q < 28
    ensures BitAt(InitialC(pk), q) == if q < 24 then BitAt(pk, q) else 0
    ensures BitAt(InitialD(pk), q) == BitAt(pk, 24 + q)
  {
    if q >= 24 {
      assert InitialC(pk)[q / 8] == 0;
    }
  }

  /** Bit k of round key i is bit PC2[k] (1-based) of C‖D, where C and D are the initial
   *  halves rotated left by SHIFTS[0] + ... + SHIFTS[i]. */
  lemma {:induction false} RoundKeyBits(t: DesTables, c0: seq<bv8>, d0: seq<bv8>, i: nat, k: nat)
    requires |c0| == 4 && |d0| == 4 && i < 16 && k < 48
    ensures var total := Sum(t.shifts[..i + 1]);
            var q := t.pc2[k] - 1;
            BitAt(RoundKey(t, c0, d0, i), k) ==
              if q < 28 then BitAt(c0, (q + total) % 28) else BitAt(d0, (q - 28 + total) % 28)
  {
    RoundKeyPc2(t, c0, d0, i, k);
    HalvesBit(c0, d0, t.shifts, i + 1, t.pc2[k] - 1);
  }

  /** Bit q of C‖D after the first n rotations, read from the initial halves. */
  lemma {:induction false} HalvesBit(c0: seq<bv8>, d0: seq<bv8>, shifts: seq<nat>, n: nat, q: nat)
    requires |c0| == 4 && |d0| == 4 && n <= |shifts| && q < 56
    ensures BitAt(Concatenate(Rotated(c0, shifts, n), Rotated(d0, shifts, n), HalfBits), q) ==
              if q < 28 then BitAt(c0, (q + Sum(shifts[..n])) % 28)
              else BitAt(d0, (q - 28 + Sum(shifts[..n])) % 28)
  {
    var cn, dn := Rotated(c0, shifts, n), Rotated(d0, shifts, n);
    ConcatenateBit(cn, dn, HalfBits, q);
    if q < 28 {
      RotatedBit(c0, shifts, n, q);
    } else {
      RotatedBit(d0, shifts, n, q - 28);
    }
  }

  lemma {:induction false} RoundKeyPc2(t: DesTables, c0: seq<bv8>, d0: seq<bv8>, i: nat, k: nat)
    requires |c0| == 4 && |d0| == 4 && i < 16 && k < 48
    ensures BitAt(RoundKey(t, c0, d0, i), k) ==
              BitAt(Concatenate(Rotated(c0, t.shifts, i + 1), Rotated(d0, t.shifts, i + 1), HalfBits), t.pc2[k] - 1)
  {
    var cd := Concatenate(Rotated(c0, t.shifts, i + 1), Rotated(d0, t.shifts, i + 1), HalfBits);
    OneBasedAccepted(cd, t.pc2, BP.Inverted);
    BP.PermuteBitAt(cd, t.pc2, BP.Inverted, false, k);
  }

  lemma {:induction false} RotatedBit(half: seq<bv8>, shifts: seq<nat>, n: nat, q: nat)
    requires |half| == 4 && n <= |shifts| && q < 28
    ensures BitAt(Rotated(half, shifts, n), q) == BitAt(half, (q + Sum(shifts[..n])) % 28)
  {
    RotatedByTotal(half, shifts, n);
    LeftShiftBitLow(half, Sum(shifts[..n]), q);
  }

  /** The same for the round keys `expandKey` returns, from the PC-1 output of the key. */
  lemma {:induction false} RoundKeyBit(t: DesTables, key: seq<bv8>, i: nat, k: nat)
    requires |key| == 8 && i < 16 && k < 48
    ensures var pk := PermutedKey(t, key);
            var total := Sum(t.shifts[..i + 1]);
            var q := t.pc2[k] - 1;
            BitAt(ExpandKey(t, key).value[i], k) ==
              if q < 28 then BitAt(InitialC(pk), (q + total) % 28)
              else BitAt(InitialD(pk), (q - 28 + total) % 28)
  {
    var pk := PermutedKey(t, key);
    assert ExpandKey(t, key).value[i] == RoundKey(t, InitialC(pk), InitialD(pk), i);
    RoundKeyBits(t, InitialC(pk), InitialD(pk), i, k);
  }

  /** `setBit` on the array itself. */
  method SetBitInPlace(data: array<bv8>, i: nat, value: bv8, total: nat)
    requires total <= 8 * data.Length
    modifies data
    ensures data[..] == SetBit(old(data[..]), i, value, total)
  {
    if i < total {
      BP.SetBitInPlace(data, i, value, BP.Inverted);
    }
  }

  /** `leftShift`: a copy of `data` rotated in place, one bit at a time. */
  method LeftShiftLoop(data: seq<bv8>, shifts: nat, total: nat) returns (r: seq<bv8>)
    requires 1 <= total <= 8 * |data|
    ensures r == LeftShift(data, shifts, total)
  {
    var result := new bv8[|data|](k requires 0 <= k < |data| => data[k]);
    assert result[..] == data;
    for s := 0 to shifts
      invariant result[..] == LeftShift(data, s, total)
    {
      RotateInPlace(result, total);
    }
    r := result[..];
  }

  /** One pass of the outer loop of `leftShift`: bit 0 saved, the inner loop moving bits
   *  1..total-1 down one place, and the saved bit written to position total-1. */
  method RotateInPlace(result: array<bv8>, total: nat)
    requires 1 <= total <= 8 * result.Length
    modifies result
    ensures result[..] == RotateOnce(old(result[..]), total)
  {
    ghost var start := result[..];
    var firstBit := GetBit(result[..], 0, total);
    for i := 0 to total - 1
      invariant result[..] == ShiftDown(start, total, i)
    {
      var bit := GetBit(result[..], i + 1, total);
      SetBitInPlace(result, i, bit, total);
    }
    SetBitInPlace(result, total - 1, firstBit, total);
  }

  /** `concatenate`: two copy loops into a fresh zeroed buffer. */
  method ConcatenateLoop(c: seq<bv8>, d: seq<bv8>, h: nat) returns (r: seq<bv8>)
    ensures r == Concatenate(c, d, h)
  {
    var total := 2 * h;
    var result := new bv8[BP.MinBytes(total)](_ => 0);
    assert result[..] == Bytes.Zeros(BP.MinBytes(total));
    CopyLoop(result, c, h, total, 0);
    CopyLoop(result, d, h, total, h);
    r := result[..];
  }

  /** One copy loop of `concatenate`: bits 0..h-1 of `src` to bits offset..offset+h-1. */
  method CopyLoop(result: array<bv8>, src: seq<bv8>, h: nat, total: nat, offset: nat)
    requires total <= 8 * result.Length
    modifies result
    ensures result[..] == CopyBits(old(result[..]), src, h, total, offset, h)
  {
    ghost var start := result[..];
    for i := 0 to h
      invariant result[..] == CopyBits(start, src, h, total, offset, i)
    {
      var bit := GetBit(src, i, h);
      SetBitInPlace(result, i + offset, bit, total);
    }
  }

  /** `expandKey`: the key check and PC-1, then the round loop. */
  method ExpandKeyLoop(t: DesTables, key: seq<bv8>) returns (r: Result<seq<seq<bv8>>>)
    ensures r == ExpandKey(t, key)
  {
    if |key| != 8 {
      return Err(IllegalArgument("DES key must be 8 bytes"));
    }
    OneBasedAccepted(key, t.pc1, BP.Inverted);
    var permuted := DesBitPermutation.PermutateBits(key, t.pc1, BP.Inverted, false);
    var permutedKey := permuted.value;
    assert permutedKey == PermutedKey(t, key);
    var roundKeys := RoundLoop(t, permutedKey[0..3] + [0], permutedKey[3..7]);
    r := Ok(roundKeys);
    assert roundKeys == ExpandKey(t, key).value;
  }

  /** The round loop of `expandKey`: C and D are reassigned once per round and each round key
   *  is stored as soon as it is computed. */
  method RoundLoop(t: DesTables, c0: seq<bv8>, d0: seq<bv8>) returns (keys: seq<seq<bv8>>)
    requires |c0| == 4 && |d0| == 4
    ensures |keys| == 16 && forall i | 0 <= i < 16 :: keys[i] == RoundKey(t, c0, d0, i)
  {
    ghost var expected := seq(16, i requires 0 <= i < 16 => RoundKey(t, c0, d0, i));
    var c, d := c0, d0;
    var roundKeys := new seq<bv8>[16](_ => []);
    for i := 0 to 16
      invariant c == Rotated(c0, t.shifts, i) && d == Rotated(d0, t.shifts, i)
      invariant roundKeys[..i] == expected[..i]
    {
      var roundKey;
      c, d, roundKey := Round(t, c0, d0, i, c, d);
      roundKeys[i] := roundKey;
      assert roundKeys[..i + 1] == expected[..i] + [expected[i]];
    }
    keys := roundKeys[..];
    assert keys == expected[..16];
  }

  /** One round of the loop of `expandKey`: C and D rotated by the round's shift count, and
   *  PC-2 of their concatenation. */
  method Round(t: DesTables, ghost c0: seq<bv8>, ghost d0: seq<bv8>, i: nat, c: seq<bv8>, d: seq<bv8>)
    returns (c': seq<bv8>, d': seq<bv8>, roundKey: seq<bv8>)
    requires |c0| == 4 && |d0| == 4 && i < 16
    requires c == Rotated(c0, t.shifts, i) && d == Rotated(d0, t.shifts, i)
    ensures c' == Rotated(c0, t.shifts, i + 1) && d' == Rotated(d0, t.shifts, i + 1)
    ensures roundKey == RoundKey(t, c0, d0, i)
  {
    c' := LeftShiftLoop(c, t.shifts[i], HalfBits);
    d' := LeftShiftLoop(d, t.shifts[i], HalfBits);
    var cd := ConcatenateLoop(c', d', HalfBits);
    OneBasedAccepted(cd, t.pc2, BP.Inverted);
    var permuted := DesBitPermutation.PermutateBits(cd, t.pc2, BP.Inverted, false);
    roundKey := permuted.value;
  }
}
