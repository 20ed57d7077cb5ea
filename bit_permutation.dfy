/** Bit permutation driven by a P-block (lab1/bit-permutation/src/BitPermutation.java).
 *  Output bit `k` is the input bit named by the `k`-th table entry; the table may be
 *  0-based or 1-based, and a 1-based table is detected when it holds no 0. */
module BitPermutation {
  import opened Wrappers
  import opened Bytes
  import opened Bits

  /** Normal: bit 0 of a byte is its least significant bit; Inverted: its most significant. */
  datatype BitIndexMode = Normal | Inverted

  /** Bytes needed to hold `bits` bits. */
  function MinBytes(bits: nat): (r: nat)
    ensures 8 * r >= bits && 8 * r < bits + 8
  {
    (bits + 7) / 8
  }

  lemma {:induction false} MinBytesOfWholeBytes(n: nat)
    ensures MinBytes(8 * n) == n
  {
  }

  /** Position inside its byte of the global bit index `i`. */
  function BitPos(i: nat, mode: BitIndexMode): (p: nat)
    ensures p < 8
    ensures mode == Normal ==> p == i % 8
    ensures mode == Inverted ==> p == 7 - i % 8
  {
    if mode == Inverted then 7 - i % 8 else i % 8
  }

  /** The bit (0 or 1) at global index `i`; an index past the end reads as 0. */
  function GetBit(data: seq<bv8>, i: nat, mode: BitIndexMode): (b: bv8)
    ensures b == 0 || b == 1
  {
    if i < 8 * |data| then Bit(data[i / 8], BitPos(i, mode)) else 0
  }

  lemma {:induction false} DistinctPositions(i: nat, j: nat, mode: BitIndexMode)
    requires i / 8 == j / 8 && i != j
    ensures BitPos(i, mode) != BitPos(j, mode)
  {
  }

  /** Two buffers of the same length with the same bits are equal. */
  lemma {:induction false} BitsDetermineBytes(a: seq<bv8>, b: seq<bv8>, mode: BitIndexMode)
    requires |a| == |b|
    requires forall i: nat | i < 8 * |a| :: GetBit(a, i, mode) == GetBit(b, i, mode)
    ensures a == b
  {
    forall j | 0 <= j < |a|
      ensures a[j] == b[j]
    {
      forall p: nat | p < 8
        ensures Bit(a[j], p) == Bit(b[j], p)
      {
        var i: nat := if mode == Normal then 8 * j + p else 8 * j + 7 - p;
        assert i / 8 == j && BitPos(i, mode) == p;
        assert GetBit(a, i, mode) == GetBit(b, i, mode);
      }
      ByteFromBits(a[j], b[j]);
    }
  }

  /** `data` with bit `i` set to 1 when `value` is 1 and cleared otherwise. */
  function SetBit(data: seq<bv8>, i: nat, value: bv8, mode: BitIndexMode): (r: seq<bv8>)
    requires i < 8 * |data|
    ensures |r| == |data|
  {
    data[i / 8 := ByteWithBit(data[i / 8], BitPos(i, mode), value == 1)]
  }

  /** `SetBit` changes bit `i` to the requested value and leaves every other bit alone. */
  lemma {:induction false} SetBitEffect(data: seq<bv8>, i: nat, value: bv8, mode: BitIndexMode)
    requires i < 8 * |data|
    ensures GetBit(SetBit(data, i, value, mode), i, mode) == (if value == 1 then 1 else 0)
    ensures forall j: nat | j < 8 * |data| && j != i :: GetBit(SetBit(data, i, value, mode), j, mode) == GetBit(data, j, mode)
  {
    SetBitFacts(data, i, value == 1, mode);
  }

  /** The bit `j` of `SetBit(data, i, value)`, one index at a time. */
  lemma {:induction false} SetBitAt(data: seq<bv8>, i: nat, value: bv8, mode: BitIndexMode, j: nat)
    requires i < 8 * |data| && j < 8 * |data|
    ensures GetBit(SetBit(data, i, value, mode), j, mode) == if j == i then (if value == 1 then 1 else 0) else GetBit(data, j, mode)
    ensures j == i && (value == 0 || value == 1) ==> GetBit(SetBit(data, i, value, mode), j, mode) == value
  {
    SetBitFacts(data, i, value == 1, mode);
  }

  lemma {:induction false} SetBitFacts(data: seq<bv8>, i: nat, one: bool, mode: BitIndexMode)
    requires i < 8 * |data|
    ensures GetBit(data[i / 8 := ByteWithBit(data[i / 8], BitPos(i, mode), one)], i, mode) == (if one then 1 else 0)
    ensures forall j: nat | j < 8 * |data| && j != i ::
      GetBit(data[i / 8 := ByteWithBit(data[i / 8], BitPos(i, mode), one)], j, mode) == GetBit(data, j, mode)
  {
    var p := BitPos(i, mode);
    var r := data[i / 8 := ByteWithBit(data[i / 8], p, one)];
    BitOfByteWithBit(data[i / 8], p, p, one);
    forall j: nat | j < 8 * |data| && j != i
      ensures GetBit(r, j, mode) == GetBit(data, j, mode)
    {
      var q := BitPos(j, mode);
      if j / 8 == i / 8 {
        DistinctPositions(i, j, mode);
        BitOfByteWithBit(data[i / 8], p, q, one);
      }
    }
  }

  /** The in-place `setBit` of the source on a result buffer. */
  method SetBitInPlace(a: array<bv8>, i: nat, value: bv8, mode: BitIndexMode)
    requires i < 8 * a.Length
    modifies a
    ensures a[..] == SetBit(old(a[..]), i, value, mode)
  {
    var p := BitPos(i, mode);
    if value == 1 {
      a[i / 8] := a[i / 8] | Mask(p);
    } else {
      a[i / 8] := a[i / 8] & !Mask(p);
    }
  }

  /** The loop of `isZeroIndexed`: does the table hold a 0 entry? */
  method IsZeroIndexed(pBlock: seq<int>) returns (r: bool)
    ensures r <==> 0 in pBlock
  {
    for k := 0 to |pBlock|
      invariant 0 !in pBlock[..k]
    {
      if pBlock[k] == 0 {
        return true;
      }
    }
    assert pBlock[..|pBlock|] == pBlock;
    return false;
  }

  /** Value added to every table entry: -1 for a 1-based table. */
  function SourceOffset(pBlock: seq<int>, zeroIndexed: bool): int
  {
    if !zeroIndexed && 0 !in pBlock then -1 else 0
  }

  /** The first `n` table entries, shifted by `off`, name bits of `data`. */
  predicate PrefixInRange(data: seq<bv8>, pBlock: seq<int>, off: int, n: nat)
    requires n <= |pBlock|
  {
    forall k | 0 <= k < n :: 0 <= pBlock[k] + off < 8 * |data|
  }

  /** Every table entry, shifted by `off`, names a bit of `data`. */
  predicate InRange(data: seq<bv8>, pBlock: seq<int>, off: int)
  {
    PrefixInRange(data, pBlock, off, |pBlock|)
  }

  /** The result buffer after the first `n` iterations of the permutation loop. */
  function Scatter(data: seq<bv8>, pBlock: seq<int>, mode: BitIndexMode, off: int, n: nat): (r: seq<bv8>)
    requires n <= |pBlock| && PrefixInRange(data, pBlock, off, n)
    ensures |r| == MinBytes(|pBlock|)
  {
    if n == 0 then Zeros(MinBytes(|pBlock|))
    else SetBit(Scatter(data, pBlock, mode, off, n - 1), n - 1, GetBit(data, pBlock[n - 1] + off, mode), mode)
  }

  /** After `n` iterations the first `n` output bits are the selected input bits and the rest are zero. */
  lemma {:induction false} ScatterBits(data: seq<bv8>, pBlock: seq<int>, mode: BitIndexMode, off: int, n: nat)
    requires n <= |pBlock| && PrefixInRange(data, pBlock, off, n)
    ensures forall k: nat | k < n :: GetBit(Scatter(data, pBlock, mode, off, n), k, mode) == GetBit(data, pBlock[k] + off, mode)
    ensures forall k: nat | n <= k < 8 * MinBytes(|pBlock|) :: GetBit(Scatter(data, pBlock, mode, off, n), k, mode) == 0
  {
    forall k: nat | k < n
      ensures GetBit(Scatter(data, pBlock, mode, off, n), k, mode) == GetBit(data, pBlock[k] + off, mode)
    {
      ScatterSelected(data, pBlock, mode, off, n, k);
    }
    forall k: nat | n <= k < 8 * MinBytes(|pBlock|)
      ensures GetBit(Scatter(data, pBlock, mode, off, n), k, mode) == 0
    {
      ScatterPadding(data, pBlock, mode, off, n, k);
    }
  }

  /** Bit `k < n` of the buffer after `n` iterations is the input bit the `k`-th entry selects. */
  lemma {:induction false} ScatterSelected(data: seq<bv8>, pBlock: seq<int>, mode: BitIndexMode, off: int, n: nat, k: nat)
    requires n <= |pBlock| && PrefixInRange(data, pBlock, off, n) && k < n
    ensures GetBit(Scatter(data, pBlock, mode, off, n), k, mode) == GetBit(data, pBlock[k] + off, mode)
  {
    if k == n - 1 {
      ScatterLast(data, pBlock, mode, off, n, k);
    } else {
      ScatterKeeps(data, pBlock, mode, off, n, k);
      ScatterSelected(data, pBlock, mode, off, n - 1, k);
    }
  }

  /** Iteration `n - 1` writes the bit its table entry selects. */
  lemma {:induction false} ScatterLast(data: seq<bv8>, pBlock: seq<int>, mode: BitIndexMode, off: int, n: nat, k: nat)
    requires 0 < n <= |pBlock| && PrefixInRange(data, pBlock, off, n) && k == n - 1
    ensures GetBit(Scatter(data, pBlock, mode, off, n), k, mode) == GetBit(data, pBlock[k] + off, mode)
  {
    var prev := Scatter(data, pBlock, mode, off, k);
    SetBitAt(prev, k, GetBit(data, pBlock[k] + off, mode), mode, k);
  }

  /** Iteration `n - 1` leaves every other bit of the buffer as it was. */
  lemma {:induction false} ScatterKeeps(data: seq<bv8>, pBlock: seq<int>, mode: BitIndexMode, off: int, n: nat, k: nat)
    requires 0 < n <= |pBlock| && PrefixInRange(data, pBlock, off, n)
    requires k < 8 * MinBytes(|pBlock|) && k != n - 1
    ensures GetBit(Scatter(data, pBlock, mode, off, n), k, mode) == GetBit(Scatter(data, pBlock, mode, off, n - 1), k, mode)
  {
    var prev := Scatter(data, pBlock, mode, off, n - 1);
    SetBitAt(prev, n - 1, GetBit(data, pBlock[n - 1] + off, mode), mode, k);
  }

  /** Bit `k >= n` of the buffer after `n` iterations is still zero. */
  lemma {:induction false} ScatterPadding(data: seq<bv8>, pBlock: seq<int>, mode: BitIndexMode, off: int, n: nat, k: nat)
    requires n <= |pBlock| && PrefixInRange(data, pBlock, off, n) && n <= k < 8 * MinBytes(|pBlock|)
    ensures GetBit(Scatter(data, pBlock, mode, off, n), k, mode) == 0
  {
    if n == 0 {
      var z := Zeros(MinBytes(|pBlock|));
      assert z[k / 8] == 0;
    } else {
      ScatterKeeps(data, pBlock, mode, off, n, k);
      ScatterPadding(data, pBlock, mode, off, n - 1, k);
    }
  }

  /** The two validation messages of `permutateBits`. */
  const DataEmpty := "Данные не могут быть null или пустыми"
  const PBlockEmpty := "P-блок не может быть null или пустым"

  /** The error for table entry `idx`, whose value is `entry`, naming a bit outside the data. */
  function OutOfRange(idx: nat, entry: int): Error
  {
    IllegalArgument("P-блок выходит за границы: индекс [" + DecimalString(idx) + "], позиция "
                    + SignedDecimalString(entry))
  }

  /** The first table entry at or after `from` that, shifted by `off`, names no bit of `data`. */
  function FirstOutside(data: seq<bv8>, pBlock: seq<int>, off: int, from: nat): (i: nat)
    requires from <= |pBlock| && PrefixInRange(data, pBlock, off, from) && !InRange(data, pBlock, off)
    ensures from <= i < |pBlock|
    ensures PrefixInRange(data, pBlock, off, i)
    ensures !(0 <= pBlock[i] + off < 8 * |data|)
    decreases |pBlock| - from
  {
    if !(0 <= pBlock[from] + off < 8 * |data|) then from
    else FirstOutside(data, pBlock, off, from + 1)
  }

  /** An entry out of range after an in-range prefix is the first one the scan finds. */
  lemma {:induction false} FirstOutsideIs(data: seq<bv8>, pBlock: seq<int>, off: int, from: nat, i: nat)
    requires from <= i < |pBlock| && PrefixInRange(data, pBlock, off, i)
    requires !(0 <= pBlock[i] + off < 8 * |data|)
    ensures FirstOutside(data, pBlock, off, from) == i
    decreases i - from
  {
    if from < i {
      FirstOutsideIs(data, pBlock, off, from + 1, i);
    }
  }

  /** `permutateBits`: an empty buffer, then an empty table, then the first entry naming a bit
   *  outside the data are rejected with the source's messages, the last one reporting that
   *  entry's index and value; otherwise `MinBytes(|pBlock|)` bytes. */
  function Permute(data: seq<bv8>, pBlock: seq<int>, mode: BitIndexMode, zeroIndexed: bool): (r: Result<seq<bv8>>)
    ensures r.Ok? <==> |data| > 0 && |pBlock| > 0 && InRange(data, pBlock, SourceOffset(pBlock, zeroIndexed))
    ensures r.Ok? ==> |r.value| == MinBytes(|pBlock|)
    ensures |data| == 0 ==> r == Err(IllegalArgument(DataEmpty))
    ensures |data| > 0 && |pBlock| == 0 ==> r == Err(IllegalArgument(PBlockEmpty))
    ensures |data| > 0 && |pBlock| > 0 && r.Err? ==>
      exists i | 0 <= i < |pBlock| ::
        PrefixInRange(data, pBlock, SourceOffset(pBlock, zeroIndexed), i) &&
        !(0 <= pBlock[i] + SourceOffset(pBlock, zeroIndexed) < 8 * |data|) &&
        r == Err(OutOfRange(i, pBlock[i]))
  {
    if |data| == 0 then Err(IllegalArgument(DataEmpty))
    else if |pBlock| == 0 then Err(IllegalArgument(PBlockEmpty))
    else
      var off := SourceOffset(pBlock, zeroIndexed);
      if !InRange(data, pBlock, off) then
        var i := FirstOutside(data, pBlock, off, 0);
        Err(OutOfRange(i, pBlock[i]))
      else Ok(Scatter(data, pBlock, mode, off, |pBlock|))
  }

  /** Output bit `k` is input bit `pBlock[k]` (offset applied); the padding bits are zero. */
  lemma {:induction false} PermuteBits(data: seq<bv8>, pBlock: seq<int>, mode: BitIndexMode, zeroIndexed: bool)
    requires Permute(data, pBlock, mode, zeroIndexed).Ok?
    ensures forall k: nat | k < |pBlock| ::
      GetBit(Permute(data, pBlock, mode, zeroIndexed).value, k, mode)
        == GetBit(data, pBlock[k] + SourceOffset(pBlock, zeroIndexed), mode)
    ensures forall k: nat | |pBlock| <= k < 8 * MinBytes(|pBlock|) ::
      GetBit(Permute(data, pBlock, mode, zeroIndexed).value, k, mode) == 0
  {
    ScatterBits(data, pBlock, mode, SourceOffset(pBlock, zeroIndexed), |pBlock|);
  }

  /** One output bit of `Permute`. */
  lemma {:induction false} PermuteBitAt(data: seq<bv8>, pBlock: seq<int>, mode: BitIndexMode, zeroIndexed: bool, k: nat)
    requires Permute(data, pBlock, mode, zeroIndexed).Ok? && k < |pBlock|
    ensures GetBit(Permute(data, pBlock, mode, zeroIndexed).value, k, mode)
      == GetBit(data, pBlock[k] + SourceOffset(pBlock, zeroIndexed), mode)
  {
    PermuteBits(data, pBlock, mode, zeroIndexed);
  }

  /** One padding bit of `Permute`. */
  lemma {:induction false} PermutePaddingAt(data: seq<bv8>, pBlock: seq<int>, mode: BitIndexMode, zeroIndexed: bool, k: nat)
    requires Permute(data, pBlock, mode, zeroIndexed).Ok? && |pBlock| <= k < 8 * MinBytes(|pBlock|)
    ensures GetBit(Permute(data, pBlock, mode, zeroIndexed).value, k, mode) == 0
  {
    PermuteBits(data, pBlock, mode, zeroIndexed);
  }

  /** `permutateBits` as the source runs it: validation, offset detection, then the filling loop. */
  method PermutateBits(data: seq<bv8>, pBlock: seq<int>, mode: BitIndexMode, zeroIndexed: bool)
    returns (r: Result<seq<bv8>>)
    ensures r == Permute(data, pBlock, mode, zeroIndexed)
  {
    if |data| == 0 {
      return Err(IllegalArgument(DataEmpty));
    }
    if |pBlock| == 0 {
      return Err(IllegalArgument(PBlockEmpty));
    }
    var hasZero := IsZeroIndexed(pBlock);
    var off := 0;
    if !zeroIndexed && !hasZero {
      off := -1;
    }
    r := FillResult(data, pBlock, mode, off);
  }

  /** The loop of `permutateBits`: a zeroed buffer receives one bit per table entry, and the
   *  first entry naming a bit outside `data` aborts with the error naming that entry. */
  method FillResult(data: seq<bv8>, pBlock: seq<int>, mode: BitIndexMode, off: int) returns (r: Result<seq<bv8>>)
    ensures InRange(data, pBlock, off) ==> r == Ok(Scatter(data, pBlock, mode, off, |pBlock|))
    ensures !InRange(data, pBlock, off) ==>
      var i := FirstOutside(data, pBlock, off, 0);
      r == Err(OutOfRange(i, pBlock[i]))
  {
    var result := new bv8[MinBytes(|pBlock|)](_ => 0);
    assert result[..] == Zeros(MinBytes(|pBlock|));
    for idx := 0 to |pBlock|
      invariant PrefixInRange(data, pBlock, off, idx)
      invariant result[..] == Scatter(data, pBlock, mode, off, idx)
    {
      var src := pBlock[idx] + off;
      if src < 0 || src >= |data| * 8 {
        FirstOutsideIs(data, pBlock, off, 0, idx);
        return Err(OutOfRange(idx, pBlock[idx]));
      }
      SetBitInPlace(result, idx, GetBit(data, src, mode), mode);
    }
    return Ok(result[..]);
  }

  /** The table `[base, base + 1, ..., base + n - 1]`. */
  function IdentityTable(n: nat, base: int): (t: seq<int>)
    ensures |t| == n && forall k | 0 <= k < n :: t[k] == k + base
  {
    seq(n, k => k + base)
  }

  /** The identity table, 0-based or 1-based, returns the data unchanged in either bit order. */
  lemma {:induction false} PermuteIdentity(data: seq<bv8>, mode: BitIndexMode, base: int, zeroIndexed: bool)
    requires |data| > 0
    requires base == 0 || (base == 1 && !zeroIndexed)
    ensures Permute(data, IdentityTable(8 * |data|, base), mode, zeroIndexed) == Ok(data)
  {
    var t := IdentityTable(8 * |data|, base);
    var off := SourceOffset(t, zeroIndexed);
    assert off == -base by {
      if base == 0 {
        assert t[0] == 0;
      } else {
        assert forall k | 0 <= k < |t| :: t[k] != 0;
      }
    }
    assert InRange(data, t, off);
    var r := Permute(data, t, mode, zeroIndexed);
    var v := r.value;
    MinBytesOfWholeBytes(|data|);
    forall i: nat | i < 8 * |data|
      ensures GetBit(v, i, mode) == GetBit(data, i, mode)
    {
      PermuteBitAt(data, t, mode, zeroIndexed, i);
    }
    BitsDetermineBytes(v, data, mode);
  }

  /** A table `u` that undoes `t` restores the data: output bit `k` of the second pass reads
   *  bit `u[k]` of the first pass, which read input bit `t[u[k]] == k` (offsets applied). */
  lemma {:induction false} PermuteInverse(data: seq<bv8>, t: seq<int>, u: seq<int>, mode: BitIndexMode, zt: bool, zu: bool)
    requires |data| > 0 && |t| == 8 * |data| && |u| == |t|
    requires InRange(data, t, SourceOffset(t, zt))
    requires Undoes(t, u, SourceOffset(t, zt), SourceOffset(u, zu))
    ensures Permute(data, t, mode, zt).Ok?
    ensures Permute(Permute(data, t, mode, zt).value, u, mode, zu) == Ok(data)
  {
    var ot, ou := SourceOffset(t, zt), SourceOffset(u, zu);
    var p := Permute(data, t, mode, zt).value;
    MinBytesOfWholeBytes(|data|);
    assert Permute(p, u, mode, zu).Ok? by {
      assert InRange(p, u, ou);
    }
    var q := Permute(p, u, mode, zu).value;
    forall i: nat | i < 8 * |q|
      ensures GetBit(q, i, mode) == GetBit(data, i, mode)
    {
      var j := u[i] + ou;
      PermuteBitAt(p, u, mode, zu, i);
      PermuteBitAt(data, t, mode, zt, j);
    }
    BitsDetermineBytes(q, data, mode);
  }

  /** `u` undoes `t`: every entry of `u` names an entry of `t` that names `u`'s own position. */
  predicate Undoes(t: seq<int>, u: seq<int>, ot: int, ou: int)
  {
    forall k | 0 <= k < |u| :: 0 <= u[k] + ou < |t| && t[u[k] + ou] + ot == k
  }

  /** A 1-based table (no 0 entry) behaves as the same table shifted down by one and read
   *  0-based: the same bytes, or the same error, except that a rejected entry is reported as
   *  written in each table. */
  lemma {:induction false} OneBasedIsShiftedZeroBased(data: seq<bv8>, t: seq<int>, mode: BitIndexMode)
    requires 0 !in t
    ensures Permute(data, t, mode, false).Ok? <==> Permute(data, ShiftedDown(t), mode, true).Ok?
    ensures Permute(data, t, mode, false).Ok? || |data| == 0 || |t| == 0 ==>
      Permute(data, t, mode, false) == Permute(data, ShiftedDown(t), mode, true)
    ensures |data| > 0 && |t| > 0 && Permute(data, t, mode, false).Err? ==>
      exists i | 0 <= i < |t| ::
        Permute(data, t, mode, false) == Err(OutOfRange(i, t[i])) &&
        Permute(data, ShiftedDown(t), mode, true) == Err(OutOfRange(i, t[i] - 1))
  {
    var s := ShiftedDown(t);
    assert SourceOffset(t, false) == -1 && SourceOffset(s, true) == 0;
    assert InRange(data, t, -1) <==> InRange(data, s, 0) by {
      assert forall k | 0 <= k < |t| :: t[k] - 1 == s[k];
    }
    if Permute(data, t, mode, false).Ok? {
      SameSelectionSameBytes(data, t, s, mode);
    } else if |data| > 0 && |t| > 0 {
      var i := FirstOutside(data, t, -1, 0);
      assert PrefixInRange(data, s, 0, i) by {
        assert forall k | 0 <= k < i :: t[k] - 1 == s[k];
      }
      FirstOutsideIs(data, s, 0, 0, i);
      assert Permute(data, s, mode, true) == Err(OutOfRange(i, t[i] - 1));
    }
  }

  /** Every entry lowered by one. */
  function ShiftedDown(t: seq<int>): (s: seq<int>)
    ensures |s| == |t| && forall k | 0 <= k < |t| :: s[k] == t[k] - 1
  {
    seq(|t|, k requires 0 <= k < |t| => t[k] - 1)
  }

  lemma {:induction false} SameSelectionSameBytes(data: seq<bv8>, t: seq<int>, s: seq<int>, mode: BitIndexMode)
    requires Permute(data, t, mode, false).Ok? && Permute(data, s, mode, true).Ok?
    requires |s| == |t| && SourceOffset(t, false) == -1 && SourceOffset(s, true) == 0
    requires forall k | 0 <= k < |t| :: s[k] == t[k] - 1
    ensures Permute(data, t, mode, false) == Permute(data, s, mode, true)
  {
    var a := Permute(data, t, mode, false).value;
    var b := Permute(data, s, mode, true).value;
    forall i: nat | i < 8 * |a|
      ensures GetBit(a, i, mode) == GetBit(b, i, mode)
    {
      if i < |t| {
        PermuteBitAt(data, t, mode, false, i);
        PermuteBitAt(data, s, mode, true, i);
      } else {
        PermutePaddingAt(data, t, mode, false, i);
        PermutePaddingAt(data, s, mode, true, i);
      }
    }
    BitsDetermineBytes(a, b, mode);
  }
}
