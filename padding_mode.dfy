/** The padding schemes of lab1/task2-interfaces/src/PaddingMode.java: ZEROS, ANSI X.923,
 *  PKCS7 (RFC 5652 section 6.3) and ISO 10126. `pad` extends data to a multiple of the block
 *  size; `unpad` reads the padding back off. */
module PaddingMode {
  import opened Wrappers
  import Bytes

  datatype Padding = Zeros | AnsiX923 | Pkcs7 | Iso10126

  /** The secure random source of ISO 10126 filler: its `j`-th byte. */
  type Filler = nat -> bv8

  /** The number of bytes `pad` appends: bs - len mod bs, which ZEROS turns into 0 when the
   *  data is already aligned and the others leave at a whole block. */
  function PaddingSize(p: Padding, len: nat, bs: nat): (n: nat)
    requires bs > 0
    ensures (len + n) % bs == 0
    ensures p == Zeros ==> n < bs
    ensures p != Zeros ==> 1 <= n <= bs
  {
    AlignUp(len, bs);
    var n := bs - len % bs;
    if p == Zeros && n == bs then 0 else n
  }

  /** The only multiple of bs in [0, bs) is 0. */
  lemma {:induction false} BelowBlock(m: int, bs: nat)
    requires bs > 0 && 0 <= m * bs < bs
    ensures m == 0
  {
  }

  /** A multiple of bs leaves no remainder. */
  lemma {:induction false} MultipleMod(k: int, bs: nat)
    requires bs > 0
    ensures (k * bs) % bs == 0
  {
    var y := k * bs;
    var m := k - y / bs;
    assert y % bs == m * bs;
    BelowBlock(m, bs);
  }

  /** Adding bs - len mod bs to len reaches the next multiple of bs. */
  lemma {:induction false} AlignUp(len: nat, bs: nat)
    requires bs > 0
    ensures (len + (bs - len % bs)) % bs == 0
  {
    var q := len / bs;
    assert len + (bs - len % bs) == (q + 1) * bs;
    MultipleMod(q + 1, bs);
  }

  /** A size below 256 survives the cast to a byte. */
  lemma {:induction false} CountByteSmall(n: nat)
    requires n < 256
    ensures CountByte(n) as nat == n
  {
    assert n % 256 == n;
    SmallCast(n);
  }

  lemma {:induction false} SmallCast(b: int)
    requires 0 <= b < 256
    ensures (b as bv8) as int == b
  {
    assert b % 256 == b;
  }

  /** The count byte of a size read from a byte is that byte. */
  lemma {:induction false} CountByteOf(b: bv8)
    ensures CountByte(b as nat) == b
  {
    var n := b as nat;
    assert n < 256;
    assert n % 256 == n;
  }

  /** The count byte: Java's `(byte) paddingSize`, the size mod 256. */
  function CountByte(n: nat): bv8
  {
    (n % 256) as bv8
  }

  /** The bytes `pad` appends after the data. */
  function PaddingBytes(p: Padding, n: nat, filler: Filler): (tail: seq<bv8>)
    requires p != Zeros ==> n >= 1
    ensures |tail| == n
  {
    match p
    case Zeros => Bytes.Zeros(n)
    case AnsiX923 => Bytes.Zeros(n - 1) + [CountByte(n)]
    case Pkcs7 => seq(n, _ => CountByte(n))
    case Iso10126 => (if n > 1 then seq(n - 1, j requires 0 <= j => filler(j)) else []) + [CountByte(n)]
  }

  /** `pad`: the data followed by the padding; a block size of 0 divides by zero. */
  function Pad(p: Padding, data: seq<bv8>, bs: nat, filler: Filler): (r: Result<seq<bv8>>)
    ensures r.Ok? <==> bs > 0
    ensures r.Err? ==> r.error == Arithmetic
    ensures r.Ok? ==> |data| <= |r.value| && r.value[..|data|] == data && |r.value| % bs == 0
    ensures r.Ok? && p == Zeros ==> |r.value| < |data| + bs
    ensures r.Ok? && p != Zeros ==> |data| < |r.value| <= |data| + bs
  {
    if bs == 0 then Err(Arithmetic)
    else
      var tail := PaddingBytes(p, PaddingSize(p, |data|, bs), filler);
      assert (data + tail)[..|data|] == data;
      Ok(data + tail)
  }

  /** `s[lo..hi]` holds only the byte `v`. */
  predicate Filled(s: seq<bv8>, lo: nat, hi: nat, v: bv8)
    requires hi <= |s|
  {
    forall i | lo <= i < hi :: s[i] == v
  }

  /** ZEROS `unpad`: every trailing zero byte removed. */
  function StripZeros(data: seq<bv8>): (r: seq<bv8>)
    ensures |r| <= |data| && r == data[..|r|]
    ensures Filled(data, |r|, |data|, 0)
    ensures |r| == 0 || r[|r| - 1] != 0
  {
    if |data| > 0 && data[|data| - 1] == 0 then StripZeros(data[..|data| - 1]) else data
  }

  /** `unpad`. ZEROS never fails. The others read the count byte n from the end, reject empty
   *  data and an n larger than the data or the block size, check the filler (ANSI X.923: all
   *  zero before the count byte; PKCS7: all equal to the count byte; ISO 10126: nothing), and
   *  drop the last n bytes. */
  function Unpad(p: Padding, data: seq<bv8>, bs: int): (r: Result<seq<bv8>>)
    ensures p == Zeros ==> r.Ok?
    ensures p != Zeros && |data| == 0 ==> r == Err(IllegalArgument("Empty data"))
    ensures p != Zeros && |data| > 0 && (data[|data| - 1] as int > |data| || data[|data| - 1] as int > bs) ==>
              r == Err(IllegalArgument("Invalid padding"))
    ensures p != Zeros && r.Ok? ==> r.value == data[..|data| - data[|data| - 1] as int]
  {
    if p == Zeros then Ok(StripZeros(data))
    else if |data| == 0 then Err(IllegalArgument("Empty data"))
    else
      var n := data[|data| - 1] as nat;
      if n > |data| || n > bs then Err(IllegalArgument("Invalid padding"))
      else if p == AnsiX923 && !Filled(data, |data| - n, |data| - 1, 0) then
        Err(IllegalArgument("Invalid ANSI X.923 padding"))
      else if p == Pkcs7 && !Filled(data, |data| - n, |data|, data[|data| - 1]) then
        Err(IllegalArgument("Invalid PKCS7 padding"))
      else Ok(data[..|data| - n])
  }

  /** What `pad` produces, byte by byte, when it adds the count byte. */
  lemma {:induction false} PaddedShape(p: Padding, data: seq<bv8>, bs: nat, filler: Filler)
    requires p != Zeros && 0 < bs <= 255
    ensures var padded := Pad(p, data, bs, filler).value;
            var n := PaddingSize(p, |data|, bs);
            |padded| == |data| + n && padded[..|data|] == data &&
            padded[|padded| - 1] as nat == n &&
            forall i | |data| <= i < |padded| :: padded[i] == PaddingBytes(p, n, filler)[i - |data|]
  {
    var n := PaddingSize(p, |data|, bs);
    var tail := PaddingBytes(p, n, filler);
    assert tail[n - 1] == CountByte(n);
    CountByteSmall(n);
  }

  /** PKCS7, ANSI X.923 and ISO 10126 take back exactly what `pad` added, whatever the ISO
   *  filler, for block sizes 1 to 255 (larger sizes do not fit the count byte). */
  lemma {:induction false} RoundTrip(p: Padding, data: seq<bv8>, bs: nat, filler: Filler)
    requires p != Zeros && 0 < bs <= 255
    ensures Unpad(p, Pad(p, data, bs, filler).value, bs) == Ok(data)
  {
    var padded := Pad(p, data, bs, filler).value;
    var n := PaddingSize(p, |data|, bs);
    PaddedShape(p, data, bs, filler);
    assert padded[..|padded| - n] == data;
    if p == AnsiX923 {
      AnsiFiller(data, bs, filler);
    } else if p == Pkcs7 {
      Pkcs7Filler(data, bs, filler);
    }
  }

  /** ANSI X.923 `pad` writes zeros before the count byte. */
  lemma {:induction false} AnsiFiller(data: seq<bv8>, bs: nat, filler: Filler)
    requires 0 < bs <= 255
    ensures var padded := Pad(AnsiX923, data, bs, filler).value;
            var n := PaddingSize(AnsiX923, |data|, bs);
            Filled(padded, |padded| - n, |padded| - 1, 0)
  {
    var padded := Pad(AnsiX923, data, bs, filler).value;
    var n := PaddingSize(AnsiX923, |data|, bs);
    PaddedShape(AnsiX923, data, bs, filler);
    forall i | |padded| - n <= i < |padded| - 1
      ensures padded[i] == 0
    {
      assert padded[i] == PaddingBytes(AnsiX923, n, filler)[i - |data|];
    }
  }

  /** PKCS7 `pad` repeats the count byte. */
  lemma {:induction false} Pkcs7Filler(data: seq<bv8>, bs: nat, filler: Filler)
    requires 0 < bs <= 255
    ensures var padded := Pad(Pkcs7, data, bs, filler).value;
            var n := PaddingSize(Pkcs7, |data|, bs);
            Filled(padded, |padded| - n, |padded|, padded[|padded| - 1])
  {
    var padded := Pad(Pkcs7, data, bs, filler).value;
    var n := PaddingSize(Pkcs7, |data|, bs);
    PaddedShape(Pkcs7, data, bs, filler);
    forall i | |padded| - n <= i < |padded|
      ensures padded[i] == padded[|padded| - 1]
    {
      assert padded[i] == PaddingBytes(Pkcs7, n, filler)[i - |data|];
    }
  }

  /** ANSI X.923 `unpad` rejects a non-zero byte anywhere in the filler run. */
  lemma {:induction false} AnsiRejectsFiller(data: seq<bv8>, bs: int, i: nat)
    requires |data| > 0 && data[|data| - 1] as int <= |data| && data[|data| - 1] as int <= bs
    requires |data| - data[|data| - 1] as int <= i < |data| - 1 && data[i] != 0
    ensures Unpad(AnsiX923, data, bs) == Err(IllegalArgument("Invalid ANSI X.923 padding"))
  {
  }

  /** PKCS7 `unpad` rejects a padding byte that differs from the count byte. */
  lemma {:induction false} Pkcs7RejectsPadding(data: seq<bv8>, bs: int, i: nat)
    requires |data| > 0 && data[|data| - 1] as int <= |data| && data[|data| - 1] as int <= bs
    requires |data| - data[|data| - 1] as int <= i < |data| && data[i] != data[|data| - 1]
    ensures Unpad(Pkcs7, data, bs) == Err(IllegalArgument("Invalid PKCS7 padding"))
  {
  }

  /** A count byte of 0 passes every check, and nothing is removed. */
  lemma {:induction false} ZeroCountAccepted(p: Padding, data: seq<bv8>, bs: int)
    requires p != Zeros && |data| > 0 && data[|data| - 1] == 0 && bs >= 0
    ensures Unpad(p, data, bs) == Ok(data)
  {
    assert data[..|data| - 0] == data;
  }

  /** Appended zeros are stripped again. */
  lemma {:induction false} StripAppendedZeros(data: seq<bv8>, k: nat)
    ensures StripZeros(data + Bytes.Zeros(k)) == StripZeros(data)
  {
    if k > 0 {
      var z := Bytes.Zeros(k);
      assert (data + z)[..|data + z| - 1] == data + Bytes.Zeros(k - 1);
      StripAppendedZeros(data, k - 1);
    } else {
      assert data + Bytes.Zeros(k) == data;
    }
  }

  /** ZEROS round-trips exactly the data that is empty or does not end in a zero byte. */
  lemma {:induction false} ZerosRoundTrip(data: seq<bv8>, bs: nat, filler: Filler)
    requires bs > 0
    ensures Unpad(Zeros, Pad(Zeros, data, bs, filler).value, bs) == Ok(data) <==>
            |data| == 0 || data[|data| - 1] != 0
  {
    StripAppendedZeros(data, PaddingSize(Zeros, |data|, bs));
  }

  // ---------------------------------------------------------------------------------------
  // The methods as the enum constants write them

  /** Copies the data into a fresh zero-filled array of `|data| + n` bytes. */
  method Allocate(data: seq<bv8>, n: nat) returns (padded: array<bv8>)
    ensures fresh(padded) && padded[..] == data + Bytes.Zeros(n)
  {
    padded := new bv8[|data| + n](_ => 0);
    for i := 0 to |data|
      invariant padded[..] == data[..i] + Bytes.Zeros(|data| + n - i)
    {
      padded[i] := data[i];
      assert data[..i + 1] == data[..i] + [data[i]];
    }
    assert data[..|data|] == data;
  }

  /** ZEROS `pad`. */
  method ZerosPad(data: seq<bv8>, bs: nat) returns (r: Result<seq<bv8>>)
    ensures forall filler: Filler :: r == Pad(Zeros, data, bs, filler)
  {
    if bs == 0 {
      return Err(Arithmetic);
    }
    var paddingSize := bs - |data| % bs;
    if paddingSize == bs {
      paddingSize := 0;
    }
    var padded := Allocate(data, paddingSize);
    r := Ok(padded[..]);
  }

  /** ANSI X.923 `pad`: zero filler, then the count byte. */
  method AnsiPad(data: seq<bv8>, bs: nat) returns (r: Result<seq<bv8>>)
    ensures forall filler: Filler :: r == Pad(AnsiX923, data, bs, filler)
  {
    if bs == 0 {
      return Err(Arithmetic);
    }
    var paddingSize := bs - |data| % bs;
    var padded := Allocate(data, paddingSize);
    padded[padded.Length - 1] := CountByte(paddingSize);
    assert padded[..] == data + (Bytes.Zeros(paddingSize - 1) + [CountByte(paddingSize)]);
    r := Ok(padded[..]);
  }

  /** PKCS7 `pad`: every padding byte holds the count. */
  method Pkcs7Pad(data: seq<bv8>, bs: nat) returns (r: Result<seq<bv8>>)
    ensures forall filler: Filler :: r == Pad(Pkcs7, data, bs, filler)
  {
    if bs == 0 {
      return Err(Arithmetic);
    }
    var paddingSize := bs - |data| % bs;
    var padded := Allocate(data, paddingSize);
    for i := |data| to padded.Length
      invariant padded[..|data|] == data
      invariant forall j | |data| <= j < i :: padded[j] == CountByte(paddingSize)
    {
      padded[i] := CountByte(paddingSize);
    }
    assert padded[..] == data + seq(paddingSize, _ => CountByte(paddingSize));
    r := Ok(padded[..]);
  }

  /** ISO 10126 `pad`: random filler, then the count byte. */
  method IsoPad(data: seq<bv8>, bs: nat, filler: Filler) returns (r: Result<seq<bv8>>)
    ensures r == Pad(Iso10126, data, bs, filler)
  {
    if bs == 0 {
      return Err(Arithmetic);
    }
    var paddingSize := bs - |data| % bs;
    var padded := Allocate(data, paddingSize);
    WriteIsoTail(padded, |data|, paddingSize, filler);
    r := Ok(padded[..]);
  }

  /** The ISO 10126 tail written over the last `n` bytes of `a`: `System.arraycopy` of
   *  `n - 1` filler bytes, then the count byte. */
  method WriteIsoTail(a: array<bv8>, start: nat, n: nat, filler: Filler)
    requires n >= 1 && start + n == a.Length
    modifies a
    ensures a[..] == old(a[..start]) + PaddingBytes(Iso10126, n, filler)
  {
    ghost var filled: seq<bv8> := [];
    if n > 1 {
      CopyFiller(a, start, n - 1, filler);
      filled := seq(n - 1, j requires 0 <= j => filler(j));
    }
    assert a[..a.Length - 1] == old(a[..start]) + filled;
    a[a.Length - 1] := CountByte(n);
    assert a[..] == a[..a.Length - 1] + [CountByte(n)];
    assert PaddingBytes(Iso10126, n, filler) == filled + [CountByte(n)];
  }

  /** `System.arraycopy` of the first `count` filler bytes to `start`. */
  method CopyFiller(a: array<bv8>, start: nat, count: nat, filler: Filler)
    requires start + count < a.Length
    modifies a
    ensures a[..start] == old(a[..start]) && a[start + count..] == old(a[start + count..])
    ensures a[start..start + count] == seq(count, j requires 0 <= j => filler(j))
  {
    for j := 0 to count
      invariant a[..start] == old(a[..start]) && a[start + count..] == old(a[start + count..])
      invariant forall q | 0 <= q < j :: a[start + q] == filler(q)
    {
      a[start + j] := filler(j);
    }
  }

  /** ZEROS `unpad`: scans back from the end over zero bytes. */
  method ZerosUnpad(data: seq<bv8>, bs: int) returns (r: Result<seq<bv8>>)
    ensures r == Unpad(Zeros, data, bs)
  {
    var i := |data| - 1;
    assert data[..i + 1] == data;
    while i >= 0 && data[i] == 0
      invariant -1 <= i < |data|
      invariant StripZeros(data[..i + 1]) == StripZeros(data)
    {
      assert data[..i + 1][..i] == data[..i];
      i := i - 1;
    }
    r := Ok(data[..i + 1]);
  }

  /** The checks `unpad` shares across ANSI X.923, PKCS7 and ISO 10126: data present, and a
   *  count no larger than the data or the block size. */
  method ReadCount(data: seq<bv8>, bs: int) returns (r: Result<nat>)
    ensures |data| == 0 ==> r == Err(IllegalArgument("Empty data"))
    ensures |data| > 0 && (data[|data| - 1] as int > |data| || data[|data| - 1] as int > bs) ==>
              r == Err(IllegalArgument("Invalid padding"))
    ensures r.Ok? <==> |data| > 0 && data[|data| - 1] as int <= |data| && data[|data| - 1] as int <= bs
    ensures r.Ok? ==> r.value == data[|data| - 1] as nat
  {
    if |data| == 0 {
      return Err(IllegalArgument("Empty data"));
    }
    var paddingSize := data[|data| - 1] as nat;
    if paddingSize > |data| || paddingSize > bs {
      return Err(IllegalArgument("Invalid padding"));
    }
    r := Ok(paddingSize);
  }

  /** ANSI X.923 `unpad`: every byte of the filler run must be zero. */
  method AnsiUnpad(data: seq<bv8>, bs: int) returns (r: Result<seq<bv8>>)
    ensures r == Unpad(AnsiX923, data, bs)
  {
    var count := ReadCount(data, bs);
    if count.Err? {
      return Err(count.error);
    }
    var paddingSize := count.value;
    var i := |data| - paddingSize;
    while i < |data| - 1
      invariant |data| - paddingSize <= i <= |data|
      invariant Filled(data, |data| - paddingSize, i, 0)
    {
      if data[i] != 0 {
        return Err(IllegalArgument("Invalid ANSI X.923 padding"));
      }
      i := i + 1;
    }
    r := Ok(data[..|data| - paddingSize]);
  }

  /** PKCS7 `unpad`: every padding byte must equal the count byte. */
  method Pkcs7Unpad(data: seq<bv8>, bs: int) returns (r: Result<seq<bv8>>)
    ensures r == Unpad(Pkcs7, data, bs)
  {
    var count := ReadCount(data, bs);
    if count.Err? {
      return Err(count.error);
    }
    var paddingSize := count.value;
    CountByteOf(data[|data| - 1]);
    for i := |data| - paddingSize to |data|
      invariant Filled(data, |data| - paddingSize, i, data[|data| - 1])
    {
      if data[i] != CountByte(paddingSize) {
        return Err(IllegalArgument("Invalid PKCS7 padding"));
      }
    }
    r := Ok(data[..|data| - paddingSize]);
  }

  /** ISO 10126 `unpad`: only the count byte is checked. */
  method IsoUnpad(data: seq<bv8>, bs: int) returns (r: Result<seq<bv8>>)
    ensures r == Unpad(Iso10126, data, bs)
  {
    var count := ReadCount(data, bs);
    if count.Err? {
      return Err(count.error);
    }
    r := Ok(data[..|data| - count.value]);
  }

  /** The enum's `pad`, dispatched on the constant. */
  method PadData(p: Padding, data: seq<bv8>, bs: nat, filler: Filler) returns (r: Result<seq<bv8>>)
    ensures r == Pad(p, data, bs, filler)
  {
    match p
    case Zeros => r := ZerosPad(data, bs);
    case AnsiX923 => r := AnsiPad(data, bs);
    case Pkcs7 => r := Pkcs7Pad(data, bs);
    case Iso10126 => r := IsoPad(data, bs, filler);
  }

  /** The enum's `unpad`, dispatched on the constant. */
  method UnpadData(p: Padding, data: seq<bv8>, bs: int) returns (r: Result<seq<bv8>>)
    ensures r == Unpad(p, data, bs)
  {
    match p
    case Zeros => r := ZerosUnpad(data, bs);
    case AnsiX923 => r := AnsiUnpad(data, bs);
    case Pkcs7 => r := Pkcs7Unpad(data, bs);
    case Iso10126 => r := IsoUnpad(data, bs);
  }
}
