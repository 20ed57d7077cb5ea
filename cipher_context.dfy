/** The cipher context of lab1/task2-interfaces/src/CipherContext.java: it validates its
 *  arguments, sets the cipher's keys, and runs pad, split, mode and merge to encrypt, and
 *  split, mode, merge and unpad to decrypt. */
module CipherContext {
  import opened Wrappers
  import opened DesTables
  import CipherMode
  import PaddingMode
  import Des

  /** A symmetric cipher as the context drives it: the two key setters, each of which may
   *  reject a key, and encryption and decryption of a block under the key last set. */
  datatype SymmetricCipher = SymmetricCipher(
    setEncryptionKey: seq<bv8> -> Result<()>,
    setDecryptionKey: seq<bv8> -> Result<()>,
    encrypt: (seq<bv8>, seq<bv8>) -> Result<seq<bv8>>,
    decrypt: (seq<bv8>, seq<bv8>) -> Result<seq<bv8>>)

  /** The cipher once both of its keys are `key`: the (E, D) pair the modes consume. */
  function Keyed(c: SymmetricCipher, key: seq<bv8>): CipherMode.BlockCipher
  {
    CipherMode.BlockCipher(block => c.encrypt(key, block), block => c.decrypt(key, block))
  }

  /** The fields of a constructed context. The IV is held by value, so it is the copy the
   *  constructor takes. */
  datatype Context = Context(
    cipher: SymmetricCipher,
    key: seq<bv8>,
    mode: CipherMode.Mode,
    padding: PaddingMode.Padding,
    blockSize: nat,
    iv: Option<seq<bv8>>)
  {
    /** What the constructor guarantees of every context it builds. */
    predicate Valid()
    {
      blockSize > 0 && (CipherMode.RequiresIV(mode) ==> iv.Some? && |iv.value| > 0)
    }

    function Cipher(): CipherMode.BlockCipher
    {
      Keyed(cipher, key)
    }
  }

  predicate Present(a: Option<seq<bv8>>)
  {
    a.Some? && |a.value| > 0
  }

  function MissingIV(mode: CipherMode.Mode): Error
  {
    IllegalArgument("IV is required for " + mode.Name() + " mode")
  }

  /** The constructor. Its checks run in order and the first that fails decides the error: a
   *  null or empty key, a null cipher, mode or padding, a block size that is not positive, and
   *  a null or empty IV for a mode that needs one; then both key setters run, and either may
   *  reject the key. */
  function Create(cipher: Option<SymmetricCipher>, key: Option<seq<bv8>>, mode: Option<CipherMode.Mode>,
                  padding: Option<PaddingMode.Padding>, blockSize: int, iv: Option<seq<bv8>>): (r: Result<Context>)
    ensures !Present(key) ==> r == Err(IllegalArgument("Key cannot be null or empty"))
    ensures Present(key) && cipher.None? ==> r == Err(IllegalArgument("Cipher cannot be null"))
    ensures Present(key) && cipher.Some? && mode.None? ==> r == Err(IllegalArgument("Mode cannot be null"))
    ensures Present(key) && cipher.Some? && mode.Some? && padding.None? ==>
              r == Err(IllegalArgument("Padding cannot be null"))
    ensures Present(key) && cipher.Some? && mode.Some? && padding.Some? && blockSize <= 0 ==>
              r == Err(IllegalArgument("Block size must be positive"))
    ensures (Present(key) && cipher.Some? && mode.Some? && padding.Some? && blockSize > 0 &&
             CipherMode.RequiresIV(mode.value) && !Present(iv)) ==> r == Err(MissingIV(mode.value))
    ensures r.Ok? <==>
              Present(key) && cipher.Some? && mode.Some? && padding.Some? && blockSize > 0 &&
              (CipherMode.RequiresIV(mode.value) ==> Present(iv)) &&
              cipher.value.setEncryptionKey(key.value).Ok? && cipher.value.setDecryptionKey(key.value).Ok?
    ensures r.Ok? ==> r.value.Valid() && r.value == Context(cipher.value, key.value, mode.value, padding.value, blockSize, iv)
  {
    if !Present(key) then Err(IllegalArgument("Key cannot be null or empty"))
    else if cipher.None? then Err(IllegalArgument("Cipher cannot be null"))
    else if mode.None? then Err(IllegalArgument("Mode cannot be null"))
    else if padding.None? then Err(IllegalArgument("Padding cannot be null"))
    else if blockSize <= 0 then Err(IllegalArgument("Block size must be positive"))
    else if CipherMode.RequiresIV(mode.value) && !Present(iv) then Err(MissingIV(mode.value))
    else
      var e := cipher.value.setEncryptionKey(key.value);
      if e.Err? then Err(e.error) else
      var d := cipher.value.setDecryptionKey(key.value);
      if d.Err? then Err(d.error) else
      Ok(Context(cipher.value, key.value, mode.value, padding.value, blockSize, iv))
  }

  // ---------------------------------------------------------------------------------------
  // Splitting and merging

  /** The last byte of block `i` lies inside the data. */
  lemma {:induction false} BlockInBounds(i: nat, bs: nat, len: nat)
    requires bs > 0 && i < len / bs
    ensures (i + 1) * bs <= len && (i + 1) * bs == i * bs + bs
  {
    assert (i + 1) * bs <= (len / bs) * bs;
  }

  /** `splitIntoBlocks`: ⌊len/bs⌋ consecutive slices of exactly bs bytes; a trailing partial
   *  block is dropped, and empty data or a block size that is not positive gives none. */
  function Split(data: seq<bv8>, bs: int): (blocks: seq<seq<bv8>>)
    ensures bs <= 0 || |data| == 0 ==> blocks == []
    ensures bs > 0 ==> |blocks| == |data| / bs
  {
    if bs <= 0 || |data| == 0 then []
    else
      seq(|data| / bs, i requires 0 <= i < |data| / bs =>
        BlockInBounds(i, bs, |data|);
        data[i * bs .. (i + 1) * bs])
  }

  /** Block `i` of the split is bytes i·bs .. (i+1)·bs of the data, so every block has
   *  exactly bs bytes. */
  lemma {:induction false} SplitBlocks(data: seq<bv8>, bs: nat)
    requires bs > 0
    ensures CipherMode.Uniform(Split(data, bs), bs)
    ensures forall i | 0 <= i < |Split(data, bs)| ::
              (i + 1) * bs <= |data| && Split(data, bs)[i] == data[i * bs .. (i + 1) * bs]
  {
    forall i | 0 <= i < |Split(data, bs)|
      ensures (i + 1) * bs <= |data| && Split(data, bs)[i] == data[i * bs .. (i + 1) * bs]
      ensures |Split(data, bs)[i]| == bs
    {
      BlockInBounds(i, bs, |data|);
    }
  }

  /** `mergeBlocks`: the blocks concatenated in order. */
  function Merge(blocks: seq<seq<bv8>>): seq<bv8>
    decreases |blocks|
  {
    if |blocks| == 0 then [] else Merge(blocks[..|blocks| - 1]) + blocks[|blocks| - 1]
  }

  /** The merge of n-byte blocks has n bytes per block. */
  lemma {:induction false} MergeLength(blocks: seq<seq<bv8>>, n: nat)
    requires CipherMode.Uniform(blocks, n)
    ensures |Merge(blocks)| == |blocks| * n
    decreases |blocks|
  {
    if |blocks| > 0 {
      MergeLength(blocks[..|blocks| - 1], n);
    }
  }

  /** Merging a prefix of the blocks gives a prefix of the merge. */
  lemma {:induction false} MergePrefix(blocks: seq<seq<bv8>>, k: nat)
    requires k <= |blocks|
    ensures |Merge(blocks[..k])| <= |Merge(blocks)|
    ensures Merge(blocks)[..|Merge(blocks[..k])|] == Merge(blocks[..k])
    decreases |blocks|
  {
    if k < |blocks| {
      var pre := blocks[..|blocks| - 1];
      MergePrefix(pre, k);
      assert pre[..k] == blocks[..k];
    } else {
      assert blocks[..k] == blocks;
    }
  }

  /** Block `i` of `bs`-byte blocks sits at bytes i·bs .. (i+1)·bs of the merge. */
  lemma {:induction false} MergeAt(blocks: seq<seq<bv8>>, bs: nat, i: nat)
    requires CipherMode.Uniform(blocks, bs) && i < |blocks|
    ensures (i + 1) * bs <= |Merge(blocks)| && Merge(blocks)[i * bs .. (i + 1) * bs] == blocks[i]
    decreases |blocks|
  {
    var pre := blocks[..|blocks| - 1];
    assert CipherMode.Uniform(pre, bs);
    MergeLength(pre, bs);
    if i < |blocks| - 1 {
      MergeAt(pre, bs, i);
    } else {
      assert |Merge(pre)| == i * bs;
    }
  }

  /** Splitting the merge of `bs`-byte blocks gives the blocks back. */
  lemma {:induction false} MergeSplit(blocks: seq<seq<bv8>>, bs: nat)
    requires bs > 0 && CipherMode.Uniform(blocks, bs)
    ensures Split(Merge(blocks), bs) == blocks
  {
    var merged := Merge(blocks);
    MergeLength(blocks, bs);
    assert |merged| / bs == |blocks| by {
      PaddingMode.MultipleMod(|blocks|, bs);
    }
    forall i | 0 <= i < |blocks|
      ensures Split(merged, bs)[i] == blocks[i]
    {
      MergeAt(blocks, bs, i);
    }
  }

  /** Merging the first k split blocks gives the first k·bs bytes. */
  lemma {:induction false} SplitMergePrefix(data: seq<bv8>, bs: nat, k: nat)
    requires bs > 0 && k <= |data| / bs
    ensures k * bs <= |data| && Merge(Split(data, bs)[..k]) == data[..k * bs]
  {
    if k > 0 {
      var blocks := Split(data, bs);
      SplitMergePrefix(data, bs, k - 1);
      SplitBlocks(data, bs);
      BlockInBounds(k - 1, bs, |data|);
      assert blocks[..k][..k - 1] == blocks[..k - 1];
      assert (k - 1) * bs + bs == k * bs;
      assert data[..k * bs] == data[..(k - 1) * bs] + data[(k - 1) * bs .. k * bs];
    } else {
      assert Split(data, bs)[..0] == [];
    }
  }

  /** Merging the split data gives the data up to its last whole block, so the data itself
   *  when its length is a multiple of the block size. */
  lemma {:induction false} SplitMerge(data: seq<bv8>, bs: nat)
    requires bs > 0
    ensures Merge(Split(data, bs)) == data[..|data| / bs * bs]
    ensures |data| % bs == 0 ==> Merge(Split(data, bs)) == data
  {
    var blocks := Split(data, bs);
    SplitMergePrefix(data, bs, |data| / bs);
    assert blocks[..|data| / bs] == blocks;
    assert |data| == |data| / bs * bs + |data| % bs;
  }

  /** The loop of `splitIntoBlocks`, copying one range per block. */
  method SplitIntoBlocks(data: seq<bv8>, bs: int) returns (blocks: seq<seq<bv8>>)
    ensures blocks == Split(data, bs)
  {
    if bs <= 0 || |data| == 0 {
      return [];
    }
    var blockCount := |data| / bs;
    var result := new seq<bv8>[blockCount](_ => []);
    for i := 0 to blockCount
      invariant result[..i] == Split(data, bs)[..i]
    {
      SplitBlocks(data, bs);
      BlockInBounds(i, bs, |data|);
      result[i] := data[i * bs .. (i + 1) * bs];
      assert result[..i + 1] == result[..i] + [result[i]];
      assert Split(data, bs)[..i + 1] == Split(data, bs)[..i] + [Split(data, bs)[i]];
    }
    assert result[..blockCount] == result[..];
    blocks := result[..];
  }

  /** The loops of `mergeBlocks`: one to add up the lengths, one to copy each block at the
   *  running offset. */
  method MergeBlocks(blocks: seq<seq<bv8>>) returns (r: seq<bv8>)
    ensures r == Merge(blocks)
  {
    var totalSize := 0;
    for i := 0 to |blocks|
      invariant totalSize == |Merge(blocks[..i])|
    {
      assert blocks[..i + 1][..i] == blocks[..i];
      totalSize := totalSize + |blocks[i]|;
    }
    assert blocks[..|blocks|] == blocks;
    var result := new bv8[totalSize];
    var offset := 0;
    for i := 0 to |blocks|
      invariant offset == |Merge(blocks[..i])| <= totalSize
      invariant result[..offset] == Merge(blocks[..i])
    {
      var block := blocks[i];
      assert blocks[..i + 1][..i] == blocks[..i];
      assert Merge(blocks[..i + 1]) == Merge(blocks[..i]) + block;
      MergePrefix(blocks, i + 1);
      for j := 0 to |block|
        invariant result[..offset + j] == Merge(blocks[..i]) + block[..j]
      {
        result[offset + j] := block[j];
        assert block[..j + 1] == block[..j] + [block[j]];
      }
      assert block[..|block|] == block;
      offset := offset + |block|;
    }
    assert result[..offset] == result[..];
    r := result[..];
  }

  // ---------------------------------------------------------------------------------------
  // Encryption and decryption

  /** The body of `encryptAsync`: pad, split, encrypt the blocks in the context's mode, merge.
   *  The ISO 10126 filler and the RANDOM_DELTA deltas are the random source's bytes. */
  function Encrypted(ctx: Context, data: seq<bv8>, filler: PaddingMode.Filler, random: CipherMode.RandomBytes): Result<seq<bv8>>
  {
    var padded := PaddingMode.Pad(ctx.padding, data, ctx.blockSize, filler);
    if padded.Err? then Err(padded.error) else
    var blocks := Split(padded.value, ctx.blockSize);
    var encrypted := CipherMode.Encrypt(ctx.mode, ctx.Cipher(), blocks, ctx.iv, random);
    if encrypted.Err? then Err(encrypted.error) else
    Ok(Merge(encrypted.value))
  }

  /** The body of `decryptAsync`: split, decrypt the blocks in the context's mode, merge,
   *  unpad. */
  function Decrypted(ctx: Context, data: seq<bv8>): Result<seq<bv8>>
  {
    var blocks := Split(data, ctx.blockSize);
    var decrypted := CipherMode.Decrypt(ctx.mode, ctx.Cipher(), blocks, ctx.iv);
    if decrypted.Err? then Err(decrypted.error) else
    PaddingMode.Unpad(ctx.padding, Merge(decrypted.value), ctx.blockSize)
  }

  /** The synchronous body of `encryptAsync`, step by step. */
  method EncryptData(ctx: Context, data: seq<bv8>, filler: PaddingMode.Filler, random: CipherMode.RandomBytes)
    returns (r: Result<seq<bv8>>)
    ensures r == Encrypted(ctx, data, filler, random)
  {
    var paddedData := PaddingMode.PadData(ctx.padding, data, ctx.blockSize, filler);
    if paddedData.Err? {
      return Err(paddedData.error);
    }
    var blocks := SplitIntoBlocks(paddedData.value, ctx.blockSize);
    var encryptedBlocks := CipherMode.EncryptBlocks(ctx.mode, ctx.Cipher(), blocks, ctx.iv, random);
    if encryptedBlocks.Err? {
      return Err(encryptedBlocks.error);
    }
    var merged := MergeBlocks(encryptedBlocks.value);
    r := Ok(merged);
  }

  /** The synchronous body of `decryptAsync`, step by step. */
  method DecryptData(ctx: Context, data: seq<bv8>) returns (r: Result<seq<bv8>>)
    ensures r == Decrypted(ctx, data)
  {
    var blocks := SplitIntoBlocks(data, ctx.blockSize);
    var decryptedBlocks := CipherMode.DecryptBlocks(ctx.mode, ctx.Cipher(), blocks, ctx.iv);
    if decryptedBlocks.Err? {
      return Err(decryptedBlocks.error);
    }
    var merged := MergeBlocks(decryptedBlocks.value);
    r := PaddingMode.UnpadData(ctx.padding, merged, ctx.blockSize);
  }

  /** Padding, then splitting, gives whole blocks that merge back to the padded data. */
  lemma {:induction false} PaddedBlocks(ctx: Context, data: seq<bv8>, filler: PaddingMode.Filler)
    requires ctx.blockSize > 0
    ensures var padded := PaddingMode.Pad(ctx.padding, data, ctx.blockSize, filler).value;
            CipherMode.Uniform(Split(padded, ctx.blockSize), ctx.blockSize) &&
            Merge(Split(padded, ctx.blockSize)) == padded
  {
    SplitBlocks(PaddingMode.Pad(ctx.padding, data, ctx.blockSize, filler).value, ctx.blockSize);
    SplitMerge(PaddingMode.Pad(ctx.padding, data, ctx.blockSize, filler).value, ctx.blockSize);
  }

  /** The ciphertext blocks of a chained mode under a length-keeping cipher: each as long
   *  as its plaintext block. */
  lemma {:induction false} CiphertextBlocks(ctx: Context, blocks: seq<seq<bv8>>, random: CipherMode.RandomBytes)
    returns (encrypted: seq<seq<bv8>>)
    requires ctx.blockSize > 0 && ctx.mode != CipherMode.RandomDelta && CipherMode.LengthPreserving(ctx.Cipher())
    requires CipherMode.Uniform(blocks, ctx.blockSize)
    requires CipherMode.Encrypt(ctx.mode, ctx.Cipher(), blocks, ctx.iv, random).Ok?
    ensures CipherMode.Encrypt(ctx.mode, ctx.Cipher(), blocks, ctx.iv, random) == Ok(encrypted)
    ensures |encrypted| == |blocks| && CipherMode.Uniform(encrypted, ctx.blockSize)
  {
    var start := ctx.iv.GetOr([]);
    var run := CipherMode.Run(ctx.mode, CipherMode.Encrypting, ctx.Cipher(), blocks, start);
    assert CipherMode.Encrypt(ctx.mode, ctx.Cipher(), blocks, ctx.iv, random) ==
           CipherMode.Chained(ctx.mode, CipherMode.Encrypting, ctx.Cipher(), blocks, ctx.iv);
    assert run.Ok?;
    encrypted := run.value.outs;
    CipherMode.RunKeepsLengths(ctx.mode, ctx.Cipher(), blocks, start);
  }

  /** With a chained mode (not RANDOM_DELTA) and a cipher that keeps block lengths, the
   *  ciphertext is exactly as long as the padded data, and splits into whole blocks again. */
  lemma {:induction false} EncryptedLength(ctx: Context, data: seq<bv8>, filler: PaddingMode.Filler, random: CipherMode.RandomBytes)
    requires ctx.blockSize > 0 && ctx.mode != CipherMode.RandomDelta && CipherMode.LengthPreserving(ctx.Cipher())
    requires Encrypted(ctx, data, filler, random).Ok?
    ensures |Encrypted(ctx, data, filler, random).value| == |PaddingMode.Pad(ctx.padding, data, ctx.blockSize, filler).value|
    ensures Split(Encrypted(ctx, data, filler, random).value, ctx.blockSize) ==
            CipherMode.Encrypt(ctx.mode, ctx.Cipher(), Split(PaddingMode.Pad(ctx.padding, data, ctx.blockSize, filler).value, ctx.blockSize), ctx.iv, random).value
  {
    var padded := PaddingMode.Pad(ctx.padding, data, ctx.blockSize, filler).value;
    var blocks := Split(padded, ctx.blockSize);
    PaddedBlocks(ctx, data, filler);
    var encrypted := CiphertextBlocks(ctx, blocks, random);
    assert Encrypted(ctx, data, filler, random).value == Merge(encrypted);
    MergeLength(blocks, ctx.blockSize);
    MergeLength(encrypted, ctx.blockSize);
    MergeSplit(encrypted, ctx.blockSize);
  }

  /** Decryption undoes encryption for every chained mode whose needs the cipher meets, every
   *  padding but ZEROS (and ZEROS too when the data is empty or does not end in a zero byte),
   *  and block sizes up to 255, which the count byte can hold. */
  lemma {:induction false} RoundTrip(ctx: Context, data: seq<bv8>, filler: PaddingMode.Filler, random: CipherMode.RandomBytes)
    requires 0 < ctx.blockSize <= 255 && ctx.mode != CipherMode.RandomDelta
    requires CipherMode.Undoable(ctx.mode, ctx.Cipher()) && CipherMode.LengthPreserving(ctx.Cipher())
    requires ctx.padding == PaddingMode.Zeros ==> |data| == 0 || data[|data| - 1] != 0
    requires Encrypted(ctx, data, filler, random).Ok?
    ensures Decrypted(ctx, Encrypted(ctx, data, filler, random).value) == Ok(data)
  {
    var padded := PaddingMode.Pad(ctx.padding, data, ctx.blockSize, filler).value;
    var blocks := Split(padded, ctx.blockSize);
    EncryptedLength(ctx, data, filler, random);
    CipherMode.RoundTrip(ctx.mode, ctx.Cipher(), blocks, ctx.iv, random);
    PaddedBlocks(ctx, data, filler);
    if ctx.padding == PaddingMode.Zeros {
      PaddingMode.ZerosRoundTrip(data, ctx.blockSize, filler);
    } else {
      PaddingMode.RoundTrip(ctx.padding, data, ctx.blockSize, filler);
    }
  }

  // ---------------------------------------------------------------------------------------
  // DES in CBC mode with PKCS7 padding

  /** The DES object seen through its interface: both setters demand 8 bytes, and encryption
   *  and decryption run under the key set. */
  function DesCipher(t: DesTables): SymmetricCipher
  {
    SymmetricCipher(
      key => if |key| != 8 then Err(Des.KeyError) else Ok(()),
      key => if |key| != 8 then Err(Des.KeyError) else Ok(()),
      (key, block) => Des.DesEncrypt(t, Some(key), block),
      (key, block) => Des.DesDecrypt(t, Some(key), block))
  }

  /** Under an 8-byte key, DES decrypts what it encrypts and keeps block lengths. */
  lemma {:induction false} DesKeyed(t: DesTables, key: seq<bv8>)
    requires InitialPermutationsInverse(t) && |key| == 8
    ensures CipherMode.Inverts(Keyed(DesCipher(t), key))
    ensures CipherMode.LengthPreserving(Keyed(DesCipher(t), key))
  {
    var c := Keyed(DesCipher(t), key);
    forall x | c.encrypt(x).Ok?
      ensures c.decrypt(c.encrypt(x).value) == Ok(x) && |c.encrypt(x).value| == |x|
    {
      Des.RoundTrip(t, key, x);
    }
  }

  /** Under an 8-byte key, DES encrypts every 8-byte block to 8 bytes. */
  lemma {:induction false} DesTotal(t: DesTables, key: seq<bv8>)
    requires |key| == 8
    ensures CipherMode.TotalOn(Keyed(DesCipher(t), key), 8)
  {
    var c := Keyed(DesCipher(t), key);
    forall x: seq<bv8> | |x| == 8
      ensures c.encrypt(x).Ok? && |c.encrypt(x).value| == 8
    {
      Des.EncryptDefined(t, key, x);
    }
  }

  function DesCbcPkcs7(t: DesTables, key: seq<bv8>, iv: seq<bv8>): Context
  {
    Context(DesCipher(t), key, CipherMode.CBC, PaddingMode.Pkcs7, 8, Some(iv))
  }

  /** DES in CBC mode encrypts every sequence of 8-byte blocks. */
  lemma {:induction false} DesCbcEncryptsBlocks(t: DesTables, key: seq<bv8>, iv: seq<bv8>, blocks: seq<seq<bv8>>, random: CipherMode.RandomBytes)
    requires |key| == 8 && |iv| >= 8 && CipherMode.Uniform(blocks, 8)
    ensures CipherMode.Encrypt(CipherMode.CBC, Keyed(DesCipher(t), key), blocks, Some(iv), random).Ok?
  {
    DesTotal(t, key);
    CipherMode.CbcEncryptDefined(Keyed(DesCipher(t), key), blocks, iv, 8, random);
  }

  /** The DES, CBC and PKCS7 context encrypts every message. */
  lemma {:induction false} DesCbcPkcs7Encrypts(t: DesTables, key: seq<bv8>, iv: seq<bv8>, data: seq<bv8>,
                            filler: PaddingMode.Filler, random: CipherMode.RandomBytes)
    requires |key| == 8 && |iv| >= 8
    ensures Encrypted(DesCbcPkcs7(t, key, iv), data, filler, random).Ok?
  {
    var ctx := DesCbcPkcs7(t, key, iv);
    var padded := PaddingMode.Pad(ctx.padding, data, 8, filler);
    var blocks := Split(padded.value, 8);
    PaddedBlocks(ctx, data, filler);
    DesCbcEncryptsBlocks(t, key, iv, blocks, random);
  }

  /** A DES context in CBC mode with PKCS7 padding and 8-byte blocks is accepted for every
   *  8-byte key and IV of at least 8 bytes, encrypts every message, and decrypts what it
   *  encrypted. */
  lemma {:induction false} DesCbcPkcs7RoundTrip(t: DesTables, key: seq<bv8>, iv: seq<bv8>, data: seq<bv8>,
                             filler: PaddingMode.Filler, random: CipherMode.RandomBytes)
    requires InitialPermutationsInverse(t) && |key| == 8 && |iv| >= 8
    ensures Create(Some(DesCipher(t)), Some(key), Some(CipherMode.CBC), Some(PaddingMode.Pkcs7), 8, Some(iv)) ==
            Ok(DesCbcPkcs7(t, key, iv))
    ensures Encrypted(DesCbcPkcs7(t, key, iv), data, filler, random).Ok?
    ensures Decrypted(DesCbcPkcs7(t, key, iv), Encrypted(DesCbcPkcs7(t, key, iv), data, filler, random).value) == Ok(data)
  {
    var ctx := DesCbcPkcs7(t, key, iv);
    DesKeyed(t, key);
    DesCbcPkcs7Encrypts(t, key, iv, data, filler, random);
    assert CipherMode.Undoable(ctx.mode, ctx.Cipher());
    RoundTrip(ctx, data, filler, random);
  }
}
