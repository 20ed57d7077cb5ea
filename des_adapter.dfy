/** The adapter of lab1/task7-deal-file-demo/lib-src/DESAdapter.java: a whole DES encryption
 *  (or decryption) under the round key, used as the round function of a larger Feistel
 *  network. */
module DesAdapter {
  import opened Wrappers
  import opened DesTables
  import Des
  import Feistel

  const BlockError := IllegalArgument("Block must be 8 bytes for DES")
  const RoundKeyError := IllegalArgument("Round key must be 8 bytes for DES")

  /** `encryptBlock`: both arguments must be 8 bytes; then DES encryption of the block under
   *  the round key, which cannot fail. */
  function AdapterEncrypt(t: DesTables, block: seq<bv8>, roundKey: seq<bv8>): (r: Result<seq<bv8>>)
    ensures r.Ok? <==> |block| == 8 && |roundKey| == 8
    ensures |block| != 8 ==> r == Err(BlockError)
    ensures |block| == 8 && |roundKey| != 8 ==> r == Err(RoundKeyError)
    ensures r.Ok? ==> r == Des.DesEncrypt(t, Some(roundKey), block) && |r.value| == 8
  {
    if |block| != 8 then Err(BlockError)
    else if |roundKey| != 8 then Err(RoundKeyError)
    else
      Des.EncryptDefined(t, roundKey, block);
      Des.DesEncrypt(t, Some(roundKey), block)
  }

  /** `decryptBlock`: the same checks, then DES decryption (not encryption) of the block. */
  function AdapterDecrypt(t: DesTables, block: seq<bv8>, roundKey: seq<bv8>): (r: Result<seq<bv8>>)
    ensures r.Ok? <==> |block| == 8 && |roundKey| == 8
    ensures |block| != 8 ==> r == Err(BlockError)
    ensures |block| == 8 && |roundKey| != 8 ==> r == Err(RoundKeyError)
    ensures r.Ok? ==> r == Des.DesDecrypt(t, Some(roundKey), block) && |r.value| == 8
  {
    if |block| != 8 then Err(BlockError)
    else if |roundKey| != 8 then Err(RoundKeyError)
    else
      Des.DecryptDefined(t, roundKey, block);
      Des.DesDecrypt(t, Some(roundKey), block)
  }

  /** `decryptBlock` undoes `encryptBlock` under the same round key. */
  lemma {:induction false} RoundTrip(t: DesTables, block: seq<bv8>, roundKey: seq<bv8>)
    requires InitialPermutationsInverse(t) && |block| == 8 && |roundKey| == 8
    ensures AdapterDecrypt(t, AdapterEncrypt(t, block, roundKey).value, roundKey) == Ok(block)
  {
    Des.RoundTrip(t, roundKey, block);
  }

  /** The adapter as the round function a Feistel network consumes: the network only ever
   *  calls `encryptBlock`. */
  function AsRoundFunction(t: DesTables): Feistel.RoundFunction
  {
    (block, roundKey) => AdapterEncrypt(t, block, roundKey)
  }

  /** The adapter object owns one DES object and overwrites its key on every call. */
  class DesAdapter {
    const des: Des.Des

    ghost predicate Valid()
      reads des.feistel
    {
      des.Valid()
    }

    constructor(t: DesTables)
      ensures Valid() && des.tables == t && fresh(des.feistel)
    {
      des := new Des.Des(t);
    }

    /** The result depends on the block and the round key only, whatever keys earlier calls
     *  left in the DES object. */
    method EncryptBlock(block: seq<bv8>, roundKey: seq<bv8>) returns (r: Result<seq<bv8>>)
      requires Valid()
      modifies des.feistel
      ensures Valid()
      ensures r == AdapterEncrypt(des.tables, block, roundKey)
    {
      if |block| != 8 {
        return Err(BlockError);
      }
      if |roundKey| != 8 {
        return Err(RoundKeyError);
      }
      var _ := des.SetEncryptionKey(roundKey);
      r := des.Encrypt(block);
    }

    method DecryptBlock(block: seq<bv8>, roundKey: seq<bv8>) returns (r: Result<seq<bv8>>)
      requires Valid()
      modifies des.feistel
      ensures Valid()
      ensures r == AdapterDecrypt(des.tables, block, roundKey)
    {
      if |block| != 8 {
        return Err(BlockError);
      }
      if |roundKey| != 8 {
        return Err(RoundKeyError);
      }
      var _ := des.SetDecryptionKey(roundKey);
      r := des.Decrypt(block);
    }
  }
}
