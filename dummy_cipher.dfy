/** The XOR toy cipher of the cipher framework (lab1/task2-interfaces/src/DummyCipher.java):
 *  byte `i` of a block is XORed with key byte `i mod |key|`. */
module DummyCipher {
  import opened Wrappers

  /** The repeating-key XOR that both directions perform. With an empty key the index
   *  `i % 0` throws on the first byte, so only an empty block passes. */
  function XorWithKey(block: seq<bv8>, key: seq<bv8>): (r: Result<seq<bv8>>)
    ensures r.Ok? <==> |block| == 0 || |key| > 0
    ensures r.Err? ==> r.error == Arithmetic
    ensures r.Ok? ==> |r.value| == |block|
  {
    if |block| > 0 && |key| == 0 then Err(Arithmetic)
    else Ok(seq(|block|, i requires 0 <= i < |block| => block[i] ^ key[i % |key|]))
  }

  /** Byte `i` of the output is the block byte XORed with the key byte `i mod |key|`. */
  lemma {:induction false} XorWithKeyAt(block: seq<bv8>, key: seq<bv8>, i: nat)
    requires |key| > 0 && i < |block|
    ensures XorWithKey(block, key).value[i] == block[i] ^ key[i % |key|]
  {
  }

  /** The same key applied twice gives the block back. */
  lemma {:induction false} XorWithKeyTwice(block: seq<bv8>, key: seq<bv8>)
    requires XorWithKey(block, key).Ok?
    ensures XorWithKey(XorWithKey(block, key).value, key) == Ok(block)
  {
    var c := XorWithKey(block, key).value;
    var d := XorWithKey(c, key).value;
    forall i | 0 <= i < |block|
      ensures d[i] == block[i]
    {
      var k := key[i % |key|];
      assert d[i] == (block[i] ^ k) ^ k;
    }
    assert d == block;
  }

  /** `encrypt`: fails while no encryption key is set. */
  function DummyEncrypt(encryptionKey: Option<seq<bv8>>, block: seq<bv8>): (r: Result<seq<bv8>>)
    ensures encryptionKey.None? ==> r == Err(IllegalState("Encryption key not set"))
    ensures encryptionKey.Some? ==> r == XorWithKey(block, encryptionKey.value)
  {
    if encryptionKey.None? then Err(IllegalState("Encryption key not set"))
    else XorWithKey(block, encryptionKey.value)
  }

  /** `decrypt`: fails while no decryption key is set. */
  function DummyDecrypt(decryptionKey: Option<seq<bv8>>, block: seq<bv8>): (r: Result<seq<bv8>>)
    ensures decryptionKey.None? ==> r == Err(IllegalState("Decryption key not set"))
    ensures decryptionKey.Some? ==> r == XorWithKey(block, decryptionKey.value)
  {
    if decryptionKey.None? then Err(IllegalState("Decryption key not set"))
    else XorWithKey(block, decryptionKey.value)
  }

  /** Decryption under the encryption key undoes encryption. */
  lemma {:induction false} RoundTrip(key: seq<bv8>, block: seq<bv8>)
    requires DummyEncrypt(Some(key), block).Ok?
    ensures DummyDecrypt(Some(key), DummyEncrypt(Some(key), block).value) == Ok(block)
  {
    XorWithKeyTwice(block, key);
  }

  /** Encryption under a fixed key is an involution. */
  lemma {:induction false} EncryptInvolution(key: seq<bv8>, block: seq<bv8>)
    requires DummyEncrypt(Some(key), block).Ok?
    ensures DummyEncrypt(Some(key), DummyEncrypt(Some(key), block).value) == Ok(block)
  {
    XorWithKeyTwice(block, key);
  }

  class DummyCipher {
    var encryptionKey: Option<seq<bv8>>
    var decryptionKey: Option<seq<bv8>>

    constructor()
      ensures encryptionKey == None && decryptionKey == None
    {
      encryptionKey := None;
      decryptionKey := None;
    }

    /** The key is stored by value, so later changes to the caller's array do not reach it. */
    method SetEncryptionKey(key: seq<bv8>)
      modifies this
      ensures encryptionKey == Some(key) && decryptionKey == old(decryptionKey)
    {
      encryptionKey := Some(key);
    }

    method SetDecryptionKey(key: seq<bv8>)
      modifies this
      ensures decryptionKey == Some(key) && encryptionKey == old(encryptionKey)
    {
      decryptionKey := Some(key);
    }

    method Encrypt(block: seq<bv8>) returns (r: Result<seq<bv8>>)
      ensures r == DummyEncrypt(encryptionKey, block)
    {
      if encryptionKey.None? {
        return Err(IllegalState("Encryption key not set"));
      }
      r := XorLoop(block, encryptionKey.value);
    }

    method Decrypt(block: seq<bv8>) returns (r: Result<seq<bv8>>)
      ensures r == DummyDecrypt(decryptionKey, block)
    {
      if decryptionKey.None? {
        return Err(IllegalState("Decryption key not set"));
      }
      r := XorLoop(block, decryptionKey.value);
    }
  }

  /** The loop shared by both directions: a fresh array filled byte by byte. */
  method XorLoop(block: seq<bv8>, key: seq<bv8>) returns (r: Result<seq<bv8>>)
    ensures r == XorWithKey(block, key)
  {
    var result := new bv8[|block|](_ => 0);
    for i := 0 to |block|
      invariant |key| > 0 || i == 0
      invariant forall q | 0 <= q < i :: result[q] == block[q] ^ key[q % |key|]
    {
      if |key| == 0 {
        return Err(Arithmetic);
      }
      result[i] := block[i] ^ key[i % |key|];
    }
    assert result[..] == XorWithKey(block, key).value;
    r := Ok(result[..]);
  }
}
