/** DEAL as lab1/task7-deal-file-demo/lib-src/DEAL.java builds it: a Feistel network over
 *  16-byte blocks whose round function is a whole DES encryption (the adapter) and whose
 *  round keys come from the DEAL key schedule. */
module Deal {
  import opened Wrappers
  import opened DesTables
  import Feistel
  import DesAdapter
  import DealKeySchedule

  const BlockSize: nat := 16

  function ShortKeyError(length: nat): Error
  {
    IllegalArgument("DEAL key must be at least 24 bytes (192 bits). Provided: " + DecimalString(length) + " bytes")
  }

  function BlockError(length: nat): Error
  {
    IllegalArgument("DEAL block must be 16 bytes (128 bits). Provided: " + DecimalString(length) + " bytes")
  }

  function Schedule(rounds: nat): Feistel.KeySchedule
  {
    DealKeySchedule.AsKeySchedule(DealKeySchedule.Schedule(rounds))
  }

  /** `encrypt`: a block that is not 16 bytes is rejected; otherwise the Feistel encryption,
   *  which fails while no encryption key is set. */
  function DealEncrypt(t: DesTables, rounds: nat, key: Option<seq<bv8>>, block: seq<bv8>): (r: Result<seq<bv8>>)
    ensures |block| != 16 ==> r == Err(BlockError(|block|))
    ensures |block| == 16 && key.None? ==> r == Err(IllegalState("Encryption key not set"))
    ensures r.Ok? ==> |r.value| == 16
  {
    if |block| != BlockSize then Err(BlockError(|block|))
    else Feistel.FeistelEncrypt(Schedule(rounds), DesAdapter.AsRoundFunction(t), key, block)
  }

  /** `decrypt`: the same check, then the Feistel decryption. */
  function DealDecrypt(t: DesTables, rounds: nat, key: Option<seq<bv8>>, block: seq<bv8>): (r: Result<seq<bv8>>)
    ensures |block| != 16 ==> r == Err(BlockError(|block|))
    ensures |block| == 16 && key.None? ==> r == Err(IllegalState("Decryption key not set"))
    ensures r.Ok? ==> |r.value| == 16
  {
    if |block| != BlockSize then Err(BlockError(|block|))
    else Feistel.FeistelDecrypt(Schedule(rounds), DesAdapter.AsRoundFunction(t), key, block)
  }

  /** Round keys as the DEAL schedule makes them: every one 8 bytes long. */
  predicate EightByteKeys(keys: seq<seq<bv8>>)
  {
    forall i | 0 <= i < |keys| :: |keys[i]| == 8
  }

  /** With 8-byte halves and 8-byte round keys no round of encryption fails. */
  lemma {:induction false} ForwardDefined(t: DesTables, keys: seq<seq<bv8>>, h: Feistel.Halves)
    requires |h.left| == 8 && |h.right| == 8 && EightByteKeys(keys)
    ensures Feistel.Forward(DesAdapter.AsRoundFunction(t), keys, h).Ok?
    decreases |keys|
  {
    if keys != [] {
      var out := DesAdapter.AdapterEncrypt(t, h.right, keys[0]);
      assert DesAdapter.AsRoundFunction(t)(h.right, keys[0]) == out;
      ForwardDefined(t, keys[1..], Feistel.Halves(h.right, Feistel.XorBytes(h.left, out.value).value));
    }
  }

  /** With a key of at least 24 bytes set, a 16-byte block always encrypts. */
  lemma {:induction false} EncryptDefined(t: DesTables, rounds: nat, key: seq<bv8>, block: seq<bv8>)
    requires |key| >= 24 && |block| == 16
    ensures DealEncrypt(t, rounds, Some(key), block).Ok?
  {
    var keys := DealKeySchedule.ExpandKey(DealKeySchedule.Schedule(rounds), key).value;
    assert Schedule(rounds)(key) == Ok(keys);
    ForwardDefined(t, keys, Feistel.Split(block));
  }

  /** With 8-byte halves and 8-byte round keys no round of decryption fails. */
  lemma {:induction false} BackwardDefined(t: DesTables, keys: seq<seq<bv8>>, h: Feistel.Halves)
    requires |h.left| == 8 && |h.right| == 8 && EightByteKeys(keys)
    ensures Feistel.Backward(DesAdapter.AsRoundFunction(t), keys, h).Ok?
    decreases |keys|
  {
    if keys != [] {
      var k := keys[|keys| - 1];
      var out := DesAdapter.AdapterEncrypt(t, h.right, k);
      assert DesAdapter.AsRoundFunction(t)(h.right, k) == out;
      BackwardDefined(t, keys[..|keys| - 1], Feistel.Halves(h.right, Feistel.XorBytes(h.left, out.value).value));
    }
  }

  /** With a key of at least 24 bytes set, a 16-byte block always decrypts. */
  lemma {:induction false} DecryptDefined(t: DesTables, rounds: nat, key: seq<bv8>, block: seq<bv8>)
    requires |key| >= 24 && |block| == 16
    ensures DealDecrypt(t, rounds, Some(key), block).Ok?
  {
    var keys := DealKeySchedule.ExpandKey(DealKeySchedule.Schedule(rounds), key).value;
    assert Schedule(rounds)(key) == Ok(keys);
    BackwardDefined(t, keys, Feistel.Split(block));
  }

  /** For every round count, decryption under the key that encrypted gives the block back.
   *  Unlike DES this needs nothing of the tables: DES only serves as the round function. */
  lemma {:induction false} RoundTrip(t: DesTables, rounds: nat, key: seq<bv8>, block: seq<bv8>)
    requires |key| >= 24 && |block| == 16
    ensures DealEncrypt(t, rounds, Some(key), block).Ok?
    ensures DealDecrypt(t, rounds, Some(key), DealEncrypt(t, rounds, Some(key), block).value) == Ok(block)
  {
    EncryptDefined(t, rounds, key, block);
    var c := DealEncrypt(t, rounds, Some(key), block).value;
    Feistel.RoundTrip(Schedule(rounds), DesAdapter.AsRoundFunction(t), key, block, c);
  }

  /** The DEAL object: a round count, the Feistel engine it builds and the block size. */
  class Deal {
    const tables: DesTables
    const rounds: nat
    const blockSize: nat
    const feistel: Feistel.FeistelCipher

    /** The engine runs the DEAL schedule and the adapter, and holds only keys of at least
     *  24 bytes. */
    ghost predicate Valid()
      reads feistel
    {
      rounds > 0 && blockSize == BlockSize &&
      feistel.schedule == Schedule(rounds) && feistel.f == DesAdapter.AsRoundFunction(tables) &&
      (feistel.encryptionKey.Some? ==> |feistel.encryptionKey.value| >= 24) &&
      (feistel.decryptionKey.Some? ==> |feistel.decryptionKey.value| >= 24)
    }

    constructor Build(t: DesTables, numberOfRounds: nat)
      requires numberOfRounds > 0
      ensures Valid() && tables == t && rounds == numberOfRounds && fresh(feistel)
      ensures feistel.encryptionKey == None && feistel.decryptionKey == None
    {
      tables := t;
      rounds := numberOfRounds;
      blockSize := 16;
      feistel := new Feistel.FeistelCipher(Schedule(numberOfRounds), DesAdapter.AsRoundFunction(t));
    }

    /** `DEAL(int)`: a round count that is not positive is rejected. */
    static method Create(t: DesTables, numberOfRounds: int) returns (r: Result<Deal>)
      ensures r.Ok? <==> numberOfRounds > 0
      ensures r.Err? ==> r.error == IllegalArgument("Number of rounds must be positive")
      ensures r.Ok? ==> fresh(r.value) && fresh(r.value.feistel) && r.value.Valid()
      ensures r.Ok? ==> r.value.tables == t && r.value.rounds == numberOfRounds
      ensures r.Ok? ==> r.value.feistel.encryptionKey == None && r.value.feistel.decryptionKey == None
    {
      if numberOfRounds <= 0 {
        return Err(IllegalArgument("Number of rounds must be positive"));
      }
      var d := new Deal.Build(t, numberOfRounds);
      r := Ok(d);
    }

    /** `DEAL()`: six rounds. */
    static method CreateDefault(t: DesTables) returns (d: Deal)
      ensures fresh(d) && fresh(d.feistel) && d.Valid() && d.tables == t && d.rounds == 6
      ensures d.feistel.encryptionKey == None && d.feistel.decryptionKey == None
    {
      d := new Deal.Build(t, 6);
    }

    /** `setEncryptionKey`: a key shorter than 24 bytes is rejected and nothing changes. */
    method SetEncryptionKey(key: seq<bv8>) returns (r: Result<()>)
      requires Valid()
      modifies feistel
      ensures Valid()
      ensures |key| >= 24 ==> r == Ok(()) && feistel.encryptionKey == Some(key)
      ensures |key| < 24 ==> r == Err(ShortKeyError(|key|)) && feistel.encryptionKey == old(feistel.encryptionKey)
      ensures feistel.decryptionKey == old(feistel.decryptionKey)
    {
      if |key| < 24 {
        return Err(ShortKeyError(|key|));
      }
      feistel.SetEncryptionKey(key);
      r := Ok(());
    }

    /** `setDecryptionKey`: a key shorter than 24 bytes is rejected and nothing changes. */
    method SetDecryptionKey(key: seq<bv8>) returns (r: Result<()>)
      requires Valid()
      modifies feistel
      ensures Valid()
      ensures |key| >= 24 ==> r == Ok(()) && feistel.decryptionKey == Some(key)
      ensures |key| < 24 ==> r == Err(ShortKeyError(|key|)) && feistel.decryptionKey == old(feistel.decryptionKey)
      ensures feistel.encryptionKey == old(feistel.encryptionKey)
    {
      if |key| < 24 {
        return Err(ShortKeyError(|key|));
      }
      feistel.SetDecryptionKey(key);
      r := Ok(());
    }

    method Encrypt(block: seq<bv8>) returns (r: Result<seq<bv8>>)
      requires Valid()
      ensures r == DealEncrypt(tables, rounds, feistel.encryptionKey, block)
      ensures feistel.encryptionKey.Some? && |block| == 16 ==> r.Ok?
    {
      if feistel.encryptionKey.Some? && |block| == 16 {
        EncryptDefined(tables, rounds, feistel.encryptionKey.value, block);
      }
      if |block| != blockSize {
        return Err(BlockError(|block|));
      }
      r := feistel.Encrypt(block);
    }

    method Decrypt(block: seq<bv8>) returns (r: Result<seq<bv8>>)
      requires Valid()
      ensures r == DealDecrypt(tables, rounds, feistel.decryptionKey, block)
      ensures feistel.decryptionKey.Some? && |block| == 16 ==> r.Ok?
    {
      if feistel.decryptionKey.Some? && |block| == 16 {
        DecryptDefined(tables, rounds, feistel.decryptionKey.value, block);
      }
      if |block| != blockSize {
        return Err(BlockError(|block|));
      }
      r := feistel.Decrypt(block);
    }

    method GetBlockSize() returns (n: nat)
      requires Valid()
      ensures n == 16
    {
      n := blockSize;
    }
  }
}
