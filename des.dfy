/** DES (lab1/task4-des/src/DES.java): the initial permutation IP, the sixteen-round Feistel
 *  network over the DES key schedule and cipher function, and the inverse permutation IP⁻¹
 *  (FIPS PUB 46-3, figure 1). */
module Des {
  import opened Wrappers
  import BP = BitPermutation
  import DesBitPermutation
  import opened DesTables
  import Feistel
  import DesKeySchedule
  import DesRoundFunction

  const KeyError := IllegalArgument("DES key must be 8 bytes (64 bits)")
  const BlockError := IllegalArgument("DES block must be 8 bytes (64 bits)")

  function Schedule(t: DesTables): Feistel.KeySchedule
  {
    DesKeySchedule.AsKeySchedule(t)
  }

  function RoundF(t: DesTables): Feistel.RoundFunction
  {
    DesRoundFunction.AsRoundFunction(t)
  }

  /** IP of an 8-byte block. */
  function Ip(t: DesTables, block: seq<bv8>): (r: seq<bv8>)
    requires |block| == 8
    ensures |r| == 8
  {
    OneBasedAccepted(block, t.ip, BP.Inverted);
    BP.Permute(block, t.ip, BP.Inverted, false).value
  }

  /** IP⁻¹ of an 8-byte block. */
  function IpInv(t: DesTables, block: seq<bv8>): (r: seq<bv8>)
    requires |block| == 8
    ensures |r| == 8
  {
    OneBasedAccepted(block, t.ipInv, BP.Inverted);
    BP.Permute(block, t.ipInv, BP.Inverted, false).value
  }

  /** When the two tables undo each other, IP⁻¹ undoes IP and IP undoes IP⁻¹. */
  lemma {:induction false} IpInverse(t: DesTables, block: seq<bv8>)
    requires InitialPermutationsInverse(t) && |block| == 8
    ensures IpInv(t, Ip(t, block)) == block
    ensures Ip(t, IpInv(t, block)) == block
  {
    OneBasedAccepted(block, t.ip, BP.Inverted);
    OneBasedAccepted(block, t.ipInv, BP.Inverted);
    OneBasedAccepted(Ip(t, block), t.ipInv, BP.Inverted);
    OneBasedAccepted(IpInv(t, block), t.ip, BP.Inverted);
    BP.PermuteInverse(block, t.ip, t.ipInv, BP.Inverted, false, false);
    BP.PermuteInverse(block, t.ipInv, t.ip, BP.Inverted, false, false);
  }

  /** `encrypt`: the block length is checked first, then the Feistel network (which fails
   *  while no encryption key is set) runs between IP and IP⁻¹. */
  function DesEncrypt(t: DesTables, key: Option<seq<bv8>>, block: seq<bv8>): (r: Result<seq<bv8>>)
    ensures |block| != 8 ==> r == Err(BlockError)
    ensures |block| == 8 && key.None? ==> r == Err(IllegalState("Encryption key not set"))
    ensures r.Ok? ==> |r.value| == 8
  {
    if |block| != 8 then Err(BlockError)
    else
      match Feistel.FeistelEncrypt(Schedule(t), RoundF(t), key, Ip(t, block))
      case Err(e) => Err(e)
      case Ok(out) => Ok(IpInv(t, out))
  }

  /** `decrypt`: the same steps with the Feistel decryption in the middle. */
  function DesDecrypt(t: DesTables, key: Option<seq<bv8>>, block: seq<bv8>): (r: Result<seq<bv8>>)
    ensures |block| != 8 ==> r == Err(BlockError)
    ensures |block| == 8 && key.None? ==> r == Err(IllegalState("Decryption key not set"))
    ensures r.Ok? ==> |r.value| == 8
  {
    if |block| != 8 then Err(BlockError)
    else
      match Feistel.FeistelDecrypt(Schedule(t), RoundF(t), key, Ip(t, block))
      case Err(e) => Err(e)
      case Ok(out) => Ok(IpInv(t, out))
  }

  /** Round keys as the DES schedule makes them: every one 6 bytes long. */
  predicate SixByteKeys(keys: seq<seq<bv8>>)
  {
    forall i | 0 <= i < |keys| :: |keys[i]| == 6
  }

  /** With 4-byte halves and 6-byte round keys no round of encryption fails. */
  lemma {:induction false} ForwardDefined(t: DesTables, keys: seq<seq<bv8>>, h: Feistel.Halves)
    requires |h.left| == 4 && |h.right| == 4 && SixByteKeys(keys)
    ensures Feistel.Forward(RoundF(t), keys, h).Ok?
    decreases |keys|
  {
    if keys != [] {
      var out := DesRoundFunction.F(t, h.right, keys[0]);
      assert RoundF(t)(h.right, keys[0]) == out;
      ForwardDefined(t, keys[1..], Feistel.Halves(h.right, Feistel.XorBytes(h.left, out.value).value));
    }
  }

  /** With 4-byte halves and 6-byte round keys no round of decryption fails. */
  lemma {:induction false} BackwardDefined(t: DesTables, keys: seq<seq<bv8>>, h: Feistel.Halves)
    requires |h.left| == 4 && |h.right| == 4 && SixByteKeys(keys)
    ensures Feistel.Backward(RoundF(t), keys, h).Ok?
    decreases |keys|
  {
    if keys != [] {
      var out := DesRoundFunction.F(t, h.right, keys[|keys| - 1]);
      assert RoundF(t)(h.right, keys[|keys| - 1]) == out;
      BackwardDefined(t, keys[..|keys| - 1], Feistel.Halves(h.right, Feistel.XorBytes(h.left, out.value).value));
    }
  }

  /** An 8-byte key gives round keys of 6 bytes. */
  lemma {:induction false} ScheduleDefined(t: DesTables, key: seq<bv8>)
    requires |key| == 8
    ensures Schedule(t)(key).Ok? && SixByteKeys(Schedule(t)(key).value)
  {
    assert Schedule(t)(key) == DesKeySchedule.ExpandKey(t, key);
  }

  /** With an 8-byte key set, an 8-byte block always encrypts. */
  lemma {:induction false} EncryptDefined(t: DesTables, key: seq<bv8>, block: seq<bv8>)
    requires |key| == 8 && |block| == 8
    ensures DesEncrypt(t, Some(key), block).Ok?
  {
    ScheduleDefined(t, key);
    ForwardDefined(t, Schedule(t)(key).value, Feistel.Split(Ip(t, block)));
  }

  /** With an 8-byte key set, an 8-byte block always decrypts. */
  lemma {:induction false} DecryptDefined(t: DesTables, key: seq<bv8>, block: seq<bv8>)
    requires |key| == 8 && |block| == 8
    ensures DesDecrypt(t, Some(key), block).Ok?
  {
    ScheduleDefined(t, key);
    BackwardDefined(t, Schedule(t)(key).value, Feistel.Split(Ip(t, block)));
  }

  /** Decrypting under the key that encrypted gives the block back, provided the two
   *  initial-permutation tables undo each other. */
  lemma {:induction false} RoundTrip(t: DesTables, key: seq<bv8>, block: seq<bv8>)
    requires InitialPermutationsInverse(t) && |key| == 8 && |block| == 8
    ensures DesEncrypt(t, Some(key), block).Ok?
    ensures DesDecrypt(t, Some(key), DesEncrypt(t, Some(key), block).value) == Ok(block)
  {
    EncryptDefined(t, key, block);
    var p := Ip(t, block);
    var mid := Feistel.FeistelEncrypt(Schedule(t), RoundF(t), Some(key), p).value;
    var c := IpInv(t, mid);
    IpInverse(t, mid);
    Feistel.RoundTrip(Schedule(t), RoundF(t), key, p, mid);
    IpInverse(t, block);
  }

  /** The DES object: the tables and the Feistel engine it builds, whose keys it sets only
   *  after checking their length. */
  class Des {
    const tables: DesTables
    const feistel: Feistel.FeistelCipher

    /** Every key the engine holds is 8 bytes long. */
    ghost predicate Valid()
      reads feistel
    {
      feistel.schedule == Schedule(tables) && feistel.f == RoundF(tables) &&
      (feistel.encryptionKey.Some? ==> |feistel.encryptionKey.value| == 8) &&
      (feistel.decryptionKey.Some? ==> |feistel.decryptionKey.value| == 8)
    }

    constructor(t: DesTables)
      ensures tables == t && Valid() && fresh(feistel)
      ensures feistel.encryptionKey == None && feistel.decryptionKey == None
    {
      tables := t;
      feistel := new Feistel.FeistelCipher(Schedule(t), RoundF(t));
    }

    /** `setEncryptionKey`: a key that is not 8 bytes is rejected and nothing changes. */
    method SetEncryptionKey(key: seq<bv8>) returns (r: Result<()>)
      requires Valid()
      modifies feistel
      ensures Valid()
      ensures |key| == 8 ==> r == Ok(()) && feistel.encryptionKey == Some(key)
      ensures |key| != 8 ==> r == Err(KeyError) && feistel.encryptionKey == old(feistel.encryptionKey)
      ensures feistel.decryptionKey == old(feistel.decryptionKey)
    {
      if |key| != 8 {
        return Err(KeyError);
      }
      feistel.SetEncryptionKey(key);
      r := Ok(());
    }

    /** `setDecryptionKey`: a key that is not 8 bytes is rejected and nothing changes. */
    method SetDecryptionKey(key: seq<bv8>) returns (r: Result<()>)
      requires Valid()
      modifies feistel
      ensures Valid()
      ensures |key| == 8 ==> r == Ok(()) && feistel.decryptionKey == Some(key)
      ensures |key| != 8 ==> r == Err(KeyError) && feistel.decryptionKey == old(feistel.decryptionKey)
      ensures feistel.encryptionKey == old(feistel.encryptionKey)
    {
      if |key| != 8 {
        return Err(KeyError);
      }
      feistel.SetDecryptionKey(key);
      r := Ok(());
    }

    method Encrypt(block: seq<bv8>) returns (r: Result<seq<bv8>>)
      requires Valid()
      ensures r == DesEncrypt(tables, feistel.encryptionKey, block)
      ensures feistel.encryptionKey.Some? && |block| == 8 ==> r.Ok?
    {
      if feistel.encryptionKey.Some? && |block| == 8 {
        EncryptDefined(tables, feistel.encryptionKey.value, block);
      }
      if |block| != 8 {
        return Err(BlockError);
      }
      OneBasedAccepted(block, tables.ip, BP.Inverted);
      var permuted := DesBitPermutation.PermutateBits(block, tables.ip, BP.Inverted, false);
      var out := feistel.Encrypt(permuted.value);
      if out.Err? {
        return Err(out.error);
      }
      OneBasedAccepted(out.value, tables.ipInv, BP.Inverted);
      r := DesBitPermutation.PermutateBits(out.value, tables.ipInv, BP.Inverted, false);
    }

    method Decrypt(block: seq<bv8>) returns (r: Result<seq<bv8>>)
      requires Valid()
      ensures r == DesDecrypt(tables, feistel.decryptionKey, block)
      ensures feistel.decryptionKey.Some? && |block| == 8 ==> r.Ok?
    {
      if feistel.decryptionKey.Some? && |block| == 8 {
        DecryptDefined(tables, feistel.decryptionKey.value, block);
      }
      if |block| != 8 {
        return Err(BlockError);
      }
      OneBasedAccepted(block, tables.ip, BP.Inverted);
      var permuted := DesBitPermutation.PermutateBits(block, tables.ip, BP.Inverted, false);
      var out := feistel.Decrypt(permuted.value);
      if out.Err? {
        return Err(out.error);
      }
      OneBasedAccepted(out.value, tables.ipInv, BP.Inverted);
      r := DesBitPermutation.PermutateBits(out.value, tables.ipInv, BP.Inverted, false);
    }
  }
}
