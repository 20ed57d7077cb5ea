/** A balanced Feistel network over a key schedule and a round function, the engine inside
 *  DES and DEAL. Both collaborators are values: a key schedule maps a key to its round keys
 *  and a round function maps a half-block and a round key to a half-block; either may fail.
 *
 *  Encryption follows `FeistelCipher.encrypt`. Its `decrypt` as written applies the round
 *  function to the wrong half and does not undo `encrypt` (`FrameworkDecrypt`, with the
 *  counterexample `FrameworkDecryptBreaksRoundTrip`). `FeistelDecrypt` is the evidently
 *  intended inverse, which runs the encryption rounds backwards (`RoundTrip`); the cipher
 *  class, DES and DEAL use it. */
module Feistel {
  import opened Wrappers
  import Bytes

  type KeySchedule = seq<bv8> -> Result<seq<seq<bv8>>>
  type RoundFunction = (seq<bv8>, seq<bv8>) -> Result<seq<bv8>>

  /** The two halves of a block while it passes through the rounds. */
  datatype Halves = Halves(left: seq<bv8>, right: seq<bv8>)

  /** `xorBytes`: the byte-wise XOR of two arrays of equal length. */
  function XorBytes(a: seq<bv8>, b: seq<bv8>): (r: Result<seq<bv8>>)
    ensures r.Ok? <==> |a| == |b|
    ensures r.Ok? ==> |r.value| == |a| && forall i | 0 <= i < |a| :: r.value[i] == a[i] ^ b[i]
    ensures !r.Ok? ==> r == Err(IllegalArgument("Arrays must have equal length"))
  {
    if |a| != |b| then Err(IllegalArgument("Arrays must have equal length")) else Ok(Bytes.Xor(a, b))
  }

  /** One round: (L, R) becomes (R, L xor F(R, k)). */
  function Round(f: RoundFunction, h: Halves, k: seq<bv8>): Result<Halves>
  {
    match f(h.right, k)
    case Err(e) => Err(e)
    case Ok(out) =>
      match XorBytes(h.left, out)
      case Err(e) => Err(e)
      case Ok(x) => Ok(Halves(h.right, x))
  }

  /** The rounds of encryption: the round keys in order, first to last. Equal halves stay
   *  equal and keep their length. */
  function Forward(f: RoundFunction, keys: seq<seq<bv8>>, h: Halves): (r: Result<Halves>)
    ensures r.Ok? && |h.left| == |h.right| ==> |r.value.left| == |h.left| && |r.value.right| == |h.left|
    decreases |keys|
  {
    if keys == [] then Ok(h)
    else
      match Round(f, h, keys[0])
      case Err(e) => Err(e)
      case Ok(h1) => Forward(f, keys[1..], h1)
  }

  /** The rounds of decryption: the same round, with the round keys last to first. */
  function Backward(f: RoundFunction, keys: seq<seq<bv8>>, h: Halves): (r: Result<Halves>)
    ensures r.Ok? && |h.left| == |h.right| ==> |r.value.left| == |h.left| && |r.value.right| == |h.left|
    decreases |keys|
  {
    if keys == [] then Ok(h)
    else
      match Round(f, h, keys[|keys| - 1])
      case Err(e) => Err(e)
      case Ok(h1) => Backward(f, keys[..|keys| - 1], h1)
  }

  /** A one-round continuation of a possibly failed computation. */
  function ThenRound(f: RoundFunction, r: Result<Halves>, k: seq<bv8>): Result<Halves>
  {
    match r
    case Err(e) => Err(e)
    case Ok(h) => Round(f, h, k)
  }

  function Split(block: seq<bv8>): Halves
  {
    Halves(block[..|block| / 2], block[|block| / 2..])
  }

  /** Encryption of one block: the halves pass through the rounds and leave swapped, R ‖ L. */
  function FeistelEncrypt(schedule: KeySchedule, f: RoundFunction, key: Option<seq<bv8>>, block: seq<bv8>): (r: Result<seq<bv8>>)
    ensures key.None? ==> r == Err(IllegalState("Encryption key not set"))
    ensures key.Some? && |block| % 2 != 0 ==> r == Err(IllegalArgument("Block size must be even for Feistel network"))
    ensures r.Ok? ==> |r.value| == |block|
  {
    if key.None? then Err(IllegalState("Encryption key not set"))
    else if |block| % 2 != 0 then Err(IllegalArgument("Block size must be even for Feistel network"))
    else
      match schedule(key.value)
      case Err(e) => Err(e)
      case Ok(keys) =>
        match Forward(f, keys, Split(block))
        case Err(e) => Err(e)
        case Ok(g) => Ok(g.right + g.left)
  }

  /** Decryption of one block: the rounds with the round keys reversed, output swapped. */
  function FeistelDecrypt(schedule: KeySchedule, f: RoundFunction, key: Option<seq<bv8>>, block: seq<bv8>): (r: Result<seq<bv8>>)
    ensures key.None? ==> r == Err(IllegalState("Decryption key not set"))
    ensures key.Some? && |block| % 2 != 0 ==> r == Err(IllegalArgument("Block size must be even for Feistel network"))
    ensures r.Ok? ==> |r.value| == |block|
  {
    if key.None? then Err(IllegalState("Decryption key not set"))
    else if |block| % 2 != 0 then Err(IllegalArgument("Block size must be even for Feistel network"))
    else
      match schedule(key.value)
      case Err(e) => Err(e)
      case Ok(keys) =>
        match Backward(f, keys, Split(block))
        case Err(e) => Err(e)
        case Ok(g) => Ok(g.right + g.left)
  }

  /** Peeling the first round key off the decryption rounds: it is the one used last. */
  lemma {:induction false} BackwardLastRound(f: RoundFunction, keys: seq<seq<bv8>>, h: Halves)
    requires |keys| > 0
    ensures Backward(f, keys, h) == ThenRound(f, Backward(f, keys[1..], h), keys[0])
    decreases |keys|
  {
    var n := |keys|;
    if n > 1 {
      var front := keys[..n - 1];
      assert keys[1..][..n - 2] == front[1..];
      assert keys[1..][n - 2] == keys[n - 1];
      match Round(f, h, keys[n - 1])
      case Err(e) =>
      case Ok(h1) =>
        BackwardLastRound(f, front, h1);
    }
  }

  /** A round undone: running the round on the swapped output with the same key gives back
   *  the swapped input. */
  lemma {:induction false} RoundUndone(f: RoundFunction, h: Halves, k: seq<bv8>, h1: Halves)
    requires Round(f, h, k) == Ok(h1)
    ensures Round(f, Halves(h1.right, h1.left), k) == Ok(Halves(h.right, h.left))
  {
    var out := f(h.right, k).value;
    Bytes.XorCancel(h.left, out);
  }

  /** The decryption rounds undo the encryption rounds, halves swapped at both ends. */
  lemma {:induction false} BackwardUndoesForward(f: RoundFunction, keys: seq<seq<bv8>>, h: Halves, g: Halves)
    requires Forward(f, keys, h) == Ok(g)
    ensures Backward(f, keys, Halves(g.right, g.left)) == Ok(Halves(h.right, h.left))
    decreases |keys|
  {
    if keys != [] {
      var h1 := Round(f, h, keys[0]).value;
      BackwardUndoesForward(f, keys[1..], h1, g);
      BackwardLastRound(f, keys, Halves(g.right, g.left));
      RoundUndone(f, h, keys[0], h1);
    }
  }

  /** Decrypting a ciphertext with the key that produced it returns the plaintext, whatever
   *  the key schedule and the round function. */
  lemma {:induction false} RoundTrip(schedule: KeySchedule, f: RoundFunction, key: seq<bv8>, block: seq<bv8>, c: seq<bv8>)
    requires FeistelEncrypt(schedule, f, Some(key), block) == Ok(c)
    ensures FeistelDecrypt(schedule, f, Some(key), c) == Ok(block)
  {
    var keys := schedule(key).value;
    var h := Split(block);
    var g := Forward(f, keys, h).value;
    BackwardUndoesForward(f, keys, h, g);
    assert c == g.right + g.left && |g.right| == |block| / 2;
    assert Split(c) == Halves(g.right, g.left);
    assert h.left + h.right == block;
  }

  /** The decryption rounds of lab1/cipher-framework (2-nd task)/src/FeistelCipher.java as
   *  written there: each round maps (L, R) to (R xor F(L, k), L), the round keys are taken
   *  last to first, and the halves are read and written back without a swap. */
  function FrameworkBackward(f: RoundFunction, keys: seq<seq<bv8>>, h: Halves): (r: Result<Halves>)
    ensures r.Ok? && |h.left| == |h.right| ==> |r.value.left| == |h.left| && |r.value.right| == |h.left|
    decreases |keys|
  {
    if keys == [] then Ok(h)
    else
      match f(h.left, keys[|keys| - 1])
      case Err(e) => Err(e)
      case Ok(out) =>
        match XorBytes(h.right, out)
        case Err(e) => Err(e)
        case Ok(x) => FrameworkBackward(f, keys[..|keys| - 1], Halves(x, h.left))
  }

  /** `decrypt` of the framework copy, as written. */
  function FrameworkDecrypt(schedule: KeySchedule, f: RoundFunction, key: Option<seq<bv8>>, block: seq<bv8>): (r: Result<seq<bv8>>)
    ensures key.None? ==> r == Err(IllegalState("Decryption key not set"))
    ensures r.Ok? ==> |r.value| == |block|
  {
    if key.None? then Err(IllegalState("Decryption key not set"))
    else if |block| % 2 != 0 then Err(IllegalArgument("Block size must be even for Feistel network"))
    else
      match schedule(key.value)
      case Err(e) => Err(e)
      case Ok(keys) =>
        match FrameworkBackward(f, keys, Split(block))
        case Err(e) => Err(e)
        case Ok(g) => Ok(g.left + g.right)
  }

  /** A one-round schedule whose only round key is the key itself. */
  function SingleRound(): KeySchedule
  {
    key => Ok([key])
  }

  /** A round function that returns its half-block unchanged. */
  function Echo(): RoundFunction
  {
    (half, k) => Ok(half)
  }

  /** The framework decryption does not undo encryption: with one round and a round function
   *  that echoes its input, the block [1, 0] encrypts to [1, 0] and decrypts to [1, 1]. */
  lemma {:induction false} FrameworkDecryptBreaksRoundTrip()
    ensures FeistelEncrypt(SingleRound(), Echo(), Some([0]), [1, 0]) == Ok([1, 0])
    ensures FrameworkDecrypt(SingleRound(), Echo(), Some([0]), [1, 0]) == Ok([1, 1])
  {
    var b: seq<bv8> := [1, 0];
    var keys: seq<seq<bv8>> := [[0]];
    assert SingleRound()([0]) == Ok(keys);
    assert Split(b) == Halves([1], [0]);
    assert Echo()([0], [0]) == Ok([0]);
    assert Bytes.Xor([1], [0]) == [1];
    assert Round(Echo(), Halves([1], [0]), [0]) == Ok(Halves([0], [1]));
    assert keys[1..] == [];
    assert Forward(Echo(), keys, Halves([1], [0])) == Ok(Halves([0], [1]));
    assert [1 as bv8] + [0 as bv8] == [1, 0];
    assert Echo()([1], [0]) == Ok([1]);
    assert Bytes.Xor([0], [1]) == [1];
    assert keys[..0] == [];
    assert FrameworkBackward(Echo(), keys, Halves([1], [0])) == Ok(Halves([1], [1]));
    assert [1 as bv8] + [1 as bv8] == [1, 1];
  }

  /** The Feistel cipher object: a key schedule, a round function and two independently set keys. */
  class FeistelCipher {
    const schedule: KeySchedule
    const f: RoundFunction
    var encryptionKey: Option<seq<bv8>>
    var decryptionKey: Option<seq<bv8>>

    constructor(schedule: KeySchedule, f: RoundFunction)
      ensures this.schedule == schedule && this.f == f
      ensures encryptionKey == None && decryptionKey == None
    {
      this.schedule := schedule;
      this.f := f;
      encryptionKey := None;
      decryptionKey := None;
    }

    method SetEncryptionKey(key: seq<bv8>)
      modifies this
      ensures encryptionKey == Some(key) && decryptionKey == old(decryptionKey)
    {
      encryptionKey := Some(key);
    }

    method SetDecryptionKey(key: seq<bv8>)
      modifies this
      ensures decryptionKey == Some(key) && encryptionKey == old(encryptionKey)
    {
      decryptionKey := Some(key);
    }

    method Encrypt(block: seq<bv8>) returns (r: Result<seq<bv8>>)
      ensures r == FeistelEncrypt(schedule, f, encryptionKey, block)
    {
      if encryptionKey.None? {
        return Err(IllegalState("Encryption key not set"));
      }
      if |block| % 2 != 0 {
        return Err(IllegalArgument("Block size must be even for Feistel network"));
      }
      var expanded := schedule(encryptionKey.value);
      if expanded.Err? {
        return Err(expanded.error);
      }
      var keys := expanded.value;
      var start := Split(block);
      var h := start;
      var i := 0;
      while i < |keys|
        invariant i <= |keys|
        invariant Forward(f, keys, start) == Forward(f, keys[i..], h)
      {
        assert keys[i..][0] == keys[i] && keys[i..][1..] == keys[i + 1..];
        var out := f(h.right, keys[i]);
        if out.Err? {
          return Err(out.error);
        }
        var x := XorBytes(h.left, out.value);
        if x.Err? {
          return Err(x.error);
        }
        h := Halves(h.right, x.value);
        i := i + 1;
      }
      r := Ok(h.right + h.left);
    }

    method Decrypt(block: seq<bv8>) returns (r: Result<seq<bv8>>)
      ensures r == FeistelDecrypt(schedule, f, decryptionKey, block)
    {
      if decryptionKey.None? {
        return Err(IllegalState("Decryption key not set"));
      }
      if |block| % 2 != 0 {
        return Err(IllegalArgument("Block size must be even for Feistel network"));
      }
      var expanded := schedule(decryptionKey.value);
      if expanded.Err? {
        return Err(expanded.error);
      }
      var keys := expanded.value;
      var start := Split(block);
      var h := start;
      var i := |keys|;
      assert keys[..i] == keys;
      while i > 0
        invariant 0 <= i <= |keys|
        invariant Backward(f, keys, start) == Backward(f, keys[..i], h)
      {
        assert keys[..i][i - 1] == keys[i - 1] && keys[..i][..i - 1] == keys[..i - 1];
        var out := f(h.right, keys[i - 1]);
        if out.Err? {
          return Err(out.error);
        }
        var x := XorBytes(h.left, out.value);
        if x.Err? {
          return Err(x.error);
        }
        h := Halves(h.right, x.value);
        i := i - 1;
      }
      r := Ok(h.right + h.left);
    }
  }
}
