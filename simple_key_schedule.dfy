/** The toy key schedule of the Feistel exercise (lab1/task3-feistel/src/SimpleKeySchedule.java):
 *  round key `i` is the master key with every byte XORed with the low byte of `i + 1`. */
module SimpleKeySchedule {
  import opened Wrappers
  import Bytes
  import Feistel

  /** The schedule object; its round count is fixed when it is built. */
  datatype Schedule = Schedule(rounds: nat)

  /** The constructor: a round count that is not positive is rejected. */
  function Create(rounds: int): (r: Result<Schedule>)
    ensures r.Ok? <==> rounds > 0
    ensures r.Ok? ==> r.value.rounds == rounds
    ensures r.Err? ==> r.error == IllegalArgument("Number of rounds must be positive")
  {
    if rounds <= 0 then Err(IllegalArgument("Number of rounds must be positive")) else Ok(Schedule(rounds))
  }

  /** `(byte) (i + 1)`: the low byte of the round number counted from one. */
  function RoundConstant(i: nat): bv8
  {
    ((i + 1) % 256) as bv8
  }

  /** Round key `i`: the master key XORed byte by byte with the round constant. */
  function RoundKey(key: seq<bv8>, i: nat): (k: seq<bv8>)
    ensures |k| == |key|
  {
    seq(|key|, j requires 0 <= j < |key| => key[j] ^ RoundConstant(i))
  }

  /** `expandKey`: an empty master key is rejected; otherwise one round key per round. */
  function ExpandKey(s: Schedule, key: seq<bv8>): (r: Result<seq<seq<bv8>>>)
    ensures r.Ok? <==> |key| > 0
    ensures r.Err? ==> r.error == IllegalArgument("Key cannot be null or empty")
    ensures r.Ok? ==> |r.value| == s.rounds
    ensures r.Ok? ==> forall i | 0 <= i < s.rounds :: |r.value[i]| == |key|
  {
    if |key| == 0 then Err(IllegalArgument("Key cannot be null or empty"))
    else Ok(seq(s.rounds, i requires 0 <= i < s.rounds => RoundKey(key, i)))
  }

  /** The schedule as the key-schedule value a Feistel network consumes. */
  function AsKeySchedule(s: Schedule): Feistel.KeySchedule
  {
    key => ExpandKey(s, key)
  }

  /** Byte `j` of round key `i` is `key[j]` XORed with the low byte of `i + 1`. */
  lemma {:induction false} RoundKeyBytes(s: Schedule, key: seq<bv8>, i: nat, j: nat)
    requires |key| > 0 && i < s.rounds && j < |key|
    ensures ExpandKey(s, key).value[i][j] == key[j] ^ RoundConstant(i)
  {
    assert ExpandKey(s, key).value[i] == RoundKey(key, i);
  }

  /** XORing round key `i` with its round constant gives the master key back. */
  lemma {:induction false} RoundKeyUndone(key: seq<bv8>, i: nat)
    ensures Bytes.Xor(RoundKey(key, i), seq(|key|, _ => RoundConstant(i))) == key
  {
    var c := seq(|key|, _ => RoundConstant(i));
    var r := Bytes.Xor(RoundKey(key, i), c);
    forall j | 0 <= j < |key|
      ensures r[j] == key[j]
    {
      assert r[j] == (key[j] ^ RoundConstant(i)) ^ RoundConstant(i);
    }
  }

  /** Rounds with different round constants get different round keys, unless the key is empty. */
  lemma {:induction false} RoundKeysDiffer(key: seq<bv8>, i: nat, m: nat)
    requires |key| > 0 && RoundConstant(i) != RoundConstant(m)
    ensures RoundKey(key, i) != RoundKey(key, m)
  {
    XorInjective(key[0], RoundConstant(i), RoundConstant(m));
    assert RoundKey(key, i)[0] != RoundKey(key, m)[0];
  }

  lemma {:induction false} XorInjective(x: bv8, a: bv8, b: bv8)
    requires a != b
    ensures x ^ a != x ^ b
  {
    assert (x ^ a) ^ x == a && (x ^ b) ^ x == b;
  }

  /** The nested loops of `expandKey`: each round key is a fresh array filled byte by byte. */
  method ExpandKeyLoop(s: Schedule, key: seq<bv8>) returns (r: Result<seq<seq<bv8>>>)
    ensures r == ExpandKey(s, key)
  {
    if |key| == 0 {
      return Err(IllegalArgument("Key cannot be null or empty"));
    }
    var roundKeys: seq<seq<bv8>> := [];
    for i := 0 to s.rounds
      invariant |roundKeys| == i
      invariant forall m | 0 <= m < i :: roundKeys[m] == RoundKey(key, m)
    {
      var row := new bv8[|key|](_ => 0);
      for j := 0 to |key|
        invariant forall q | 0 <= q < j :: row[q] == key[q] ^ RoundConstant(i)
      {
        row[j] := key[j] ^ (((i + 1) % 256) as bv8);
      }
      assert row[..] == RoundKey(key, i);
      roundKeys := roundKeys + [row[..]];
    }
    assert roundKeys == ExpandKey(s, key).value;
    r := Ok(roundKeys);
  }
}
