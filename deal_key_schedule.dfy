/** The DEAL key schedule of lab1/task6-deal/src/DEALKeySchedule.java: the first 24 bytes of
 *  the master key are three DES keys K1, K2, K3, handed to the rounds in the cycle
 *  K1, K2, K3, K1, ... */
module DealKeySchedule {
  import opened Wrappers
  import Feistel

  /** The schedule object; its round count is fixed when it is built. */
  datatype Schedule = Schedule(rounds: nat)

  const DefaultRounds: nat := 6

  /** The constructor: a round count that is not positive is rejected. */
  function Create(numberOfRounds: int): (r: Result<Schedule>)
    ensures r.Ok? <==> numberOfRounds > 0
    ensures r.Ok? ==> r.value.rounds == numberOfRounds
    ensures r.Err? ==> r.error == IllegalArgument("Number of rounds must be positive")
  {
    if numberOfRounds <= 0 then Err(IllegalArgument("Number of rounds must be positive"))
    else Ok(Schedule(numberOfRounds))
  }

  /** The no-argument constructor builds a six-round schedule. */
  function CreateDefault(): (r: Result<Schedule>)
    ensures r == Ok(Schedule(6))
  {
    Create(DefaultRounds)
  }

  function ShortKeyError(length: nat): Error
  {
    IllegalArgument("DEAL key must be at least 24 bytes (192 bits) to contain three DES keys. Provided: "
                    + DecimalString(length) + " bytes")
  }

  /** DES key `j` (0, 1 or 2) of the master key: bytes 8j .. 8j+7. */
  function DesKey(key: seq<bv8>, j: nat): (k: seq<bv8>)
    requires |key| >= 24 && j < 3
    ensures |k| == 8
  {
    key[8 * j .. 8 * j + 8]
  }

  /** `expandKey`: a key shorter than 24 bytes is rejected; otherwise one 8-byte key per round,
   *  round `i` getting DES key `i mod 3`. */
  function ExpandKey(s: Schedule, key: seq<bv8>): (r: Result<seq<seq<bv8>>>)
    ensures r.Ok? <==> |key| >= 24
    ensures r.Err? ==> r.error == ShortKeyError(|key|)
    ensures r.Ok? ==> |r.value| == s.rounds && forall i | 0 <= i < s.rounds :: |r.value[i]| == 8
  {
    if |key| < 24 then Err(ShortKeyError(|key|))
    else Ok(seq(s.rounds, i requires 0 <= i < s.rounds => DesKey(key, i % 3)))
  }

  function AsKeySchedule(s: Schedule): Feistel.KeySchedule
  {
    key => ExpandKey(s, key)
  }

  /** The first three round keys are K1, K2 and K3, and from then on the keys repeat with
   *  period three. */
  lemma {:induction false} Cycle(s: Schedule, key: seq<bv8>, i: nat)
    requires |key| >= 24 && i < s.rounds
    ensures i < 3 ==> ExpandKey(s, key).value[i] == key[8 * i .. 8 * i + 8]
    ensures i >= 3 ==> ExpandKey(s, key).value[i] == ExpandKey(s, key).value[i - 3]
  {
    var keys := ExpandKey(s, key).value;
    assert keys[i] == DesKey(key, i % 3);
    if i >= 3 {
      assert (i - 3) % 3 == i % 3;
      assert keys[i - 3] == DesKey(key, (i - 3) % 3);
    }
  }

  /** Only the first 24 bytes matter: keys that agree there give the same schedule. */
  lemma {:induction false} OnlyFirst24Bytes(s: Schedule, a: seq<bv8>, b: seq<bv8>)
    requires |a| >= 24 && |b| >= 24 && a[..24] == b[..24]
    ensures ExpandKey(s, a) == ExpandKey(s, b)
  {
    forall j | 0 <= j < 3
      ensures DesKey(a, j) == DesKey(b, j)
    {
      assert DesKey(a, j) == a[..24][8 * j .. 8 * j + 8];
      assert DesKey(b, j) == b[..24][8 * j .. 8 * j + 8];
    }
    assert ExpandKey(s, a).value == ExpandKey(s, b).value;
  }
}

/** The copy of the DEAL key schedule in lab1/task7-deal-file-demo/lib-src/DEALKeySchedule.java,
 *  modelled as the code runs: a fresh array filled in a loop whose switch picks K1, K2 or K3.
 *  Its contracts tie it to the schedule above, so the two copies agree on every input. */
module DealKeyScheduleCopy {
  import opened Wrappers
  import DealKeySchedule

  method Create(numberOfRounds: int) returns (r: Result<DealKeySchedule.Schedule>)
    ensures r == DealKeySchedule.Create(numberOfRounds)
  {
    if numberOfRounds <= 0 {
      return Err(IllegalArgument("Number of rounds must be positive"));
    }
    r := Ok(DealKeySchedule.Schedule(numberOfRounds));
  }

  method ExpandKey(s: DealKeySchedule.Schedule, key: seq<bv8>) returns (r: Result<seq<seq<bv8>>>)
    ensures r == DealKeySchedule.ExpandKey(s, key)
  {
    if |key| < 24 {
      return Err(DealKeySchedule.ShortKeyError(|key|));
    }
    var k1 := key[0..8];
    var k2 := key[8..16];
    var k3 := key[16..24];
    var roundKeys := new seq<bv8>[s.rounds](_ => [0, 0, 0, 0, 0, 0, 0, 0]);
    for i := 0 to s.rounds
      invariant forall j | 0 <= j < i :: roundKeys[j] == DealKeySchedule.DesKey(key, j % 3)
    {
      match i % 3
      case 0 => roundKeys[i] := k1;
      case 1 => roundKeys[i] := k2;
      case 2 => roundKeys[i] := k3;
    }
    r := Ok(roundKeys[..]);
    assert roundKeys[..] == DealKeySchedule.ExpandKey(s, key).value;
  }
}
