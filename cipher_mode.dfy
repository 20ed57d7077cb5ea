/** The block cipher modes of lab1/task2-interfaces/src/CipherMode.java: ECB, CBC, PCBC, CFB,
 *  OFB, CTR and RANDOM_DELTA over a block cipher given as its two block functions E and D.
 *  Every chained mode threads one value (`prev`, `feedback` or the counter) from block to
 *  block; the model calls it the state and describes each mode by one step on it. */
module CipherMode {
  import opened Wrappers
  import Bytes

  /** A keyed block cipher as the modes see it: `encrypt` and `decrypt` of one block, either of
   *  which may throw. */
  datatype BlockCipher = BlockCipher(encrypt: seq<bv8> -> Result<seq<bv8>>, decrypt: seq<bv8> -> Result<seq<bv8>>)

  datatype Mode = ECB | CBC | PCBC | CFB | OFB | CTR | RandomDelta
  {
    /** The enum constant's name, as `toString` renders it. */
    function Name(): string
    {
      match this
      case ECB => "ECB"
      case CBC => "CBC"
      case PCBC => "PCBC"
      case CFB => "CFB"
      case OFB => "OFB"
      case CTR => "CTR"
      case RandomDelta => "RANDOM_DELTA"
    }
  }

  datatype Direction = Encrypting | Decrypting

  /** The secure random source RANDOM_DELTA draws from: byte `j` of the delta of block `i`. */
  type RandomBytes = (nat, nat) -> bv8

  /** `requiresIV`: every mode but ECB and RANDOM_DELTA needs an IV. */
  function RequiresIV(m: Mode): (r: bool)
    ensures r <==> m !in {ECB, RandomDelta}
  {
    match m
    case ECB => false
    case RandomDelta => false
    case _ => true
  }

  /** `xorBytes`: |a| bytes, byte `i` being a[i] ^ b[i]; a shorter `b` runs off its end. */
  function XorBytes(a: seq<bv8>, b: seq<bv8>): (r: Result<seq<bv8>>)
    ensures r.Ok? <==> |b| >= |a|
    ensures r.Err? ==> r.error == IndexOutOfBounds
    ensures r.Ok? ==> |r.value| == |a| && forall i | 0 <= i < |a| :: r.value[i] == a[i] ^ b[i]
  {
    if |b| < |a| then Err(IndexOutOfBounds) else Ok(Bytes.Xor(a, b))
  }

  /** The loop of `xorBytes`, which throws when it reaches the end of `b`. */
  method XorBytesLoop(a: seq<bv8>, b: seq<bv8>) returns (r: Result<seq<bv8>>)
    ensures r == XorBytes(a, b)
  {
    var result := new bv8[|a|](_ => 0);
    for i := 0 to |a|
      invariant i <= |b|
      invariant forall q | 0 <= q < i :: result[q] == a[q] ^ b[q]
    {
      if i >= |b| {
        return Err(IndexOutOfBounds);
      }
      result[i] := a[i] ^ b[i];
    }
    assert result[..] == Bytes.Xor(a, b);
    r := Ok(result[..]);
  }

  // ---------------------------------------------------------------------------------------
  // The CTR counter

  /** The bytes read as a big-endian unsigned integer. */
  function BigEndian(s: seq<bv8>): nat
  {
    if |s| == 0 then 0 else BigEndian(s[..|s| - 1]) * 256 + s[|s| - 1] as nat
  }

  function Pow256(n: nat): (p: nat)
    ensures p > 0
  {
    if n == 0 then 1 else 256 * Pow256(n - 1)
  }

  lemma {:induction false} BigEndianBound(s: seq<bv8>)
    ensures BigEndian(s) < Pow256(|s|)
  {
    if |s| > 0 {
      BigEndianBound(s[..|s| - 1]);
    }
  }

  /** `incrementCounter` as a value: the last byte goes up by one, and a byte that wraps to 0
   *  carries into the byte before it. */
  function Increment(s: seq<bv8>): (r: seq<bv8>)
    ensures |r| == |s|
  {
    if |s| == 0 then []
    else if s[|s| - 1] == 255 then Increment(s[..|s| - 1]) + [0]
    else s[..|s| - 1] + [s[|s| - 1] + 1]
  }

  /** Incrementing adds one to the big-endian value, wrapping to 0 at 256^|s|. */
  lemma {:induction false} IncrementValue(s: seq<bv8>)
    ensures BigEndian(Increment(s)) == if BigEndian(s) + 1 == Pow256(|s|) then 0 else BigEndian(s) + 1
  {
    if |s| > 0 {
      var pre := s[..|s| - 1];
      BigEndianBound(pre);
      var inc := Increment(s);
      assert inc[..|inc| - 1] == (if s[|s| - 1] == 255 then Increment(pre) else pre);
      if s[|s| - 1] == 255 {
        IncrementValue(pre);
      }
    }
  }

  /** Bytes after position `i` that are all 255 wrap to 0 and carry into byte `i`. */
  lemma {:induction false} IncrementTail(s: seq<bv8>, i: nat)
    requires i < |s| && forall j | i < j < |s| :: s[j] == 255
    ensures Increment(s) == Increment(s[..i + 1]) + Bytes.Zeros(|s| - i - 1)
    decreases |s|
  {
    if i + 1 < |s| {
      var pre := s[..|s| - 1];
      IncrementTail(pre, i);
      assert pre[..i + 1] == s[..i + 1];
    } else {
      assert s[..i + 1] == s;
    }
  }

  /** A counter of all 255 bytes wraps to all zeros. */
  lemma {:induction false} IncrementWraps(s: seq<bv8>)
    requires forall j | 0 <= j < |s| :: s[j] == 255
    ensures Increment(s) == Bytes.Zeros(|s|)
    decreases |s|
  {
    if |s| > 0 {
      IncrementWraps(s[..|s| - 1]);
    }
  }

  /** `incrementCounter`: adds one in place, from the last byte back, stopping at the first
   *  byte that does not wrap to 0. */
  method IncrementCounter(counter: array<bv8>)
    modifies counter
    ensures counter[..] == Increment(old(counter[..]))
  {
    ghost var s := counter[..];
    var i := counter.Length;
    assert counter[..] == s[..i] + Bytes.Zeros(0);
    while i > 0
      invariant 0 <= i <= counter.Length == |s|
      invariant counter[..] == s[..i] + Bytes.Zeros(|s| - i)
      invariant forall j | i <= j < |s| :: s[j] == 255
    {
      i := i - 1;
      assert counter[i] == s[i];
      counter[i] := counter[i] + 1;
      if counter[i] != 0 {
        IncrementTail(s, i);
        IncrementLast(s, i);
        assert counter[..] == s[..i] + [s[i] + 1] + Bytes.Zeros(|s| - i - 1);
        return;
      }
      assert counter[..] == s[..i] + Bytes.Zeros(|s| - i);
    }
    IncrementWraps(s);
  }

  /** Incrementing the first `i + 1` bytes works on byte `i`, carrying into the first `i`. */
  lemma {:induction false} IncrementLast(s: seq<bv8>, i: nat)
    requires i < |s|
    ensures Increment(s[..i + 1]) == if s[i] == 255 then Increment(s[..i]) + [0] else s[..i] + [s[i] + 1]
  {
    assert s[..i + 1][..i] == s[..i];
  }

  // ---------------------------------------------------------------------------------------
  // The chained modes

  /** What one block gives: the output block and the state carried to the next block. */
  datatype StepOut = StepOut(out: seq<bv8>, next: seq<bv8>)

  /** Output blocks so far and the state after them. */
  datatype Progress = Progress(outs: seq<seq<bv8>>, state: seq<bv8>)

  /** ECB: E (or D) of the block; the state is carried unchanged and never read. */
  function EcbStep(d: Direction, c: BlockCipher, state: seq<bv8>, block: seq<bv8>): Result<StepOut>
  {
    var r := if d == Encrypting then c.encrypt(block) else c.decrypt(block);
    if r.Err? then Err(r.error) else Ok(StepOut(r.value, state))
  }

  /** CBC: the state is the previous ciphertext block. */
  function CbcStep(d: Direction, c: BlockCipher, prev: seq<bv8>, block: seq<bv8>): Result<StepOut>
  {
    if d == Encrypting then
      var x := XorBytes(block, prev);
      if x.Err? then Err(x.error) else
      var e := c.encrypt(x.value);
      if e.Err? then Err(e.error) else Ok(StepOut(e.value, e.value))
    else
      var p := c.decrypt(block);
      if p.Err? then Err(p.error) else
      var r := XorBytes(p.value, prev);
      if r.Err? then Err(r.error) else Ok(StepOut(r.value, block))
  }

  /** PCBC: the state is the previous plaintext block XOR its ciphertext block. */
  function PcbcStep(d: Direction, c: BlockCipher, prev: seq<bv8>, block: seq<bv8>): Result<StepOut>
  {
    if d == Encrypting then
      var x := XorBytes(block, prev);
      if x.Err? then Err(x.error) else
      var e := c.encrypt(x.value);
      if e.Err? then Err(e.error) else
      var n := XorBytes(block, e.value);
      if n.Err? then Err(n.error) else Ok(StepOut(e.value, n.value))
    else
      var p := c.decrypt(block);
      if p.Err? then Err(p.error) else
      var r := XorBytes(p.value, prev);
      if r.Err? then Err(r.error) else
      var n := XorBytes(block, r.value);
      if n.Err? then Err(n.error) else Ok(StepOut(r.value, n.value))
  }

  /** CFB: the state is the previous ciphertext block, E's output being the keystream. */
  function CfbStep(d: Direction, c: BlockCipher, feedback: seq<bv8>, block: seq<bv8>): Result<StepOut>
  {
    var e := c.encrypt(feedback);
    if e.Err? then Err(e.error) else
    var r := XorBytes(block, e.value);
    if r.Err? then Err(r.error) else Ok(StepOut(r.value, if d == Encrypting then r.value else block))
  }

  /** OFB: the state is the last keystream block, E applied to it gives the next. */
  function OfbStep(c: BlockCipher, feedback: seq<bv8>, block: seq<bv8>): Result<StepOut>
  {
    var e := c.encrypt(feedback);
    if e.Err? then Err(e.error) else
    var r := XorBytes(block, e.value);
    if r.Err? then Err(r.error) else Ok(StepOut(r.value, e.value))
  }

  /** CTR: the state is the counter, whose E is the keystream block. */
  function CtrStep(c: BlockCipher, counter: seq<bv8>, block: seq<bv8>): Result<StepOut>
  {
    var e := c.encrypt(counter);
    if e.Err? then Err(e.error) else
    var r := XorBytes(block, e.value);
    if r.Err? then Err(r.error) else Ok(StepOut(r.value, Increment(counter)))
  }

  /** One iteration of a mode's loop on `block`, the state being `prev`, `feedback` or the
   *  counter. */
  function Step(m: Mode, d: Direction, c: BlockCipher, state: seq<bv8>, block: seq<bv8>): Result<StepOut>
    requires m != RandomDelta
  {
    match m
    case ECB => EcbStep(d, c, state, block)
    case CBC => CbcStep(d, c, state, block)
    case PCBC => PcbcStep(d, c, state, block)
    case CFB => CfbStep(d, c, state, block)
    case OFB => OfbStep(c, state, block)
    case CTR => CtrStep(c, state, block)
  }

  /** The loop of a chained mode over `blocks`, from the state `start`; the first exception
   *  ends it. */
  function Run(m: Mode, d: Direction, c: BlockCipher, blocks: seq<seq<bv8>>, start: seq<bv8>): (r: Result<Progress>)
    requires m != RandomDelta
    ensures r.Ok? ==> |r.value.outs| == |blocks|
    decreases |blocks|
  {
    if |blocks| == 0 then Ok(Progress([], start))
    else
      match Run(m, d, c, blocks[..|blocks| - 1], start)
      case Err(e) => Err(e)
      case Ok(p) =>
        match Step(m, d, c, p.state, blocks[|blocks| - 1])
        case Err(e) => Err(e)
        case Ok(s) => Ok(Progress(p.outs + [s.out], s.next))
  }

  /** A chained mode's `encrypt` or `decrypt`: every mode but ECB starts from a copy of the IV,
   *  and copying a null IV throws. */
  function Chained(m: Mode, d: Direction, c: BlockCipher, blocks: seq<seq<bv8>>, iv: Option<seq<bv8>>): (r: Result<seq<seq<bv8>>>)
    requires m != RandomDelta
    ensures m != ECB && iv.None? ==> r == Err(NullPointer)
    ensures r.Ok? ==> |r.value| == |blocks|
  {
    if m != ECB && iv.None? then Err(NullPointer)
    else
      match Run(m, d, c, blocks, iv.GetOr([]))
      case Err(e) => Err(e)
      case Ok(p) => Ok(p.outs)
  }

  /** A prefix of a successful run is the successful run of the prefix. */
  lemma {:induction false} RunPrefix(m: Mode, d: Direction, c: BlockCipher, blocks: seq<seq<bv8>>, start: seq<bv8>, k: nat)
    requires m != RandomDelta && k <= |blocks| && Run(m, d, c, blocks, start).Ok?
    ensures Run(m, d, c, blocks[..k], start).Ok?
    ensures Run(m, d, c, blocks[..k], start).value.outs == Run(m, d, c, blocks, start).value.outs[..k]
    decreases |blocks|
  {
    if k < |blocks| {
      var pre := blocks[..|blocks| - 1];
      RunPrefix(m, d, c, pre, start, k);
      assert pre[..k] == blocks[..k];
    } else {
      assert blocks[..k] == blocks;
    }
  }

  /** An exception in a prefix is the exception of the whole run. */
  lemma {:induction false} RunErr(m: Mode, d: Direction, c: BlockCipher, blocks: seq<seq<bv8>>, start: seq<bv8>, k: nat)
    requires m != RandomDelta && k <= |blocks| && Run(m, d, c, blocks[..k], start).Err?
    ensures Run(m, d, c, blocks, start) == Run(m, d, c, blocks[..k], start)
    decreases |blocks|
  {
    if k < |blocks| {
      var pre := blocks[..|blocks| - 1];
      assert pre[..k] == blocks[..k];
      RunErr(m, d, c, pre, start, k);
    } else {
      assert blocks[..k] == blocks;
    }
  }

  /** One more block: the run of `blocks[..i+1]` is the run of `blocks[..i]` followed by one
   *  step, and a step that throws ends the whole run. */
  lemma {:induction false} RunNext(m: Mode, d: Direction, c: BlockCipher, blocks: seq<seq<bv8>>, start: seq<bv8>, i: nat, p: Progress)
    requires m != RandomDelta && i < |blocks| && Run(m, d, c, blocks[..i], start) == Ok(p)
    ensures Step(m, d, c, p.state, blocks[i]).Err? ==>
              Run(m, d, c, blocks, start) == Err(Step(m, d, c, p.state, blocks[i]).error)
    ensures Step(m, d, c, p.state, blocks[i]).Ok? ==>
              Run(m, d, c, blocks[..i + 1], start) ==
              Ok(Progress(p.outs + [Step(m, d, c, p.state, blocks[i]).value.out], Step(m, d, c, p.state, blocks[i]).value.next))
  {
    assert blocks[..i + 1][..i] == blocks[..i];
    if Step(m, d, c, p.state, blocks[i]).Err? {
      RunErr(m, d, c, blocks, start, i + 1);
    }
  }

  /** Block `i` of a successful run is one step from the state the first `i` blocks left. */
  lemma {:induction false} RunAt(m: Mode, d: Direction, c: BlockCipher, blocks: seq<seq<bv8>>, start: seq<bv8>, i: nat)
    requires m != RandomDelta && i < |blocks| && Run(m, d, c, blocks, start).Ok?
    ensures Run(m, d, c, blocks[..i], start).Ok? && Run(m, d, c, blocks[..i + 1], start).Ok?
    ensures Step(m, d, c, Run(m, d, c, blocks[..i], start).value.state, blocks[i]) ==
            Ok(StepOut(Run(m, d, c, blocks, start).value.outs[i], Run(m, d, c, blocks[..i + 1], start).value.state))
  {
    RunPrefix(m, d, c, blocks, start, i + 1);
    RunPrefix(m, d, c, blocks, start, i);
    assert blocks[..i + 1][..i] == blocks[..i];
  }

  // ---------------------------------------------------------------------------------------
  // What the modes promise

  /** D undoes E on every block E accepts. */
  ghost predicate Inverts(c: BlockCipher)
  {
    forall x :: c.encrypt(x).Ok? ==> c.decrypt(c.encrypt(x).value) == Ok(x)
  }

  /** E keeps the length of every block it accepts. */
  ghost predicate LengthPreserving(c: BlockCipher)
  {
    forall x :: c.encrypt(x).Ok? ==> |c.encrypt(x).value| == |x|
  }

  /** What each mode needs of the cipher to decrypt what it encrypted: CFB, OFB and CTR run E
   *  in both directions and need nothing; PCBC also needs E to keep lengths, because the
   *  decryption side XORs the ciphertext block with the recovered plaintext. */
  ghost predicate Undoable(m: Mode, c: BlockCipher)
  {
    match m
    case ECB => Inverts(c)
    case CBC => Inverts(c)
    case PCBC => Inverts(c) && LengthPreserving(c)
    case CFB => true
    case OFB => true
    case CTR => true
    case RandomDelta => Inverts(c) && LengthPreserving(c)
  }

  /** The decryption step from the same state undoes the encryption step and leaves the same
   *  state for the next block. */
  lemma {:induction false} StepUndone(m: Mode, c: BlockCipher, state: seq<bv8>, block: seq<bv8>)
    requires m != RandomDelta && Undoable(m, c) && Step(m, Encrypting, c, state, block).Ok?
    ensures Step(m, Decrypting, c, state, Step(m, Encrypting, c, state, block).value.out) ==
            Ok(StepOut(block, Step(m, Encrypting, c, state, block).value.next))
  {
    match m
    case ECB =>
    case CBC =>
      var x := Bytes.Xor(block, state);
      Bytes.XorCancel(block, state);
      assert c.decrypt(c.encrypt(x).value) == Ok(x);
    case PCBC =>
      var x := Bytes.Xor(block, state);
      var e := c.encrypt(x).value;
      Bytes.XorCancel(block, state);
      assert c.decrypt(e) == Ok(x);
      Bytes.XorCommutes(block, e);
    case CFB =>
      Bytes.XorCancel(block, c.encrypt(state).value);
    case OFB =>
      Bytes.XorCancel(block, c.encrypt(state).value);
    case CTR =>
      Bytes.XorCancel(block, c.encrypt(state).value);
  }

  /** Decrypting the blocks a chained mode encrypted, from the same start, gives the plaintext
   *  blocks back and ends in the same state. */
  lemma {:induction false} RunRoundTrip(m: Mode, c: BlockCipher, blocks: seq<seq<bv8>>, start: seq<bv8>)
    requires m != RandomDelta && Undoable(m, c) && Run(m, Encrypting, c, blocks, start).Ok?
    ensures Run(m, Decrypting, c, Run(m, Encrypting, c, blocks, start).value.outs, start) ==
            Ok(Progress(blocks, Run(m, Encrypting, c, blocks, start).value.state))
    decreases |blocks|
  {
    if |blocks| > 0 {
      var pre := blocks[..|blocks| - 1];
      var p := Run(m, Encrypting, c, pre, start).value;
      var outs := Run(m, Encrypting, c, blocks, start).value.outs;
      RunRoundTrip(m, c, pre, start);
      StepUndone(m, c, p.state, blocks[|blocks| - 1]);
      assert outs[..|outs| - 1] == p.outs;
      LastSplit(blocks);
    }
  }

  /** CFB, OFB and CTR call only `cipher.encrypt`: their result does not depend on D. */
  lemma {:induction false} EncryptOnly(m: Mode, d: Direction, c: BlockCipher, c': BlockCipher, blocks: seq<seq<bv8>>, start: seq<bv8>)
    requires m in {CFB, OFB, CTR} && c.encrypt == c'.encrypt
    ensures Run(m, d, c, blocks, start) == Run(m, d, c', blocks, start)
    decreases |blocks|
  {
    if |blocks| > 0 {
      var pre := blocks[..|blocks| - 1];
      EncryptOnly(m, d, c, c', pre, start);
      if Run(m, d, c, pre, start).Ok? {
        StepEncryptOnly(m, d, c, c', Run(m, d, c, pre, start).value.state, blocks[|blocks| - 1]);
      }
    }
  }

  /** One step of CFB, OFB or CTR calls only `cipher.encrypt`. */
  lemma {:induction false} StepEncryptOnly(m: Mode, d: Direction, c: BlockCipher, c': BlockCipher, state: seq<bv8>, block: seq<bv8>)
    requires m in {CFB, OFB, CTR} && c.encrypt == c'.encrypt
    ensures Step(m, d, c, state, block) == Step(m, d, c', state, block)
  {
  }

  /** OFB and CTR run the same loop in both directions. */
  lemma {:induction false} SameBothWays(m: Mode, c: BlockCipher, blocks: seq<seq<bv8>>, start: seq<bv8>)
    requires m in {OFB, CTR}
    ensures Run(m, Encrypting, c, blocks, start) == Run(m, Decrypting, c, blocks, start)
    decreases |blocks|
  {
    if |blocks| > 0 {
      SameBothWays(m, c, blocks[..|blocks| - 1], start);
    }
  }

  /** ECB: block `i` of the output is E of block `i` of the input, whatever the IV. */
  lemma {:induction false} EcbBlockwise(c: BlockCipher, blocks: seq<seq<bv8>>, iv: Option<seq<bv8>>, i: nat)
    requires Chained(ECB, Encrypting, c, blocks, iv).Ok? && i < |blocks|
    ensures c.encrypt(blocks[i]) == Ok(Chained(ECB, Encrypting, c, blocks, iv).value[i])
    ensures Chained(ECB, Encrypting, c, blocks, None) == Chained(ECB, Encrypting, c, blocks, iv)
  {
    RunAt(ECB, Encrypting, c, blocks, iv.GetOr([]), i);
    EcbIgnoresState(c, blocks, iv.GetOr([]), []);
  }

  lemma {:induction false} EcbIgnoresState(c: BlockCipher, blocks: seq<seq<bv8>>, s: seq<bv8>, s': seq<bv8>)
    ensures Run(ECB, Encrypting, c, blocks, s).Ok? ==> Run(ECB, Encrypting, c, blocks, s).value.state == s
    ensures Run(ECB, Encrypting, c, blocks, s').Ok? ==> Run(ECB, Encrypting, c, blocks, s').value.state == s'
    ensures Run(ECB, Encrypting, c, blocks, s).Ok? <==> Run(ECB, Encrypting, c, blocks, s').Ok?
    ensures Run(ECB, Encrypting, c, blocks, s).Ok? ==>
              Run(ECB, Encrypting, c, blocks, s).value.outs == Run(ECB, Encrypting, c, blocks, s').value.outs
    ensures Run(ECB, Encrypting, c, blocks, s).Err? ==> Run(ECB, Encrypting, c, blocks, s) == Run(ECB, Encrypting, c, blocks, s')
    decreases |blocks|
  {
    if |blocks| > 0 {
      EcbIgnoresState(c, blocks[..|blocks| - 1], s, s');
    }
  }

  /** The state of a run's first blocks is the IV; for CBC the state after a block is that
   *  block's ciphertext. */
  lemma {:induction false} CbcState(c: BlockCipher, blocks: seq<seq<bv8>>, iv: seq<bv8>, i: nat)
    requires i < |blocks| && Run(CBC, Encrypting, c, blocks, iv).Ok?
    ensures Run(CBC, Encrypting, c, blocks[..i], iv).Ok?
    ensures Run(CBC, Encrypting, c, blocks[..i], iv).value.state ==
            if i == 0 then iv else Run(CBC, Encrypting, c, blocks, iv).value.outs[i - 1]
  {
    RunPrefix(CBC, Encrypting, c, blocks, iv, i);
    if i > 0 {
      RunAt(CBC, Encrypting, c, blocks, iv, i - 1);
    }
  }

  /** CBC: C₀ = E(P₀ ⊕ IV) and Cᵢ = E(Pᵢ ⊕ Cᵢ₋₁). */
  lemma {:induction false} CbcChaining(c: BlockCipher, blocks: seq<seq<bv8>>, iv: seq<bv8>, i: nat)
    requires i < |blocks| && Chained(CBC, Encrypting, c, blocks, Some(iv)).Ok?
    ensures var outs := Chained(CBC, Encrypting, c, blocks, Some(iv)).value;
            var prev := if i == 0 then iv else outs[i - 1];
            XorBytes(blocks[i], prev).Ok? && c.encrypt(XorBytes(blocks[i], prev).value) == Ok(outs[i])
  {
    RunAt(CBC, Encrypting, c, blocks, iv, i);
    CbcState(c, blocks, iv, i);
  }

  /** The CTR counter before block `i` is the IV incremented `i` times. */
  function Counter(iv: seq<bv8>, i: nat): (r: seq<bv8>)
    ensures |r| == |iv|
  {
    if i == 0 then iv else Increment(Counter(iv, i - 1))
  }

  lemma {:induction false} CtrNext(c: BlockCipher, d: Direction, state: seq<bv8>, block: seq<bv8>)
    requires Step(CTR, d, c, state, block).Ok?
    ensures Step(CTR, d, c, state, block).value.next == Increment(state)
  {
  }

  lemma {:induction false} CtrCounter(c: BlockCipher, d: Direction, blocks: seq<seq<bv8>>, iv: seq<bv8>, i: nat)
    requires i <= |blocks| && Run(CTR, d, c, blocks, iv).Ok?
    ensures Run(CTR, d, c, blocks[..i], iv).Ok?
    ensures Run(CTR, d, c, blocks[..i], iv).value.state == Counter(iv, i)
  {
    if i == 0 {
      assert blocks[..i] == [];
    } else {
      CtrCounter(c, d, blocks, iv, i - 1);
      RunAt(CTR, d, c, blocks, iv, i - 1);
      CtrNext(c, d, Run(CTR, d, c, blocks[..i - 1], iv).value.state, blocks[i - 1]);
    }
  }

  // ---------------------------------------------------------------------------------------
  // RANDOM_DELTA

  /** What RANDOM_DELTA does to block `i` of an array. */
  type BlockFunction = (nat, seq<bv8>) -> Result<seq<bv8>>

  /** The loop of RANDOM_DELTA: block `i` becomes `f(i, blocks[i])`, and the first exception
   *  ends it. */
  function MapBlocks(f: BlockFunction, blocks: seq<seq<bv8>>): (r: Result<seq<seq<bv8>>>)
    ensures r.Ok? ==> |r.value| == |blocks|
    decreases |blocks|
  {
    if |blocks| == 0 then Ok([])
    else
      var n := |blocks| - 1;
      match MapBlocks(f, blocks[..n])
      case Err(e) => Err(e)
      case Ok(outs) =>
        match f(n, blocks[n])
        case Err(e) => Err(e)
        case Ok(o) => Ok(outs + [o])
  }

  lemma {:induction false} MapErr(f: BlockFunction, blocks: seq<seq<bv8>>, k: nat)
    requires k <= |blocks| && MapBlocks(f, blocks[..k]).Err?
    ensures MapBlocks(f, blocks) == MapBlocks(f, blocks[..k])
    decreases |blocks|
  {
    if k < |blocks| {
      var pre := blocks[..|blocks| - 1];
      assert pre[..k] == blocks[..k];
      MapErr(f, pre, k);
    } else {
      assert blocks[..k] == blocks;
    }
  }

  /** One more block of the loop, or the exception that ends it. */
  lemma {:induction false} MapNext(f: BlockFunction, blocks: seq<seq<bv8>>, i: nat, outs: seq<seq<bv8>>)
    requires i < |blocks| && MapBlocks(f, blocks[..i]) == Ok(outs)
    ensures f(i, blocks[i]).Err? ==> MapBlocks(f, blocks) == Err(f(i, blocks[i]).error)
    ensures f(i, blocks[i]).Ok? ==> MapBlocks(f, blocks[..i + 1]) == Ok(outs + [f(i, blocks[i]).value])
  {
    assert blocks[..i + 1][..i] == blocks[..i];
    if f(i, blocks[i]).Err? {
      MapErr(f, blocks, i + 1);
    }
  }

  /** The delta of block `i`: as many random bytes as the block is long. */
  function Delta(random: RandomBytes, i: nat, n: nat): (delta: seq<bv8>)
    ensures |delta| == n
  {
    seq(n, j requires 0 <= j < n => random(i, j))
  }

  /** One block: E(P ⊕ δ) followed by E(δ). */
  function DeltaEncryptBlock(c: BlockCipher, block: seq<bv8>, delta: seq<bv8>): Result<seq<bv8>>
    requires |delta| == |block|
  {
    var modified := Bytes.Xor(block, delta);
    var e := c.encrypt(modified);
    if e.Err? then Err(e.error) else
    var ed := c.encrypt(delta);
    if ed.Err? then Err(ed.error) else Ok(e.value + ed.value)
  }

  function DeltaEncryptor(c: BlockCipher, random: RandomBytes): BlockFunction
  {
    (i: nat, block: seq<bv8>) => DeltaEncryptBlock(c, block, Delta(random, i, |block|))
  }

  /** RANDOM_DELTA `encrypt`: every block with its own fresh delta. */
  function DeltaEncrypt(c: BlockCipher, blocks: seq<seq<bv8>>, random: RandomBytes): (r: Result<seq<seq<bv8>>>)
    ensures r.Ok? ==> |r.value| == |blocks|
  {
    MapBlocks(DeltaEncryptor(c, random), blocks)
  }

  /** `Arrays.copyOfRange`: `to - from` bytes from `from` on, zero-filled past the end of `a`. */
  function CopyOfRange(a: seq<bv8>, from: nat, to: nat): (r: Result<seq<bv8>>)
    ensures r.Ok? <==> from <= to && from <= |a|
    ensures from > to ==> r == Err(IllegalArgument(DecimalString(from) + " > " + DecimalString(to)))
    ensures r.Ok? ==> |r.value| == to - from &&
                      (forall i | from <= i < to :: r.value[i - from] == if i < |a| then a[i] else 0)
  {
    if from > to then Err(IllegalArgument(DecimalString(from) + " > " + DecimalString(to)))
    else if from > |a| then Err(IndexOutOfBounds)
    else if to <= |a| then Ok(a[from..to])
    else Ok(a[from..] + Bytes.Zeros(to - |a|))
  }

  /** One block: the first `half` bytes and the rest are decrypted (the delta part first) and
   *  XORed together. */
  function DeltaDecryptBlock(c: BlockCipher, block: seq<bv8>, half: nat): Result<seq<bv8>>
  {
    var dataPart := CopyOfRange(block, 0, half);
    var deltaPart := CopyOfRange(block, half, |block|);
    if dataPart.Err? then Err(dataPart.error) else
    if deltaPart.Err? then Err(deltaPart.error) else
    var delta := c.decrypt(deltaPart.value);
    if delta.Err? then Err(delta.error) else
    var decrypted := c.decrypt(dataPart.value);
    if decrypted.Err? then Err(decrypted.error) else
    XorBytes(decrypted.value, delta.value)
  }

  function DeltaDecryptor(c: BlockCipher, half: nat): BlockFunction
  {
    (i: nat, block: seq<bv8>) => DeltaDecryptBlock(c, block, half)
  }

  /** RANDOM_DELTA `decrypt`: the half size is taken from the first block, so an empty array of
   *  blocks throws. */
  function DeltaDecrypt(c: BlockCipher, blocks: seq<seq<bv8>>): (r: Result<seq<seq<bv8>>>)
    ensures |blocks| == 0 ==> r == Err(IndexOutOfBounds)
    ensures r.Ok? ==> |r.value| == |blocks|
  {
    if |blocks| == 0 then Err(IndexOutOfBounds) else MapBlocks(DeltaDecryptor(c, |blocks[0]| / 2), blocks)
  }

  /** Every block has length `n`. */
  predicate Uniform(blocks: seq<seq<bv8>>, n: nat)
  {
    forall i | 0 <= i < |blocks| :: |blocks[i]| == n
  }

  /** With D undoing E and E keeping lengths, one block decrypts back for every delta. */
  lemma {:induction false} DeltaBlockUndone(c: BlockCipher, block: seq<bv8>, delta: seq<bv8>)
    requires Inverts(c) && LengthPreserving(c) && |delta| == |block|
    requires DeltaEncryptBlock(c, block, delta).Ok?
    ensures DeltaDecryptBlock(c, DeltaEncryptBlock(c, block, delta).value, |block|) == Ok(block)
  {
    var modified := Bytes.Xor(block, delta);
    var e := c.encrypt(modified).value;
    var ed := c.encrypt(delta).value;
    var out := e + ed;
    assert out[0..|block|] == e;
    assert out[|block|..|out|] == ed;
    assert c.decrypt(e) == Ok(modified);
    assert c.decrypt(ed) == Ok(delta);
    Bytes.XorCancel(block, delta);
  }

  lemma {:induction false} DeltaRoundTripAll(c: BlockCipher, blocks: seq<seq<bv8>>, random: RandomBytes, n: nat)
    requires Inverts(c) && LengthPreserving(c) && Uniform(blocks, n)
    requires DeltaEncrypt(c, blocks, random).Ok?
    ensures MapBlocks(DeltaDecryptor(c, n), DeltaEncrypt(c, blocks, random).value) == Ok(blocks)
    decreases |blocks|
  {
    if |blocks| > 0 {
      var k := |blocks| - 1;
      var outs := DeltaEncrypt(c, blocks, random).value;
      var delta := Delta(random, k, |blocks[k]|);
      DeltaRoundTripAll(c, blocks[..k], random, n);
      assert DeltaEncryptor(c, random)(k, blocks[k]) == DeltaEncryptBlock(c, blocks[k], delta);
      DeltaBlockUndone(c, blocks[k], delta);
      assert outs[..k] == DeltaEncrypt(c, blocks[..k], random).value;
      assert DeltaDecryptor(c, n)(k, outs[k]) == Ok(blocks[k]);
      LastSplit(blocks);
    }
  }

  /** A non-empty array of blocks is its prefix followed by its last block. */
  lemma {:induction false} LastSplit(blocks: seq<seq<bv8>>)
    requires |blocks| > 0
    ensures blocks[..|blocks| - 1] + [blocks[|blocks| - 1]] == blocks
  {
  }

  /** The first output block is twice as long as the first input block. */
  lemma {:induction false} DeltaFirstLength(c: BlockCipher, blocks: seq<seq<bv8>>, random: RandomBytes)
    requires LengthPreserving(c) && |blocks| > 0 && DeltaEncrypt(c, blocks, random).Ok?
    ensures |DeltaEncrypt(c, blocks, random).value[0]| == 2 * |blocks[0]|
    decreases |blocks|
  {
    if |blocks| > 1 {
      DeltaFirstLength(c, blocks[..|blocks| - 1], random);
    } else {
      var delta := Delta(random, 0, |blocks[0]|);
      assert DeltaEncryptor(c, random)(0, blocks[0]) == DeltaEncryptBlock(c, blocks[0], delta);
      var e := c.encrypt(Bytes.Xor(blocks[0], delta));
      assert |e.value| == |blocks[0]|;
      assert |c.encrypt(delta).value| == |delta|;
    }
  }

  /** RANDOM_DELTA decrypts what it encrypted, whatever the deltas, for a non-empty array of
   *  equally long blocks and a cipher whose E keeps lengths and D undoes E. */
  lemma {:induction false} DeltaRoundTrip(c: BlockCipher, blocks: seq<seq<bv8>>, random: RandomBytes)
    requires Inverts(c) && LengthPreserving(c) && |blocks| > 0 && Uniform(blocks, |blocks[0]|)
    requires DeltaEncrypt(c, blocks, random).Ok?
    ensures DeltaDecrypt(c, DeltaEncrypt(c, blocks, random).value) == Ok(blocks)
  {
    DeltaRoundTripAll(c, blocks, random, |blocks[0]|);
    DeltaFirstLength(c, blocks, random);
  }

  // ---------------------------------------------------------------------------------------
  // The enum's entry points

  /** `mode.encrypt(blocks, cipher, iv)`. */
  function Encrypt(m: Mode, c: BlockCipher, blocks: seq<seq<bv8>>, iv: Option<seq<bv8>>, random: RandomBytes): (r: Result<seq<seq<bv8>>>)
    ensures RequiresIV(m) && iv.None? ==> r == Err(NullPointer)
    ensures r.Ok? ==> |r.value| == |blocks|
  {
    if m == RandomDelta then DeltaEncrypt(c, blocks, random) else Chained(m, Encrypting, c, blocks, iv)
  }

  /** `mode.decrypt(blocks, cipher, iv)`. */
  function Decrypt(m: Mode, c: BlockCipher, blocks: seq<seq<bv8>>, iv: Option<seq<bv8>>): (r: Result<seq<seq<bv8>>>)
    ensures RequiresIV(m) && iv.None? ==> r == Err(NullPointer)
    ensures m == RandomDelta && |blocks| == 0 ==> r == Err(IndexOutOfBounds)
    ensures r.Ok? ==> |r.value| == |blocks|
  {
    if m == RandomDelta then DeltaDecrypt(c, blocks) else Chained(m, Decrypting, c, blocks, iv)
  }

  /** Every mode decrypts what it encrypted, given what the mode needs of the cipher; for
   *  RANDOM_DELTA the blocks must also be non-empty in number and of equal length. */
  lemma {:induction false} RoundTrip(m: Mode, c: BlockCipher, blocks: seq<seq<bv8>>, iv: Option<seq<bv8>>, random: RandomBytes)
    requires Undoable(m, c) && Encrypt(m, c, blocks, iv, random).Ok?
    requires m == RandomDelta ==> |blocks| > 0 && Uniform(blocks, |blocks[0]|)
    ensures Decrypt(m, c, Encrypt(m, c, blocks, iv, random).value, iv) == Ok(blocks)
  {
    if m == RandomDelta {
      DeltaRoundTrip(c, blocks, random);
    } else {
      RunRoundTrip(m, c, blocks, iv.GetOr([]));
    }
  }

  /** OFB and CTR: applying the mode twice gives the blocks back, for any E. */
  lemma {:induction false} Involution(m: Mode, c: BlockCipher, blocks: seq<seq<bv8>>, iv: seq<bv8>, random: RandomBytes)
    requires m in {OFB, CTR} && Encrypt(m, c, blocks, Some(iv), random).Ok?
    ensures Encrypt(m, c, Encrypt(m, c, blocks, Some(iv), random).value, Some(iv), random) == Ok(blocks)
  {
    RunRoundTrip(m, c, blocks, iv);
    SameBothWays(m, c, Encrypt(m, c, blocks, Some(iv), random).value, iv);
  }

  /** With E keeping lengths, one encryption step keeps the block's length in every chained
   *  mode: the output is E of a block-long XOR, or a block-long XOR with the keystream. */
  lemma {:induction false} StepKeepsLength(m: Mode, c: BlockCipher, state: seq<bv8>, block: seq<bv8>)
    requires m != RandomDelta && LengthPreserving(c) && Step(m, Encrypting, c, state, block).Ok?
    ensures |Step(m, Encrypting, c, state, block).value.out| == |block|
  {
    match m
    case ECB =>
    case CBC => assert c.encrypt(XorBytes(block, state).value).Ok?;
    case PCBC => assert c.encrypt(XorBytes(block, state).value).Ok?;
    case CFB =>
    case OFB =>
    case CTR =>
  }

  /** With E keeping lengths, every ciphertext block of a chained mode is as long as its
   *  plaintext block. */
  lemma {:induction false} RunKeepsLengths(m: Mode, c: BlockCipher, blocks: seq<seq<bv8>>, start: seq<bv8>)
    requires m != RandomDelta && LengthPreserving(c) && Run(m, Encrypting, c, blocks, start).Ok?
    ensures forall i | 0 <= i < |blocks| :: |Run(m, Encrypting, c, blocks, start).value.outs[i]| == |blocks[i]|
    decreases |blocks|
  {
    if |blocks| > 0 {
      var pre := blocks[..|blocks| - 1];
      RunKeepsLengths(m, c, pre, start);
      StepKeepsLength(m, c, Run(m, Encrypting, c, pre, start).value.state, blocks[|blocks| - 1]);
    }
  }

  /** E accepts every block of `n` bytes and returns `n` bytes. */
  ghost predicate TotalOn(c: BlockCipher, n: nat)
  {
    forall x: seq<bv8> | |x| == n :: c.encrypt(x).Ok? && |c.encrypt(x).value| == n
  }

  /** CBC encryption cannot fail when E is total on `n`-byte blocks, every block has `n`
   *  bytes and the IV has at least `n`: each XOR finds enough bytes in the previous block. */
  lemma {:induction false} CbcDefined(c: BlockCipher, blocks: seq<seq<bv8>>, iv: seq<bv8>, n: nat)
    requires TotalOn(c, n) && Uniform(blocks, n) && |iv| >= n
    ensures Run(CBC, Encrypting, c, blocks, iv).Ok? && |Run(CBC, Encrypting, c, blocks, iv).value.state| >= n
    decreases |blocks|
  {
    if |blocks| > 0 {
      var pre := blocks[..|blocks| - 1];
      CbcDefined(c, pre, iv, n);
      var x := XorBytes(blocks[|blocks| - 1], Run(CBC, Encrypting, c, pre, iv).value.state);
      assert x.Ok? && |x.value| == n;
      assert c.encrypt(x.value).Ok?;
    }
  }

  /** Hence CBC `encrypt` succeeds on such blocks. */
  lemma {:induction false} CbcEncryptDefined(c: BlockCipher, blocks: seq<seq<bv8>>, iv: seq<bv8>, n: nat, random: RandomBytes)
    requires TotalOn(c, n) && Uniform(blocks, n) && |iv| >= n
    ensures Encrypt(CBC, c, blocks, Some(iv), random).Ok?
  {
    CbcDefined(c, blocks, iv, n);
  }

  // ---------------------------------------------------------------------------------------
  // The loops as the enum runs them

  /** ECB `encrypt`: E of every block; the IV is never read. */
  method EcbEncrypt(c: BlockCipher, blocks: seq<seq<bv8>>, iv: Option<seq<bv8>>) returns (r: Result<seq<seq<bv8>>>)
    ensures r == Chained(ECB, Encrypting, c, blocks, iv)
  {
    ghost var start := iv.GetOr([]);
    var result := new seq<bv8>[|blocks|](_ => []);
    for i := 0 to |blocks|
      invariant Run(ECB, Encrypting, c, blocks[..i], start) == Ok(Progress(result[..i], start))
    {
      ghost var before := result[..i];
      RunNext(ECB, Encrypting, c, blocks, start, i, Progress(before, start));
      var encrypted := c.encrypt(blocks[i]);
      if encrypted.Err? {
        return Err(encrypted.error);
      }
      result[i] := encrypted.value;
      assert result[..i + 1] == before + [encrypted.value];
    }
    assert blocks[..|blocks|] == blocks && result[..|blocks|] == result[..];
    r := Ok(result[..]);
  }

  /** ECB `decrypt`: D of every block. */
  method EcbDecrypt(c: BlockCipher, blocks: seq<seq<bv8>>, iv: Option<seq<bv8>>) returns (r: Result<seq<seq<bv8>>>)
    ensures r == Chained(ECB, Decrypting, c, blocks, iv)
  {
    ghost var start := iv.GetOr([]);
    var result := new seq<bv8>[|blocks|](_ => []);
    for i := 0 to |blocks|
      invariant Run(ECB, Decrypting, c, blocks[..i], start) == Ok(Progress(result[..i], start))
    {
      ghost var before := result[..i];
      RunNext(ECB, Decrypting, c, blocks, start, i, Progress(before, start));
      var decrypted := c.decrypt(blocks[i]);
      if decrypted.Err? {
        return Err(decrypted.error);
      }
      result[i] := decrypted.value;
      assert result[..i + 1] == before + [decrypted.value];
    }
    assert blocks[..|blocks|] == blocks && result[..|blocks|] == result[..];
    r := Ok(result[..]);
  }

  /** CBC `encrypt`: XOR with the previous ciphertext block (the IV first), then E. */
  method CbcEncrypt(c: BlockCipher, blocks: seq<seq<bv8>>, iv: Option<seq<bv8>>) returns (r: Result<seq<seq<bv8>>>)
    ensures r == Chained(CBC, Encrypting, c, blocks, iv)
  {
    if iv.None? {
      return Err(NullPointer);
    }
    var result := new seq<bv8>[|blocks|](_ => []);
    var prev := iv.value;
    for i := 0 to |blocks|
      invariant Run(CBC, Encrypting, c, blocks[..i], iv.value) == Ok(Progress(result[..i], prev))
    {
      ghost var before := result[..i];
      RunNext(CBC, Encrypting, c, blocks, iv.value, i, Progress(before, prev));
      var step := CbcEncryptBlock(c, prev, blocks[i]);
      if step.Err? {
        return Err(step.error);
      }
      result[i] := step.value.out;
      prev := step.value.next;
      assert result[..i + 1] == before + [step.value.out];
    }
    assert blocks[..|blocks|] == blocks && result[..|blocks|] == result[..];
    r := Ok(result[..]);
  }

  /** CBC `decrypt`: D, then XOR with the previous ciphertext block (the IV first). */
  method CbcDecrypt(c: BlockCipher, blocks: seq<seq<bv8>>, iv: Option<seq<bv8>>) returns (r: Result<seq<seq<bv8>>>)
    ensures r == Chained(CBC, Decrypting, c, blocks, iv)
  {
    if iv.None? {
      return Err(NullPointer);
    }
    var result := new seq<bv8>[|blocks|](_ => []);
    var prev := iv.value;
    for i := 0 to |blocks|
      invariant Run(CBC, Decrypting, c, blocks[..i], iv.value) == Ok(Progress(result[..i], prev))
    {
      ghost var before := result[..i];
      RunNext(CBC, Decrypting, c, blocks, iv.value, i, Progress(before, prev));
      var step := CbcDecryptBlock(c, prev, blocks[i]);
      if step.Err? {
        return Err(step.error);
      }
      result[i] := step.value.out;
      prev := step.value.next;
      assert result[..i + 1] == before + [step.value.out];
    }
    assert blocks[..|blocks|] == blocks && result[..|blocks|] == result[..];
    r := Ok(result[..]);
  }

  /** PCBC `encrypt`: like CBC, but the value carried on is plaintext XOR ciphertext. */
  method PcbcEncrypt(c: BlockCipher, blocks: seq<seq<bv8>>, iv: Option<seq<bv8>>) returns (r: Result<seq<seq<bv8>>>)
    ensures r == Chained(PCBC, Encrypting, c, blocks, iv)
  {
    if iv.None? {
      return Err(NullPointer);
    }
    var result := new seq<bv8>[|blocks|](_ => []);
    var prev := iv.value;
    for i := 0 to |blocks|
      invariant Run(PCBC, Encrypting, c, blocks[..i], iv.value) == Ok(Progress(result[..i], prev))
    {
      ghost var before := result[..i];
      RunNext(PCBC, Encrypting, c, blocks, iv.value, i, Progress(before, prev));
      var step := PcbcEncryptBlock(c, prev, blocks[i]);
      if step.Err? {
        return Err(step.error);
      }
      result[i] := step.value.out;
      prev := step.value.next;
      assert result[..i + 1] == before + [step.value.out];
    }
    assert blocks[..|blocks|] == blocks && result[..|blocks|] == result[..];
    r := Ok(result[..]);
  }

  /** PCBC `decrypt`: D, XOR with the carried value, then carry ciphertext XOR plaintext. */
  method PcbcDecrypt(c: BlockCipher, blocks: seq<seq<bv8>>, iv: Option<seq<bv8>>) returns (r: Result<seq<seq<bv8>>>)
    ensures r == Chained(PCBC, Decrypting, c, blocks, iv)
  {
    if iv.None? {
      return Err(NullPointer);
    }
    var result := new seq<bv8>[|blocks|](_ => []);
    var prev := iv.value;
    for i := 0 to |blocks|
      invariant Run(PCBC, Decrypting, c, blocks[..i], iv.value) == Ok(Progress(result[..i], prev))
    {
      ghost var before := result[..i];
      RunNext(PCBC, Decrypting, c, blocks, iv.value, i, Progress(before, prev));
      var step := PcbcDecryptBlock(c, prev, blocks[i]);
      if step.Err? {
        return Err(step.error);
      }
      result[i] := step.value.out;
      prev := step.value.next;
      assert result[..i + 1] == before + [step.value.out];
    }
    assert blocks[..|blocks|] == blocks && result[..|blocks|] == result[..];
    r := Ok(result[..]);
  }

  /** The body of CBC `encrypt` for one block: XOR with the previous ciphertext block, then E;
   *  the ciphertext is carried on. */
  method CbcEncryptBlock(c: BlockCipher, prev: seq<bv8>, block: seq<bv8>) returns (r: Result<StepOut>)
    ensures r == CbcStep(Encrypting, c, prev, block)
  {
    var xored := XorBytesLoop(block, prev);
    if xored.Err? {
      return Err(xored.error);
    }
    var encrypted := c.encrypt(xored.value);
    if encrypted.Err? {
      return Err(encrypted.error);
    }
    r := Ok(StepOut(encrypted.value, encrypted.value));
  }

  /** The body of CBC `decrypt` for one block: D, then XOR with the previous ciphertext block;
   *  this ciphertext block is carried on. */
  method CbcDecryptBlock(c: BlockCipher, prev: seq<bv8>, block: seq<bv8>) returns (r: Result<StepOut>)
    ensures r == CbcStep(Decrypting, c, prev, block)
  {
    var decrypted := c.decrypt(block);
    if decrypted.Err? {
      return Err(decrypted.error);
    }
    var plain := XorBytesLoop(decrypted.value, prev);
    if plain.Err? {
      return Err(plain.error);
    }
    r := Ok(StepOut(plain.value, block));
  }

  /** The body of PCBC `encrypt` for one block: XOR with the carried value, E, and the next
   *  carried value plaintext XOR ciphertext. */
  method PcbcEncryptBlock(c: BlockCipher, prev: seq<bv8>, block: seq<bv8>) returns (r: Result<StepOut>)
    ensures r == PcbcStep(Encrypting, c, prev, block)
  {
    var xored := XorBytesLoop(block, prev);
    if xored.Err? {
      return Err(xored.error);
    }
    var encrypted := c.encrypt(xored.value);
    if encrypted.Err? {
      return Err(encrypted.error);
    }
    var next := XorBytesLoop(block, encrypted.value);
    if next.Err? {
      return Err(next.error);
    }
    r := Ok(StepOut(encrypted.value, next.value));
  }

  /** The body of PCBC `decrypt` for one block: D, XOR with the carried value, and the next
   *  carried value ciphertext XOR plaintext. */
  method PcbcDecryptBlock(c: BlockCipher, prev: seq<bv8>, block: seq<bv8>) returns (r: Result<StepOut>)
    ensures r == PcbcStep(Decrypting, c, prev, block)
  {
    var decrypted := c.decrypt(block);
    if decrypted.Err? {
      return Err(decrypted.error);
    }
    var plain := XorBytesLoop(decrypted.value, prev);
    if plain.Err? {
      return Err(plain.error);
    }
    var next := XorBytesLoop(block, plain.value);
    if next.Err? {
      return Err(next.error);
    }
    r := Ok(StepOut(plain.value, next.value));
  }

  /** CFB `encrypt`: XOR with E of the feedback, which then becomes the ciphertext block. */
  method CfbEncrypt(c: BlockCipher, blocks: seq<seq<bv8>>, iv: Option<seq<bv8>>) returns (r: Result<seq<seq<bv8>>>)
    ensures r == Chained(CFB, Encrypting, c, blocks, iv)
  {
    if iv.None? {
      return Err(NullPointer);
    }
    var result := new seq<bv8>[|blocks|](_ => []);
    var feedback := iv.value;
    for i := 0 to |blocks|
      invariant Run(CFB, Encrypting, c, blocks[..i], iv.value) == Ok(Progress(result[..i], feedback))
    {
      ghost var before := result[..i];
      RunNext(CFB, Encrypting, c, blocks, iv.value, i, Progress(before, feedback));
      var step := CfbEncryptBlock(c, feedback, blocks[i]);
      if step.Err? {
        return Err(step.error);
      }
      result[i] := step.value.out;
      feedback := step.value.next;
      assert result[..i + 1] == before + [step.value.out];
    }
    assert blocks[..|blocks|] == blocks && result[..|blocks|] == result[..];
    r := Ok(result[..]);
  }

  /** CFB `decrypt`: the same XOR with E of the feedback, which then becomes the input block. */
  method CfbDecrypt(c: BlockCipher, blocks: seq<seq<bv8>>, iv: Option<seq<bv8>>) returns (r: Result<seq<seq<bv8>>>)
    ensures r == Chained(CFB, Decrypting, c, blocks, iv)
  {
    if iv.None? {
      return Err(NullPointer);
    }
    var result := new seq<bv8>[|blocks|](_ => []);
    var feedback := iv.value;
    for i := 0 to |blocks|
      invariant Run(CFB, Decrypting, c, blocks[..i], iv.value) == Ok(Progress(result[..i], feedback))
    {
      ghost var before := result[..i];
      RunNext(CFB, Decrypting, c, blocks, iv.value, i, Progress(before, feedback));
      var step := CfbDecryptBlock(c, feedback, blocks[i]);
      if step.Err? {
        return Err(step.error);
      }
      result[i] := step.value.out;
      feedback := step.value.next;
      assert result[..i + 1] == before + [step.value.out];
    }
    assert blocks[..|blocks|] == blocks && result[..|blocks|] == result[..];
    r := Ok(result[..]);
  }

  /** The body of CFB `encrypt` for one block: XOR with E of the feedback; the output block
   *  is the next feedback. */
  method CfbEncryptBlock(c: BlockCipher, feedback: seq<bv8>, block: seq<bv8>) returns (r: Result<StepOut>)
    ensures r == CfbStep(Encrypting, c, feedback, block)
  {
    var encrypted := c.encrypt(feedback);
    if encrypted.Err? {
      return Err(encrypted.error);
    }
    var out := XorBytesLoop(block, encrypted.value);
    if out.Err? {
      return Err(out.error);
    }
    r := Ok(StepOut(out.value, out.value));
  }

  /** The body of CFB `decrypt` for one block: XOR with E of the feedback; the input block is
   *  the next feedback. */
  method CfbDecryptBlock(c: BlockCipher, feedback: seq<bv8>, block: seq<bv8>) returns (r: Result<StepOut>)
    ensures r == CfbStep(Decrypting, c, feedback, block)
  {
    var encrypted := c.encrypt(feedback);
    if encrypted.Err? {
      return Err(encrypted.error);
    }
    var out := XorBytesLoop(block, encrypted.value);
    if out.Err? {
      return Err(out.error);
    }
    r := Ok(StepOut(out.value, block));
  }

  /** OFB `process`, which both `encrypt` and `decrypt` call: the feedback is E applied again
   *  and again to the IV, and every block is XORed with it. */
  method OfbProcess(c: BlockCipher, blocks: seq<seq<bv8>>, iv: Option<seq<bv8>>) returns (r: Result<seq<seq<bv8>>>)
    ensures r == Chained(OFB, Encrypting, c, blocks, iv)
    ensures r == Chained(OFB, Decrypting, c, blocks, iv)
  {
    if iv.None? {
      return Err(NullPointer);
    }
    SameBothWays(OFB, c, blocks, iv.value);
    var outs := OfbRun(c, blocks, iv.value);
    r := outs;
  }

  /** The block loop of OFB `process` once the IV is known to be present. */
  method OfbRun(c: BlockCipher, blocks: seq<seq<bv8>>, iv: seq<bv8>) returns (r: Result<seq<seq<bv8>>>)
    ensures r == Chained(OFB, Encrypting, c, blocks, Some(iv))
  {
    var result := new seq<bv8>[|blocks|](_ => []);
    var feedback := iv;
    for i := 0 to |blocks|
      invariant Run(OFB, Encrypting, c, blocks[..i], iv) == Ok(Progress(result[..i], feedback))
    {
      ghost var before := result[..i];
      RunNext(OFB, Encrypting, c, blocks, iv, i, Progress(before, feedback));
      var step := OfbBlock(c, feedback, blocks[i]);
      if step.Err? {
        return Err(step.error);
      }
      result[i] := step.value.out;
      feedback := step.value.next;
      assert result[..i + 1] == before + [step.value.out];
    }
    assert blocks[..|blocks|] == blocks && result[..|blocks|] == result[..];
    r := Ok(result[..]);
  }

  /** The body of OFB `process` for one block: E of the feedback is both the next feedback
   *  and what the block is XORed with. */
  method OfbBlock(c: BlockCipher, feedback: seq<bv8>, block: seq<bv8>) returns (r: Result<StepOut>)
    ensures r == OfbStep(c, feedback, block)
  {
    var encrypted := c.encrypt(feedback);
    if encrypted.Err? {
      return Err(encrypted.error);
    }
    var out := XorBytesLoop(block, encrypted.value);
    if out.Err? {
      return Err(out.error);
    }
    r := Ok(StepOut(out.value, encrypted.value));
  }

  /** CTR `process`, which both `encrypt` and `decrypt` call: every block is XORed with E of the
   *  counter, a copy of the IV that is incremented in place after each block. */
  method CtrProcess(c: BlockCipher, blocks: seq<seq<bv8>>, iv: Option<seq<bv8>>) returns (r: Result<seq<seq<bv8>>>)
    ensures r == Chained(CTR, Encrypting, c, blocks, iv)
    ensures r == Chained(CTR, Decrypting, c, blocks, iv)
  {
    if iv.None? {
      return Err(NullPointer);
    }
    SameBothWays(CTR, c, blocks, iv.value);
    var outs := CtrRun(c, blocks, iv.value);
    r := outs;
  }

  /** The block loop of CTR `process` once the IV is known to be present: the counter array
   *  starts as a copy of the IV and is incremented after every block. */
  method CtrRun(c: BlockCipher, blocks: seq<seq<bv8>>, iv: seq<bv8>) returns (r: Result<seq<seq<bv8>>>)
    ensures r == Chained(CTR, Encrypting, c, blocks, Some(iv))
  {
    var result := new seq<bv8>[|blocks|](_ => []);
    var currentCounter := new bv8[|iv|](j requires 0 <= j < |iv| => iv[j]);
    assert currentCounter[..] == iv;
    for i := 0 to |blocks|
      invariant Run(CTR, Encrypting, c, blocks[..i], iv) == Ok(Progress(result[..i], currentCounter[..]))
    {
      ghost var before := result[..i];
      var out := CtrTurn(c, blocks, iv, i, before, currentCounter);
      if out.Err? {
        return Err(out.error);
      }
      result[i] := out.value;
      assert result[..i + 1] == before + [out.value];
    }
    assert blocks[..|blocks|] == blocks && result[..|blocks|] == result[..];
    r := Ok(result[..]);
  }

  /** One turn of the CTR loop: block `i` is processed and the counter incremented, or the
   *  error that stops the run is returned. */
  method CtrTurn(c: BlockCipher, blocks: seq<seq<bv8>>, ghost iv: seq<bv8>, i: nat,
                 ghost outs: seq<seq<bv8>>, counter: array<bv8>) returns (r: Result<seq<bv8>>)
    requires i < |blocks|
    requires Run(CTR, Encrypting, c, blocks[..i], iv) == Ok(Progress(outs, counter[..]))
    modifies counter
    ensures r.Err? ==> Run(CTR, Encrypting, c, blocks, iv) == Err(r.error)
    ensures r.Ok? ==> Run(CTR, Encrypting, c, blocks[..i + 1], iv) == Ok(Progress(outs + [r.value], counter[..]))
  {
    RunNext(CTR, Encrypting, c, blocks, iv, i, Progress(outs, counter[..]));
    r := CtrBlock(c, counter, blocks[i]);
  }

  /** The body of CTR `process` for one block: XOR with E of the counter, then the counter
   *  incremented in place. */
  method CtrBlock(c: BlockCipher, counter: array<bv8>, block: seq<bv8>) returns (r: Result<seq<bv8>>)
    modifies counter
    ensures r.Err? ==> CtrStep(c, old(counter[..]), block) == Err(r.error)
    ensures r.Ok? ==> CtrStep(c, old(counter[..]), block) == Ok(StepOut(r.value, counter[..]))
  {
    var encrypted := c.encrypt(counter[..]);
    if encrypted.Err? {
      return Err(encrypted.error);
    }
    var out := XorBytesLoop(block, encrypted.value);
    if out.Err? {
      return Err(out.error);
    }
    IncrementCounter(counter);
    r := Ok(out.value);
  }

  /** RANDOM_DELTA `encrypt`: for every block a fresh delta δ as long as the block, and the
   *  output block E(P ⊕ δ) followed by E(δ). */
  method RandomDeltaEncrypt(c: BlockCipher, blocks: seq<seq<bv8>>, random: RandomBytes) returns (r: Result<seq<seq<bv8>>>)
    ensures r == DeltaEncrypt(c, blocks, random)
  {
    ghost var f := DeltaEncryptor(c, random);
    var result := new seq<bv8>[|blocks|](_ => []);
    for i := 0 to |blocks|
      invariant MapBlocks(f, blocks[..i]) == Ok(result[..i])
    {
      ghost var before := result[..i];
      MapNext(f, blocks, i, before);
      var delta := Delta(random, i, |blocks[i]|);
      assert f(i, blocks[i]) == DeltaEncryptBlock(c, blocks[i], delta);
      var modified := XorBytesLoop(blocks[i], delta);
      var encrypted := c.encrypt(modified.value);
      if encrypted.Err? {
        return Err(encrypted.error);
      }
      var encryptedDelta := c.encrypt(delta);
      if encryptedDelta.Err? {
        return Err(encryptedDelta.error);
      }
      result[i] := encrypted.value + encryptedDelta.value;
      assert result[..i + 1] == before + [encrypted.value + encryptedDelta.value];
    }
    assert blocks[..|blocks|] == blocks && result[..|blocks|] == result[..];
    r := Ok(result[..]);
  }

  /** RANDOM_DELTA `decrypt`: every block split at half the first block's length, both parts
   *  decrypted and XORed. */
  method RandomDeltaDecrypt(c: BlockCipher, blocks: seq<seq<bv8>>) returns (r: Result<seq<seq<bv8>>>)
    ensures r == DeltaDecrypt(c, blocks)
  {
    if |blocks| == 0 {
      return Err(IndexOutOfBounds);
    }
    var result := new seq<bv8>[|blocks|](_ => []);
    var halfSize := |blocks[0]| / 2;
    ghost var f := DeltaDecryptor(c, halfSize);
    for i := 0 to |blocks|
      invariant MapBlocks(f, blocks[..i]) == Ok(result[..i])
    {
      ghost var before := result[..i];
      MapNext(f, blocks, i, before);
      assert f(i, blocks[i]) == DeltaDecryptBlock(c, blocks[i], halfSize);
      var dataPart := CopyOfRange(blocks[i], 0, halfSize);
      var deltaPart := CopyOfRange(blocks[i], halfSize, |blocks[i]|);
      if deltaPart.Err? {
        return Err(deltaPart.error);
      }
      var delta := c.decrypt(deltaPart.value);
      if delta.Err? {
        return Err(delta.error);
      }
      var decrypted := c.decrypt(dataPart.value);
      if decrypted.Err? {
        return Err(decrypted.error);
      }
      var out := XorBytesLoop(decrypted.value, delta.value);
      if out.Err? {
        return Err(out.error);
      }
      result[i] := out.value;
      assert result[..i + 1] == before + [out.value];
    }
    assert blocks[..|blocks|] == blocks && result[..|blocks|] == result[..];
    r := Ok(result[..]);
  }

  /** The enum's `encrypt`, dispatched on the constant. */
  method EncryptBlocks(m: Mode, c: BlockCipher, blocks: seq<seq<bv8>>, iv: Option<seq<bv8>>, random: RandomBytes)
    returns (r: Result<seq<seq<bv8>>>)
    ensures r == Encrypt(m, c, blocks, iv, random)
  {
    match m
    case ECB => r := EcbEncrypt(c, blocks, iv);
    case CBC => r := CbcEncrypt(c, blocks, iv);
    case PCBC => r := PcbcEncrypt(c, blocks, iv);
    case CFB => r := CfbEncrypt(c, blocks, iv);
    case OFB => r := OfbProcess(c, blocks, iv);
    case CTR => r := CtrProcess(c, blocks, iv);
    case RandomDelta => r := RandomDeltaEncrypt(c, blocks, random);
  }

  /** The enum's `decrypt`, dispatched on the constant. */
  method DecryptBlocks(m: Mode, c: BlockCipher, blocks: seq<seq<bv8>>, iv: Option<seq<bv8>>) returns (r: Result<seq<seq<bv8>>>)
    ensures r == Decrypt(m, c, blocks, iv)
  {
    match m
    case ECB => r := EcbDecrypt(c, blocks, iv);
    case CBC => r := CbcDecrypt(c, blocks, iv);
    case PCBC => r := PcbcDecrypt(c, blocks, iv);
    case CFB => r := CfbDecrypt(c, blocks, iv);
    case OFB => r := OfbProcess(c, blocks, iv);
    case CTR => r := CtrProcess(c, blocks, iv);
    case RandomDelta => r := RandomDeltaDecrypt(c, blocks);
  }
}
