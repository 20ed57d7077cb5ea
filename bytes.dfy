/** Byte-buffer helpers shared by the cipher modules. */
module Bytes {

  /** A fresh Java `new byte[n]`: `n` zero bytes. */
  function Zeros(n: nat): (z: seq<bv8>)
    ensures |z| == n && forall i | 0 <= i < n :: z[i] == 0
  {
    if n == 0 then [] else Zeros(n - 1) + [0]
  }

  /** Byte-wise exclusive or of `a` with the first `|a|` bytes of `b`. */
  function Xor(a: seq<bv8>, b: seq<bv8>): (r: seq<bv8>)
    requires |b| >= |a|
    ensures |r| == |a| && forall i | 0 <= i < |a| :: r[i] == a[i] ^ b[i]
  {
    if |a| == 0 then [] else Xor(a[..|a| - 1], b) + [a[|a| - 1] ^ b[|a| - 1]]
  }

  /** Exclusive or with the same mask twice gives the bytes back. */
  lemma {:induction false} XorCancel(a: seq<bv8>, b: seq<bv8>)
    requires |b| >= |a|
    ensures Xor(Xor(a, b), b) == a
  {
  }

  lemma {:induction false} XorCommutes(a: seq<bv8>, b: seq<bv8>)
    requires |a| == |b|
    ensures Xor(a, b) == Xor(b, a)
  {
  }

  /** The XOR loop: a fresh array of `|a|` bytes, byte `i` set to `a[i] ^ b[i]`. */
  method XorLoop(a: seq<bv8>, b: seq<bv8>) returns (r: seq<bv8>)
    requires |b| >= |a|
    ensures r == Xor(a, b)
  {
    var result := new bv8[|a|](_ => 0);
    for i := 0 to |a|
      invariant forall q | 0 <= q < i :: result[q] == a[q] ^ b[q]
    {
      result[i] := a[i] ^ b[i];
    }
    r := result[..];
  }
}
