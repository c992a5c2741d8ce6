/**
 * Network events: a 256-bit pseudo-random event hash plus what a membership
 * change produced (new sections, a vault to relocate). Generic in the section
 * and vault types so that this module need not know them.
 */
module NetworkEvents {
  import opened Common
  import opened BigInt
  import opened Random
  import XorNames

  const NetworkeventHashBits: nat := 256
  const NetworkeventHashBytes: nat := NetworkeventHashBits / 8

  datatype NetworkEvent<S, V> = NetworkEvent(hash: nat, newSections: seq<S>, vaultToRelocate: Option<V>)
  {
    /** `HashModIsZero`: whether the divisor divides the hash (Go panics on a zero divisor). */
    predicate HashModIsZero(divisor: int)
      requires divisor != 0
      ensures HashModIsZero(divisor) <==> exists k :: hash == k * divisor
    {
      XorNames.BigIntModInt64IsZero(hash, divisor)
    }
  }

  /** `largestHashValue`: 32 bytes of 0xFF. */
  function LargestHashValue(): (b: seq<byte>)
    ensures |b| == NetworkeventHashBytes && forall i :: 0 <= i < |b| ==> b[i] == 0xFF
  {
    [ 0xFF, 0xFF, 0xFF, 0xFF, 0xFF, 0xFF, 0xFF, 0xFF, 0xFF, 0xFF, 0xFF, 0xFF, 0xFF, 0xFF, 0xFF, 0xFF,
      0xFF, 0xFF, 0xFF, 0xFF, 0xFF, 0xFF, 0xFF, 0xFF, 0xFF, 0xFF, 0xFF, 0xFF, 0xFF, 0xFF, 0xFF, 0xFF ]
  }

  /** The largest hash value is 2^256 - 1, so it bounds every hash and every XOR of two 256-bit names. */
  lemma LargestHashValueIsMaximum(a: nat, b: nat)
    requires a < Pow2(NetworkeventHashBits) && b < Pow2(NetworkeventHashBits)
    ensures FromBytes(LargestHashValue()) == Pow2(NetworkeventHashBits) - 1
    ensures Xor(a, b) <= FromBytes(LargestHashValue())
  {
    AllOnesBound(LargestHashValue(), NetworkeventHashBits, a, b);
  }

  lemma AllOnesBound(ones: seq<byte>, k: nat, a: nat, b: nat)
    requires 8 * |ones| == k && forall i :: 0 <= i < |ones| ==> ones[i] == 0xFF
    requires a < Pow2(k) && b < Pow2(k)
    ensures FromBytes(ones) == Pow2(k) - 1 && Xor(a, b) <= FromBytes(ones)
  {
    AllOnesBytes(ones);
    XorBound(a, b, k);
  }

  /** `NewNetworkEvent`: a hash read big-endian from 32 drawn bytes, nothing else set. */
  method NewNetworkEvent<S, V>(rng: Prng) returns (ne: NetworkEvent<S, V>)
    modifies rng
    ensures ne.hash == FromBytes(rng.Bytes(old(rng.cursor), NetworkeventHashBytes))
    ensures ne.hash < Pow2(NetworkeventHashBits)
    ensures ne.newSections == [] && ne.vaultToRelocate == None
    ensures rng.cursor == old(rng.cursor) + NetworkeventHashBytes
  {
    var b := rng.Read(NetworkeventHashBytes);
    FromBytesBound(b);
    assert 8 * |b| == NetworkeventHashBits;
    ne := NetworkEvent(FromBytes(b), [], None);
  }

  /** Every hash is divisible by 1, and divisibility by 2^(k+1) implies divisibility by 2^k. */
  lemma {:induction false} HashModPowersOfTwo<S, V>(ne: NetworkEvent<S, V>, k: nat)
    ensures ne.HashModIsZero(1)
    ensures ne.HashModIsZero(Pow2(k + 1)) ==> ne.HashModIsZero(Pow2(k))
  {
    assert ne.hash == ne.hash * 1;
    if ne.HashModIsZero(Pow2(k + 1)) {
      var m :| ne.hash == m * Pow2(k + 1);
      assert ne.hash == (2 * m) * Pow2(k);
    }
  }
}
