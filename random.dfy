/**
 * The simulator's pseudo-random generator, passed explicitly instead of the
 * package-level `prng`. Its output is an arbitrary stream of naturals fixed at
 * construction; every draw consumes the next element, so a run is a function
 * of the stream.
 */
module Random {
  import opened Common

  class Prng {
    const stream: nat -> nat
    var cursor: nat

    constructor (stream: nat -> nat)
      ensures this.stream == stream && cursor == 0
    {
      this.stream := stream;
      cursor := 0;
    }

    /** `rand.Intn(n)`: a draw in [0, n); Go panics when n <= 0. */
    method Intn(n: nat) returns (r: nat)
      requires n > 0
      modifies this
      ensures r < n && r == stream(old(cursor)) % n
      ensures cursor == old(cursor) + 1
    {
      r := stream(cursor) % n;
      cursor := cursor + 1;
    }

    /** The `count` bytes the stream yields from position `at` on, one per element, each taken modulo 256. */
    function Bytes(at: nat, count: nat): (b: seq<byte>)
      ensures |b| == count && forall i :: 0 <= i < count ==> b[i] as nat == stream(at + i) % 256
    {
      seq(count, i requires 0 <= i < count => (stream(at + i) % 256) as byte)
    }

    /** `rand.Read(b)` for a buffer of `count` bytes. */
    method Read(count: nat) returns (b: seq<byte>)
      modifies this
      ensures b == Bytes(old(cursor), count)
      ensures cursor == old(cursor) + count
    {
      b := [];
      while |b| < count
        invariant |b| <= count
        invariant cursor == old(cursor) + |b|
        invariant forall i :: 0 <= i < |b| ==> b[i] as nat == stream(old(cursor) + i) % 256
      {
        b := b + [(stream(cursor) % 256) as byte];
        cursor := cursor + 1;
      }
    }
  }
}
