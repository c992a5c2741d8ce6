/**
 * Vaults: a node of the network with a name, the prefix of the section it
 * belongs to, an age, whether it is run by an attacker, and storage figures.
 */
module Vaults {
  import opened Common
  import opened BigInt
  import opened Random
  import opened XorNames
  import opened Prefixes

  /** The starting storage sizes a new vault draws from, in MB. */
  const StartingStorageSizesMb: seq<real> := [100.0, 200.0, 300.0, 400.0, 500.0]

  /** `randomStorageSize`: one of the starting sizes, picked by the prng. */
  method RandomStorageSize(rng: Prng) returns (mb: real)
    modifies rng
    ensures mb == StartingStorageSizesMb[rng.stream(old(rng.cursor)) % |StartingStorageSizesMb|]
    ensures mb in StartingStorageSizesMb
    ensures rng.cursor == old(rng.cursor) + 1
  {
    var i := rng.Intn(|StartingStorageSizesMb|);
    mb := StartingStorageSizesMb[i];
  }

  /** The prefix field of a vault not yet placed in a section (Go's zero value). */
  const UnassignedPrefix: Prefix := Prefix([], [])

  class Vault {
    var name: XorName
    var prefix: Prefix
    var age: int
    var isAttacker: bool
    var usedMb: real
    var spareMb: real

    /** `NewVault`: a fresh random name, age 1, nothing used, a random spare size. */
    constructor (rng: Prng)
      modifies rng
      ensures WellFormed(name)
      ensures prefix == UnassignedPrefix && age == 1 && !isAttacker
      ensures usedMb == 0.0 && spareMb in StartingStorageSizesMb
      ensures rng.cursor == old(rng.cursor) + XornameBits + 1
    {
      var n := NewXorName(rng);
      var mb := RandomStorageSize(rng);
      name := n;
      prefix := UnassignedPrefix;
      age := 1;
      isAttacker := false;
      usedMb := 0.0;
      spareMb := mb;
    }

    method SetPrefix(p: Prefix)
      modifies this`prefix
      ensures prefix == p
    {
      prefix := p;
    }

    method IncrementAge()
      modifies this`age
      ensures age == old(age) + 1
    {
      age := age + 1;
    }

    /** Adults are vaults older than 4. */
    predicate IsAdult()
      reads this`age
    {
      age > 4
    }

    /**
     * `renameWithPrefix`: a fresh random name whose leading bits are then
     * overwritten with the prefix's bits, so the vault matches the prefix.
     * Go panics on a prefix longer than the name.
     */
    method RenameWithPrefix(p: Prefix, rng: Prng)
      requires |p.bits| <= XornameBits
      modifies this`name, rng
      ensures |name.bits| == XornameBits && IsPrefixOf(p.bits, name.bits)
      ensures forall i :: |p.bits| <= i < XornameBits ==>
        name.bits[i] == (rng.stream(old(rng.cursor) + i) % 2 == 1)
      ensures forall i: nat :: i < |p.bits| ==> Bit(name.bigint, i) == p.bits[i]
      ensures rng.cursor == old(rng.cursor) + XornameBits
    {
      var n := NewXorName(rng);
      ghost var drawn := n;
      for i := 0 to |p.bits|
        invariant |n.bits| == XornameBits
        invariant forall j :: 0 <= j < i ==> n.bits[j] == p.bits[j]
        invariant forall j :: i <= j < XornameBits ==> n.bits[j] == drawn.bits[j]
        invariant forall j: nat :: j < i ==> Bit(n.bigint, j) == p.bits[j]
      {
        n := n.SetBit(i, p.bits[i]);
      }
      name := n;
    }
  }

  /**
   * `resolveAgeTiebreaker`: XOR the two names together and compare each name's
   * XOR with that value; i sorts first when its result is the larger.
   */
  function ResolveAgeTiebreaker(vi: Vault, vj: Vault): (r: bool)
    reads vi, vj
    ensures r <==> vi.name.bigint < vj.name.bigint
  {
    var x := Xor(vi.name.bigint, vj.name.bigint);
    var xi := Xor(vi.name.bigint, x);
    var xj := Xor(vj.name.bigint, x);
    XorCancels(vi.name.bigint, vj.name.bigint);
    XorCommutes(vi.name.bigint, vj.name.bigint);
    XorCancels(vj.name.bigint, vi.name.bigint);
    xi > xj
  }

  /** `oldestFirst.Less`: older first, equal ages broken by the tiebreaker. */
  predicate OldestFirstLess(vi: Vault, vj: Vault)
    reads vi, vj
  {
    if vi.age == vj.age then ResolveAgeTiebreaker(vi, vj) else vi.age > vj.age
  }

  /**
   * Because the tiebreaker swaps the roles of the two names, the sort key for
   * equal ages is the smaller name: the order is strict and total on vaults
   * with distinct names.
   */
  lemma OldestFirstIsStrictOrder(a: Vault, b: Vault, c: Vault)
    ensures !OldestFirstLess(a, a)
    ensures OldestFirstLess(a, b) ==> !OldestFirstLess(b, a)
    ensures OldestFirstLess(a, b) && OldestFirstLess(b, c) ==> OldestFirstLess(a, c)
    ensures a.name.bigint != b.name.bigint ==> OldestFirstLess(a, b) || OldestFirstLess(b, a)
    ensures OldestFirstLess(a, b) ==> a.age >= b.age
  {
  }
}
