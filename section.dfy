/**
 * Sections: the group of vaults sharing a prefix. Joining (with the age-1
 * refusal), leaving, splitting into child prefixes with ageing, the elder
 * set, the merge test, the quorum attack test and the relocation candidate.
 */
module Sections {
  import opened Common
  import opened BigInt
  import opened Random
  import opened XorNames
  import opened Prefixes
  import opened NetworkEvents
  import opened Vaults
  import opened Tries

  const GroupSize: nat := 8
  const SplitBuffer: nat := 3
  const SplitSize: nat := GroupSize + SplitBuffer
  const QuorumNumerator: nat := 1
  const QuorumDenominator: nat := 2
  /** `math.MaxUint32`, the starting "youngest age" of the relocation scan. */
  const MaxUint32: int := 4294967295
  /** Go's `uint` is 64 bits wide: `uint(age)` reduces the age modulo this. */
  const UintModulus: nat := 0x1_0000_0000_0000_0000

  type Event = NetworkEvent<Section, Vault>

  /** What an eldership sort may look at: a vault's name, age and attacker flag. */
  datatype VaultView = VaultView(name: XorName, age: int, isAttacker: bool)

  /**
   * The eldership sort (`forEldership`) is not part of this model: it is a
   * parameter mapping the members' views to the order, as a permutation of
   * indices, in which the sort leaves them. The elders are the tail.
   */
  type EldershipOrder = seq<VaultView> -> seq<nat>

  function View(v: Vault): VaultView
    reads v`name, v`age, v`isAttacker
  {
    VaultView(v.name, v.age, v.isAttacker)
  }

  function Views(vs: seq<Vault>): (r: seq<VaultView>)
    reads vs`name, vs`age, vs`isAttacker
    ensures |r| == |vs| && forall i :: 0 <= i < |vs| ==> r[i] == View(vs[i])
  {
    if vs == [] then [] else Views(vs[..|vs| - 1]) + [View(vs[|vs| - 1])]
  }

  ghost predicate IsIndexPermutation(perm: seq<nat>, n: nat)
  {
    && |perm| == n
    && (forall i :: 0 <= i < n ==> perm[i] < n)
    && (forall i, j :: 0 <= i < j < n ==> perm[i] != perm[j])
    && (forall k :: 0 <= k < n ==> k in perm)
  }

  ghost predicate ValidOrder(order: EldershipOrder)
  {
    forall vs {:trigger order(vs)} :: IsIndexPermutation(order(vs), |vs|)
  }

  function Permute<T>(s: seq<T>, perm: seq<nat>): (r: seq<T>)
    requires |perm| == |s| && forall i :: 0 <= i < |s| ==> perm[i] < |s|
    ensures |r| == |s| && forall i :: 0 <= i < |s| ==> r[i] == s[perm[i]]
  {
    seq(|s|, i requires 0 <= i < |s| => s[perm[i]])
  }

  /** A permutation keeps the elements and, on a list without repeats, keeps it without repeats. */
  lemma PermutePreserves<T>(s: seq<T>, perm: seq<nat>)
    requires IsIndexPermutation(perm, |s|)
    ensures Elements(Permute(s, perm)) == Elements(s)
    ensures NoDup(s) ==> NoDup(Permute(s, perm))
  {
    var r := Permute(s, perm);
    if NoDup(s) {
      NoDupIndices(s);
      NoDupIndices(r);
      forall i, j | 0 <= i < j < |r| ensures r[i] != r[j] {
        if perm[i] < perm[j] {
          assert s[perm[i]] != s[perm[j]];
        } else {
          assert s[perm[j]] != s[perm[i]];
        }
      }
    }
    forall x | x in s ensures x in r {
      var k :| 0 <= k < |s| && s[k] == x;
      assert k in perm;
      var i :| 0 <= i < |s| && perm[i] == k;
      assert r[i] == x;
    }
  }

  /** The elders of a member list already in eldership order: its last min(n, 8) entries. */
  function EldersOf(vs: seq<Vault>): (e: seq<Vault>)
    ensures |e| == Min(|vs|, GroupSize) && e == vs[|vs| - |e|..]
  {
    vs[|vs| - Min(|vs|, GroupSize)..]
  }

  function CountAdults(vs: seq<Vault>): (n: nat)
    reads vs`age
    ensures n <= |vs|
  {
    if vs == [] then 0
    else CountAdults(vs[..|vs| - 1]) + if vs[|vs| - 1].IsAdult() then 1 else 0
  }

  function CountAdultsMatching(vs: seq<Vault>, p: seq<bool>): (n: nat)
    reads vs`age, vs`name
    ensures n <= |vs|
  {
    if vs == [] then 0
    else
      var last := vs[|vs| - 1];
      CountAdultsMatching(vs[..|vs| - 1], p) + if last.IsAdult() && IsPrefixOf(p, last.name.bits) then 1 else 0
  }

  function CountMatching(vs: seq<Vault>, p: seq<bool>): (n: nat)
    reads vs`name
    ensures n <= |vs|
  {
    if vs == [] then 0
    else CountMatching(vs[..|vs| - 1], p) + if IsPrefixOf(p, vs[|vs| - 1].name.bits) then 1 else 0
  }

  function CountAttackers(vs: seq<Vault>): (n: nat)
    reads vs`isAttacker
    ensures n <= |vs|
  {
    if vs == [] then 0
    else CountAttackers(vs[..|vs| - 1]) + if vs[|vs| - 1].isAttacker then 1 else 0
  }

  /** The adult-count condition of `shouldSplit`: both child prefixes hold at least SplitSize adults. */
  ghost predicate SplitDue(vs: seq<Vault>, p: seq<bool>)
    reads vs`age, vs`name
  {
    CountAdultsMatching(vs, p + [false]) >= SplitSize && CountAdultsMatching(vs, p + [true]) >= SplitSize
  }

  /** The refusal condition of `addVault`: a vault of age 1, a member of age 1 and exactly GroupSize adults. */
  ghost predicate Refused(v: Vault, vs: seq<Vault>)
    reads v`age, vs`age
  {
    v.age == 1 && (exists w :: w in vs && w.age == 1) && CountAdults(vs) == GroupSize
  }

  /** The quorum test on a list of elders, in integer arithmetic. */
  predicate Attacked(elders: seq<Vault>)
    reads elders`isAttacker
  {
    CountAttackers(elders) * QuorumDenominator > |elders| * QuorumNumerator
  }

  /** Adults can only lie below a prefix no longer than their names. */
  lemma {:induction false} CountAdultsMatchingBound(vs: seq<Vault>, p: seq<bool>, n: nat)
    requires CountAdultsMatching(vs, p) > 0
    requires forall w :: w in vs ==> |w.name.bits| <= n
    ensures |p| <= n
  {
    var last := vs[|vs| - 1];
    if !(last.IsAdult() && IsPrefixOf(p, last.name.bits)) {
      CountAdultsMatchingBound(vs[..|vs| - 1], p, n);
    }
  }

  /** Raising the attacker flag of some elders never turns an attacked section into a safe one. */
  lemma {:induction false} AttackedMonotone(e: seq<Vault>, f: seq<Vault>)
    requires |e| == |f|
    requires forall i :: 0 <= i < |e| ==> e[i].isAttacker ==> f[i].isAttacker
    ensures CountAttackers(e) <= CountAttackers(f)
    ensures Attacked(e) ==> Attacked(f)
  {
    if e != [] {
      AttackedMonotone(e[..|e| - 1], f[..|f| - 1]);
    }
  }

  /** The quorum examples: 5 attackers of 8 elders is an attack, 4 of 8 is not, no elders is not. */
  lemma QuorumExamples(e: seq<Vault>)
    requires |e| == GroupSize
    ensures CountAttackers(e) == 5 ==> Attacked(e)
    ensures CountAttackers(e) == 4 ==> !Attacked(e)
    ensures !Attacked([])
  {
  }

  /** `1 << uint(age)`, the divisor of the relocation test. */
  function AgeDivisor(age: int): (d: nat)
    ensures d >= 1
    ensures 0 <= age < UintModulus ==> d == Pow2(age)
  {
    Pow2(age % UintModulus)
  }

  /** A vault qualifies for relocation when the event hash is a multiple of 2^age. */
  predicate Qualifies(w: Vault, ne: Event)
    reads w`age
  {
    ne.HashModIsZero(AgeDivisor(w.age))
  }

  /** A vault of age 0 qualifies under every event: its divisor is 2^0 = 1. */
  lemma AgeZeroQualifies(w: Vault, ne: Event)
    requires w.age == 0
    ensures Qualifies(w, ne)
  {
    HashModPowersOfTwo(ne, 0);
  }

  /**
   * What `vaultForRelocation` promises: any pick is a qualifying member; and
   * when every age is below the starting sentinel, there is a pick exactly
   * when some member qualifies, and the pick has the least age among the
   * qualifying members and the least XOR distance to the hash among those.
   */
  ghost predicate IsRelocationCandidate(r: Option<Vault>, vs: seq<Vault>, ne: Event)
    reads vs`age, vs`name
  {
    && (r.Some? ==> r.value in vs && Qualifies(r.value, ne))
    && ((forall w :: w in vs ==> w.age < MaxUint32) ==>
         && (r.None? <==> forall w :: w in vs ==> !Qualifies(w, ne))
         && (r.Some? ==> forall w :: w in vs && Qualifies(w, ne) ==>
               && r.value.age <= w.age
               && (w.age == r.value.age ==> Xor(r.value.name.bigint, ne.hash) <= Xor(w.name.bigint, ne.hash))))
  }

  /** The relocation pick depends on the event only through its hash. */
  lemma CandidateDependsOnHash(r: Option<Vault>, vs: seq<Vault>, ne: Event, ne': Event)
    requires ne.hash == ne'.hash && IsRelocationCandidate(r, vs, ne)
    ensures IsRelocationCandidate(r, vs, ne')
  {
    forall w: Vault ensures Qualifies(w, ne) == Qualifies(w, ne') {
    }
  }

  /** Divisibility by 2^a implies divisibility by every smaller power of two. */
  lemma {:induction false} HashModSmallerPower(ne: Event, a: nat, b: nat)
    requires b <= a && ne.HashModIsZero(Pow2(a))
    ensures ne.HashModIsZero(Pow2(b))
  {
    if b < a {
      HashModPowersOfTwo(ne, a - 1);
      HashModSmallerPower(ne, a - 1, b);
    }
  }

  /** With non-negative ages, the picked vault is the youngest member of the whole section. */
  lemma CandidateIsYoungest(r: Option<Vault>, vs: seq<Vault>, ne: Event)
    requires IsRelocationCandidate(r, vs, ne) && r.Some?
    requires forall w :: w in vs ==> 0 <= w.age < MaxUint32
    ensures forall w :: w in vs ==> r.value.age <= w.age
  {
    forall w | w in vs ensures r.value.age <= w.age {
      if w.age < r.value.age {
        HashModSmallerPower(ne, r.value.age, w.age);
      }
    }
  }

  /** The position of the first occurrence of v. */
  function IndexOf<T(==)>(s: seq<T>, v: T): (i: nat)
    requires v in s
    ensures i < |s| && s[i] == v && v !in s[..i]
  {
    if s[0] == v then 0 else assert v in s[1..]; 1 + IndexOf(s[1..], v)
  }

  /** Position k after deleting entry i holds the old entry k, or k + 1 from i on. */
  lemma RemoveAtIndex<T>(s: seq<T>, i: nat, k: nat)
    requires i < |s| && k < |s| - 1
    ensures (s[..i] + s[i + 1..])[k] == if k < i then s[k] else s[k + 1]
  {
    if k < i {
      assert (s[..i] + s[i + 1..])[k] == s[..i][k];
    } else {
      assert (s[..i] + s[i + 1..])[k] == s[i + 1..][k - i];
    }
  }

  /** Deleting one entry of a list without repeats leaves a list without repeats that lacks that entry. */
  lemma NoDupRemoveAt<T>(s: seq<T>, i: nat)
    requires i < |s|
    ensures NoDup(s) ==> NoDup(s[..i] + s[i + 1..]) && s[i] !in s[..i] + s[i + 1..]
  {
    if NoDup(s) {
      var r := s[..i] + s[i + 1..];
      NoDupIndices(s);
      forall a, b | 0 <= a < b < |r| ensures r[a] != r[b] {
        RemoveAtIndex(s, i, a);
        RemoveAtIndex(s, i, b);
      }
      forall k | 0 <= k < |r| ensures r[k] != s[i] {
        RemoveAtIndex(s, i, k);
      }
      NoDupIndices(r);
    }
  }

  /** Deleting entry i keeps every other element. */
  lemma ElementsRemoveAt<T>(s: seq<T>, i: nat)
    requires i < |s|
    ensures Elements(s) - {s[i]} <= Elements(s[..i] + s[i + 1..]) <= Elements(s)
  {
    var r := s[..i] + s[i + 1..];
    forall x | x in s && x != s[i] ensures x in r {
      var k :| 0 <= k < |s| && s[k] == x;
      RemoveAtIndex(s, i, if k < i then k else k - 1);
    }
    forall x | x in r ensures x in s {
      var k :| 0 <= k < |r| && r[k] == x;
      RemoveAtIndex(s, i, k);
    }
  }

  /** The member list after deleting the first occurrence of v, if any. */
  function RemoveFirst<T(==)>(s: seq<T>, v: T): (r: seq<T>)
    ensures v !in s ==> r == s
    ensures v in s ==> |r| == |s| - 1
    ensures NoDup(s) ==> NoDup(r) && Elements(r) == Elements(s) - {v}
  {
    if v in s then
      var i := IndexOf(s, v);
      assert s == s[..i] + [v] + s[i + 1..];
      NoDupRemoveAt(s, i);
      ElementsRemoveAt(s, i);
      s[..i] + s[i + 1..]
    else s
  }

  /** Deleting the first occurrence removes the entry at the first index holding v. */
  lemma RemoveFirstAt<T>(s: seq<T>, v: T, i: nat)
    requires i < |s| && s[i] == v && v !in s[..i]
    ensures RemoveFirst(s, v) == s[..i] + s[i + 1..]
  {
    var j := IndexOf(s, v);
    assert j == i;
  }

  /** Vault lists a section can be built from: no repeats, 256-bit names. */
  ghost predicate Fit(vs: seq<Vault>)
    reads vs`name
  {
    NoDup(vs) && forall w :: w in vs ==> |w.name.bits| == NameBits
  }

  ghost predicate AllMatch(vs: seq<Vault>, p: seq<bool>)
    reads vs`name
  {
    forall w :: w in vs ==> IsPrefixOf(p, w.name.bits)
  }

  ghost function PrefixSet(secs: seq<Section>): set<seq<bool>>
  {
    set s | s in secs :: s.prefix.bits
  }

  ghost function VaultsOf(secs: seq<Section>): set<Vault>
    reads (set s | s in secs)`vaults
  {
    set s, w | s in secs && w in s.vaults :: w
  }

  /** Each member records the section's prefix and is listed once. */
  ghost predicate MembersRecorded(s: Section)
    reads s`vaults, s.vaults`prefix
  {
    s.prefix.WellFormed() && NoDup(s.vaults) && forall w :: w in s.vaults ==> w.prefix == s.prefix
  }

  /** Each member's name lies below the section's prefix. */
  ghost predicate MembersMatch(s: Section)
    reads s`vaults, s.vaults`name
  {
    forall w :: w in s.vaults ==> IsPrefixOf(s.prefix.bits, w.name.bits)
  }

  /**
   * What `newSection` and `split` return: sections whose prefixes tile the
   * names below root, holding only given vaults; and when every
   * given vault lies below root, holding every one of them, each in the
   * section its name lies below.
   */
  ghost predicate Formed(secs: seq<Section>, root: seq<bool>, members: seq<Vault>)
    reads (set s | s in secs)`vaults, Elements(members)`prefix, Elements(members)`name
  {
    && (forall s, w :: s in secs && w in s.vaults ==> w in members)
    && (forall s :: s in secs ==> MembersRecorded(s))
    && Tiling(PrefixSet(secs), root)
    && (AllMatch(members, root) ==>
          && (forall w :: w in members ==> w in VaultsOf(secs))
          && forall s :: s in secs ==> MembersMatch(s))
  }

  /** Sections with the same prefix are the same section. */
  ghost predicate PrefixesIdentify(secs: seq<Section>)
  {
    forall s, t :: s in secs && t in secs && s.prefix.bits == t.prefix.bits ==> s == t
  }

  /** What `split` hands back: the members formed below root into sections told apart by prefix, none at root itself, and no relocation pick. */
  ghost predicate SplitOutcome(ne: Event, root: seq<bool>, members: seq<Vault>)
    reads (set s | s in ne.newSections)`vaults, Elements(members)`prefix, Elements(members)`name
  {
    && Formed(ne.newSections, root, members)
    && ne.vaultToRelocate == None
    && PrefixesIdentify(ne.newSections)
    && forall t :: t in ne.newSections ==> |t.prefix.bits| > |root|
  }

  /** The sections formed on the two sides of a split lie strictly below the parent and are told apart by prefix. */
  lemma SplitShapeJoin(secs0: seq<Section>, secs1: seq<Section>, root: seq<bool>)
    requires PrefixesIdentify(secs0) && PrefixesIdentify(secs1)
    requires Below(PrefixSet(secs0), root + [false]) && Below(PrefixSet(secs1), root + [true])
    ensures PrefixesIdentify(secs0 + secs1)
    ensures forall t :: t in secs0 + secs1 ==> |t.prefix.bits| > |root|
  {
    forall s, t | s in secs0 && t in secs1 ensures s.prefix.bits != t.prefix.bits {
      assert s.prefix.bits in PrefixSet(secs0) && t.prefix.bits in PrefixSet(secs1);
      assert s.prefix.bits[|root|] == (root + [false])[|root|];
      assert t.prefix.bits[|root|] == (root + [true])[|root|];
    }
    forall t | t in secs0 + secs1 ensures |t.prefix.bits| > |root| {
      if t in secs0 {
        assert t.prefix.bits in PrefixSet(secs0);
      } else {
        assert t.prefix.bits in PrefixSet(secs1);
      }
    }
  }

  /** The matching scan shared by the elder counts. */
  method CountBelow(vs: seq<Vault>, q: Prefix) returns (n: nat)
    ensures n == CountMatching(vs, q.bits)
  {
    n := 0;
    for i := 0 to |vs|
      invariant n == CountMatching(vs[..i], q.bits)
    {
      assert vs[..i + 1][..i] == vs[..i];
      var m := Matches(q, vs[i].name);
      if m {
        n := n + 1;
      }
    }
    assert vs[..|vs|] == vs;
  }

  class Section {
    /** Set when the section is formed and never changed afterwards. */
    const prefix: Prefix
    var vaults: seq<Vault>

    constructor (prefix: Prefix)
      ensures this.prefix == prefix && vaults == []
    {
      this.prefix := prefix;
      vaults := [];
    }

    method TotalAdults() returns (adults: nat)
      ensures adults == CountAdults(vaults)
    {
      adults := 0;
      for i := 0 to |vaults|
        invariant adults == CountAdults(vaults[..i])
      {
        assert vaults[..i + 1][..i] == vaults[..i];
        if vaults[i].IsAdult() {
          adults := adults + 1;
        }
      }
      assert vaults[..|vaults|] == vaults;
    }

    method CountAdultsBelow(q: Prefix) returns (adults: nat)
      ensures adults == CountAdultsMatching(vaults, q.bits)
    {
      adults := 0;
      for i := 0 to |vaults|
        invariant adults == CountAdultsMatching(vaults[..i], q.bits)
      {
        assert vaults[..i + 1][..i] == vaults[..i];
        var m := Matches(q, vaults[i].name);
        if vaults[i].IsAdult() && m {
          adults := adults + 1;
        }
      }
      assert vaults[..|vaults|] == vaults;
    }

    method LeftTotalAdults() returns (adults: nat)
      ensures adults == CountAdultsMatching(vaults, prefix.bits + [false])
    {
      var leftPrefix := ExtendLeft(prefix);
      adults := CountAdultsBelow(leftPrefix);
    }

    method RightTotalAdults() returns (adults: nat)
      ensures adults == CountAdultsMatching(vaults, prefix.bits + [true])
    {
      var rightPrefix := ExtendRight(prefix);
      adults := CountAdultsBelow(rightPrefix);
    }

    method HasVaultAgedOne() returns (b: bool)
      ensures b <==> exists i :: 0 <= i < |vaults| && vaults[i].age == 1
    {
      for i := 0 to |vaults|
        invariant forall j :: 0 <= j < i ==> vaults[j].age != 1
      {
        if vaults[i].age == 1 {
          return true;
        }
      }
      return false;
    }

    /** Complete means exactly GroupSize adults. */
    method IsComplete() returns (b: bool)
      ensures b <==> CountAdults(vaults) == GroupSize
    {
      var adults := TotalAdults();
      b := adults == GroupSize;
    }

    /** `elders`: sort the members for eldership in place and return the tail. */
    method Elders(order: EldershipOrder) returns (elders: seq<Vault>)
      requires ValidOrder(order)
      modifies this`vaults
      ensures vaults == Permute(old(vaults), order(Views(old(vaults))))
      ensures Elements(vaults) == Elements(old(vaults)) && |vaults| == |old(vaults)|
      ensures NoDup(old(vaults)) ==> NoDup(vaults)
      ensures elders == EldersOf(vaults) && |elders| == Min(|vaults|, GroupSize)
    {
      var perm := order(Views(vaults));
      PermutePreserves(vaults, perm);
      vaults := Permute(vaults, perm);
      elders := vaults;
      if |vaults| > GroupSize {
        elders := vaults[|vaults| - GroupSize..];
      }
    }

    method CountEldersBelow(order: EldershipOrder, q: Prefix) returns (elders: nat)
      requires ValidOrder(order)
      modifies this`vaults
      ensures vaults == Permute(old(vaults), order(Views(old(vaults))))
      ensures Elements(vaults) == Elements(old(vaults)) && |vaults| == |old(vaults)|
      ensures NoDup(old(vaults)) ==> NoDup(vaults)
      ensures elders == CountMatching(EldersOf(vaults), q.bits) && elders <= GroupSize
    {
      var es := Elders(order);
      elders := CountBelow(es, q);
    }

    method LeftTotalElders(order: EldershipOrder) returns (elders: nat)
      requires ValidOrder(order)
      modifies this`vaults
      ensures vaults == Permute(old(vaults), order(Views(old(vaults))))
      ensures Elements(vaults) == Elements(old(vaults)) && |vaults| == |old(vaults)|
      ensures NoDup(old(vaults)) ==> NoDup(vaults)
      ensures elders == CountMatching(EldersOf(vaults), prefix.bits + [false]) && elders <= GroupSize
    {
      var leftPrefix := ExtendLeft(prefix);
      elders := CountEldersBelow(order, leftPrefix);
    }

    method RightTotalElders(order: EldershipOrder) returns (elders: nat)
      requires ValidOrder(order)
      modifies this`vaults
      ensures vaults == Permute(old(vaults), order(Views(old(vaults))))
      ensures Elements(vaults) == Elements(old(vaults)) && |vaults| == |old(vaults)|
      ensures NoDup(old(vaults)) ==> NoDup(vaults)
      ensures elders == CountMatching(EldersOf(vaults), prefix.bits + [true]) && elders <= GroupSize
    {
      var rightPrefix := ExtendRight(prefix);
      elders := CountEldersBelow(order, rightPrefix);
    }

    /** The adult test of `shouldSplit`: the right half is counted only when the left half has enough. */
    method AdultsSplitDue() returns (b: bool)
      ensures b <==> SplitDue(vaults, prefix.bits)
    {
      var left := LeftTotalAdults();
      if left >= SplitSize {
        var right := RightTotalAdults();
        b := right >= SplitSize;
      } else {
        b := false;
      }
    }

    /**
     * `shouldSplit`: both child prefixes hold at least SplitSize adults. The
     * elder fallback is evaluated (and sorts the members) but, with at most
     * GroupSize elders, can never reach SplitSize.
     */
    method ShouldSplit(order: EldershipOrder) returns (b: bool)
      requires ValidOrder(order)
      modifies this`vaults
      ensures b <==> old(SplitDue(vaults, prefix.bits))
      ensures b ==> vaults == old(vaults)
      ensures !b ==> vaults == Permute(old(vaults), order(Views(old(vaults))))
      ensures Elements(vaults) == Elements(old(vaults)) && |vaults| == |old(vaults)|
      ensures NoDup(old(vaults)) ==> NoDup(vaults)
    {
      b := AdultsSplitDue();
      if b {
        return;
      }
      var leftElders := LeftTotalElders(order);
      if leftElders >= SplitSize {
        // never taken: there are at most GroupSize elders
        assert false;
      }
      return false;
    }

    /** `IsAttacked`: attacker elders times 2 exceed the elder count times 1. */
    method IsAttacked(order: EldershipOrder) returns (b: bool)
      requires ValidOrder(order)
      modifies this`vaults
      ensures vaults == Permute(old(vaults), order(Views(old(vaults))))
      ensures Elements(vaults) == Elements(old(vaults)) && |vaults| == |old(vaults)|
      ensures b == Attacked(EldersOf(vaults))
    {
      var elders := Elders(order);
      var attackers := 0;
      for i := 0 to |elders|
        invariant attackers == CountAttackers(elders[..i])
      {
        assert elders[..i + 1][..i] == elders[..i];
        if elders[i].isAttacker {
          attackers := attackers + 1;
        }
      }
      assert elders[..|elders|] == elders;
      b := attackers * QuorumDenominator > |elders| * QuorumNumerator;
    }

    method TotalElders(order: EldershipOrder) returns (n: nat)
      requires ValidOrder(order)
      modifies this`vaults
      ensures vaults == Permute(old(vaults), order(Views(old(vaults))))
      ensures Elements(vaults) == Elements(old(vaults)) && |vaults| == |old(vaults)|
      ensures NoDup(old(vaults)) ==> NoDup(vaults)
      ensures n == Min(|vaults|, GroupSize)
    {
      var elders := Elders(order);
      n := |elders|;
    }

    /** `shouldMerge`: fewer than GroupSize elders, that is, fewer than GroupSize members. */
    method ShouldMerge(order: EldershipOrder) returns (b: bool)
      requires ValidOrder(order)
      modifies this`vaults
      ensures vaults == Permute(old(vaults), order(Views(old(vaults))))
      ensures Elements(vaults) == Elements(old(vaults)) && |vaults| == |old(vaults)|
      ensures NoDup(old(vaults)) ==> NoDup(vaults)
      ensures b <==> |vaults| < GroupSize
    {
      var n := TotalElders(order);
      b := n < GroupSize;
    }

    /** `GetRandomVault`: a member at a drawn index, none for an empty section. */
    method GetRandomVault(rng: Prng) returns (r: Option<Vault>)
      modifies rng
      ensures vaults == [] ==> r == None && rng.cursor == old(rng.cursor)
      ensures vaults != [] ==> r == Some(vaults[rng.stream(old(rng.cursor)) % |vaults|])
    {
      if |vaults| == 0 {
        return None;
      }
      var i := rng.Intn(|vaults|);
      return Some(vaults[i]);
    }

    /**
     * `vaultForRelocation`: one scan keeping the youngest qualifying age seen
     * and the XOR distance to the hash of the current pick.
     */
    method VaultForRelocation(ne: Event) returns (r: Option<Vault>)
      ensures IsRelocationCandidate(r, vaults, ne)
    {
      var youngestAge := MaxUint32;
      var smallestTiebreaker := FromBytes(LargestHashValue());
      r := None;
      ghost var small := forall w :: w in vaults ==> w.age < MaxUint32;
      for i := 0 to |vaults|
        invariant r.None? ==> youngestAge == MaxUint32 && smallestTiebreaker == FromBytes(LargestHashValue())
        invariant r.Some? ==> && r.value in vaults[..i] && Qualifies(r.value, ne) && youngestAge == r.value.age
                              && smallestTiebreaker == Xor(r.value.name.bigint, ne.hash)
        invariant small ==> (r.None? <==> forall w :: w in vaults[..i] ==> !Qualifies(w, ne))
        invariant small && r.Some? ==> forall w :: w in vaults[..i] && Qualifies(w, ne) ==>
          r.value.age <= w.age && (w.age == r.value.age ==> smallestTiebreaker <= Xor(w.name.bigint, ne.hash))
      {
        var w := vaults[i];
        assert vaults[..i + 1] == vaults[..i] + [w];
        if w.age > youngestAge {
          // skipped: older than the current pick
        } else if w.age < youngestAge {
          var divisor := AgeDivisor(w.age);
          if ne.HashModIsZero(divisor) {
            youngestAge := w.age;
            r := Some(w);
            smallestTiebreaker := Xor(w.name.bigint, ne.hash);
          }
        } else {
          var divisor := AgeDivisor(w.age);
          if ne.HashModIsZero(divisor) {
            var distance := Xor(w.name.bigint, ne.hash);
            if distance < smallestTiebreaker {
              smallestTiebreaker := distance;
              r := Some(w);
            }
          }
        }
      }
      assert vaults[..|vaults|] == vaults;
    }

    /**
     * `removeVault`: delete the first member identical to v (if any), keeping
     * the others in order, then draw an event and attach its relocation pick.
     */
    method RemoveVault(v: Vault, rng: Prng) returns (ne: Event)
      modifies this`vaults, rng
      ensures vaults == RemoveFirst(old(vaults), v)
      ensures ne.newSections == []
      ensures IsRelocationCandidate(ne.vaultToRelocate, vaults, ne)
    {
      for i := 0 to |vaults|
        invariant vaults == old(vaults) && v !in vaults[..i]
      {
        if vaults[i] == v {
          RemoveFirstAt(vaults, v, i);
          vaults := vaults[..i] + vaults[i + 1..];
          break;
        }
        assert vaults[..i + 1] == vaults[..i] + [vaults[i]];
      }
      ne := RelocationEvent(rng);
    }

    /** The tail shared by `addVault` and `removeVault`: draw an event and attach the relocation pick, if any. */
    method RelocationEvent(rng: Prng) returns (ne: Event)
      modifies rng
      ensures ne.newSections == []
      ensures IsRelocationCandidate(ne.vaultToRelocate, vaults, ne)
    {
      ne := NewNetworkEvent(rng);
      var r := VaultForRelocation(ne);
      if r.Some? {
        CandidateDependsOnHash(r, vaults, ne, ne.(vaultToRelocate := r));
        ne := ne.(vaultToRelocate := r);
      }
    }

    /**
     * `addVault`: refuse a vault of age 1 when a member already has age 1 and
     * the section is complete; otherwise accept it.
     */
    method AddVault(v: Vault, order: EldershipOrder, rng: Prng) returns (ne: Option<Event>, disallowed: bool)
      requires ValidOrder(order) && prefix.WellFormed() && |prefix.bits| <= NameBits
      requires Fit(vaults + [v])
      modifies this`vaults, rng, Elements(vaults)`age, Elements(vaults)`prefix, v`age, v`prefix
      ensures disallowed <==> old(Refused(v, vaults))
      ensures disallowed ==> ne == None && vaults == old(vaults) && unchanged(v, rng)
      ensures disallowed ==> forall w :: w in vaults ==> unchanged(w)
      ensures !disallowed ==> ne.Some? && Accepted(this, old(vaults), v, ne.value)
      ensures old(v.age) <= v.age && forall w :: w in old(vaults) ==> old(w.age) <= w.age
      ensures !disallowed && !old(SplitDue(vaults + [v], prefix.bits)) ==>
        vaults == Permute(old(vaults) + [v], order(Views(old(vaults) + [v])))
    {
      disallowed := Refuses(v);
      if disallowed {
        return None, true;
      }
      assert unchanged(this, v) && forall w :: w in vaults ==> unchanged(w);
      assert vaults == old(vaults) && Refused(v, vaults) == old(Refused(v, vaults));
      assert Views(vaults + [v]) == old(Views(vaults + [v])) && SplitDue(vaults + [v], prefix.bits) == old(SplitDue(vaults + [v], prefix.bits));
      var e := Accept(v, order, rng);
      ne := Some(e);
    }

    /** The refusal test of `addVault`, evaluated left to right as the source does. */
    method Refuses(v: Vault) returns (b: bool)
      ensures b <==> Refused(v, vaults)
    {
      b := false;
      if v.age == 1 {
        var agedOne := HasVaultAgedOne();
        if agedOne {
          b := IsComplete();
        }
      }
    }

    /**
     * The accepting path of `addVault`: record the prefix in the vault,
     * append it, and either split or draw an event with a relocation pick.
     */
    method Accept(v: Vault, order: EldershipOrder, rng: Prng) returns (ne: Event)
      requires ValidOrder(order) && prefix.WellFormed() && |prefix.bits| <= NameBits
      requires Fit(vaults + [v])
      modifies this`vaults, rng, Elements(vaults)`age, Elements(vaults)`prefix, v`age, v`prefix
      ensures Accepted(this, old(vaults), v, ne)
      ensures !old(SplitDue(vaults + [v], prefix.bits)) ==> vaults == Permute(old(vaults) + [v], order(Views(old(vaults) + [v])))
    {
      ghost var due := SplitDue(vaults + [v], prefix.bits);
      Enlist(v);
      assert SplitDue(vaults, prefix.bits) == due;
      ne := SplitOrDraw(order, rng);
    }

    /** Record the prefix in v and list it last; nothing else changes. */
    method Enlist(v: Vault)
      requires prefix.WellFormed() && |prefix.bits| <= NameBits
      requires Fit(vaults + [v])
      modifies this`vaults, v`prefix
      ensures vaults == old(vaults) + [v] && v.prefix == prefix && v.age == old(v.age)
      ensures Elements(vaults) == Elements(old(vaults)) + {v} && |vaults| == |old(vaults)| + 1
      ensures Views(vaults) == old(Views(vaults + [v]))
      ensures SplitDue(vaults, prefix.bits) == old(SplitDue(vaults + [v], prefix.bits))
      ensures Fit(vaults)
      ensures forall w :: w in old(vaults) ==> unchanged(w)
    {
      var grown := vaults + [v];
      ghost var due := SplitDue(grown, prefix.bits);
      ElementsAppend(vaults, v);
      assert v !in vaults;
      v.SetPrefix(prefix);
      assert SplitDue(grown, prefix.bits) == due;
      assert forall w :: w in vaults ==> unchanged(w);
      vaults := grown;
    }

    /** The end of `addVault`, once v is listed: split if due, else draw an event with a relocation pick. */
    method SplitOrDraw(order: EldershipOrder, rng: Prng) returns (ne: Event)
      requires ValidOrder(order) && prefix.WellFormed() && |prefix.bits| <= NameBits && Fit(vaults)
      modifies this`vaults, rng, Elements(vaults)`age, Elements(vaults)`prefix
      ensures old(SplitDue(vaults, prefix.bits)) ==>
        && SplitOutcome(ne, prefix.bits, old(vaults))
        && (forall t :: t in ne.newSections ==> fresh(t))
        && (forall w :: w in old(vaults) ==> w.age >= old(w.age))
      ensures !old(SplitDue(vaults, prefix.bits)) ==>
        && ne.newSections == []
        && vaults == Permute(old(vaults), order(Views(old(vaults))))
        && Elements(vaults) == Elements(old(vaults)) && |vaults| == |old(vaults)| && NoDup(vaults)
        && IsRelocationCandidate(ne.vaultToRelocate, vaults, ne)
        && forall w :: w in old(vaults) ==> unchanged(w)
    {
      var split := ShouldSplit(order);
      if split {
        CountAdultsMatchingBound(vaults, prefix.bits + [false], NameBits);
        ne := Split(order, rng);
      } else {
        ne := RelocationEvent(rng);
      }
    }

    /**
     * `split`: send each member to the child prefix its name lies below
     * (dropping members below neither) and form a section from each side.
     * Each level of the recursion through `newSection` adds a bit to the
     * prefix, and a prefix that can still split is shorter than a name.
     */
    method Split(order: EldershipOrder, rng: Prng) returns (ne: Event)
      requires ValidOrder(order) && prefix.WellFormed() && |prefix.bits| < NameBits && Fit(vaults)
      modifies rng, Elements(vaults)`age, Elements(vaults)`prefix
      decreases NameBits - |prefix.bits|, 2
      ensures SplitOutcome(ne, prefix.bits, vaults)
      ensures forall s :: s in ne.newSections ==> fresh(s)
      ensures forall w :: w in vaults ==> w.age >= old(w.age)
    {
      var leftPrefix := ExtendLeft(prefix);
      var rightPrefix := ExtendRight(prefix);
      var left, right := Partition(vaults, leftPrefix, rightPrefix, prefix.bits);
      ne := SplitSides(prefix.bits, vaults, left, right, leftPrefix, rightPrefix, order, rng);
    }
  }

  /** `split` past the partition: form the left side, then the right, and list both sides' sections. */
  method SplitSides(root: seq<bool>, members: seq<Vault>, left: seq<Vault>, right: seq<Vault>,
                    leftPrefix: Prefix, rightPrefix: Prefix, order: EldershipOrder, rng: Prng) returns (ne: Event)
    requires ValidOrder(order) && |root| < NameBits && Fit(members)
    requires leftPrefix.WellFormed() && leftPrefix.bits == root + [false]
    requires rightPrefix.WellFormed() && rightPrefix.bits == root + [true]
    requires NoDup(left) && NoDup(right) && AllMatch(left, root + [false]) && AllMatch(right, root + [true])
    requires Divided(members, left, right, root)
    modifies rng, Elements(members)`age, Elements(members)`prefix
    decreases NameBits - |root|, 1
    ensures SplitOutcome(ne, root, members)
    ensures forall s :: s in ne.newSections ==> fresh(s)
    ensures forall w :: w in members ==> w.age >= old(w.age)
  {
    var ne0 := NewSection(leftPrefix, left, order, rng);
    ne := SplitRight(ne0.newSections, root, members, left, right, rightPrefix, order, rng);
  }

  /** The second half of `split`: form the right side, draw the event and list both sides' sections. */
  method SplitRight(secs0: seq<Section>, root: seq<bool>, members: seq<Vault>, left: seq<Vault>, right: seq<Vault>,
                    rightPrefix: Prefix, order: EldershipOrder, rng: Prng) returns (ne: Event)
    requires ValidOrder(order) && rightPrefix.WellFormed() && rightPrefix.bits == root + [true]
    requires |root| < NameBits && Fit(members) && NoDup(right)
    requires Formed(secs0, root + [false], left) && AllMatch(left, root + [false]) && AllMatch(right, root + [true])
    requires Divided(members, left, right, root) && PrefixesIdentify(secs0)
    modifies rng, Elements(right)`age, Elements(right)`prefix
    decreases NameBits - |root|, 0
    ensures SplitOutcome(ne, root, members)
    ensures forall s :: s in ne.newSections ==> s in secs0 || fresh(s)
    ensures forall w :: w in members ==> w.age >= old(w.age)
  {
    label Start:
    var ne1 := NewSection(rightPrefix, right, order, rng);
    FormedUnchanged@Start(secs0, root + [false], left);
    SplitShapeJoin(secs0, ne1.newSections, root);
    FormedJoin(secs0, ne1.newSections, root, members, left, right);
    ne := Listing(secs0 + ne1.newSections, root, members, rng);
  }

  /** The last step of `split`: draw an event and list in it the sections formed from the members. */
  method Listing(secs: seq<Section>, root: seq<bool>, members: seq<Vault>, rng: Prng) returns (ne: Event)
    requires Formed(secs, root, members) && PrefixesIdentify(secs)
    requires forall t :: t in secs ==> |t.prefix.bits| > |root|
    modifies rng
    ensures SplitOutcome(ne, root, members) && ne.newSections == secs
  {
    label Drawn:
    ne := NewNetworkEvent(rng);
    FormedUnchanged@Drawn(secs, root, members);
    ne := ne.(newSections := secs);
  }

  /** Formed looks only at the sections and at the members' records. */
  twostate lemma FormedUnchanged(new secs: seq<Section>, root: seq<bool>, new members: seq<Vault>)
    requires old(allocated(secs)) && old(allocated(members))
    requires old(Formed(secs, root, members))
    requires forall s :: s in secs ==> unchanged(s)
    requires forall w :: w in members ==> unchanged(w)
    ensures Formed(secs, root, members)
  {
    forall s | s in secs ensures MembersRecorded(s) {
      assert old(MembersRecorded(s));
      assert forall w :: w in s.vaults ==> w in members;
    }
  }

  /** The loop of `split`: members below the left child go left, members below the right child go right. */
  method Partition(vs: seq<Vault>, leftPrefix: Prefix, rightPrefix: Prefix, ghost root: seq<bool>)
    returns (left: seq<Vault>, right: seq<Vault>)
    requires NoDup(vs) && leftPrefix.bits == root + [false] && rightPrefix.bits == root + [true]
    ensures NoDup(left) && NoDup(right)
    ensures AllMatch(left, leftPrefix.bits) && AllMatch(right, rightPrefix.bits)
    ensures Divided(vs, left, right, root)
  {
    left, right := [], [];
    for i := 0 to |vs|
      invariant left == Share(vs[..i], leftPrefix.bits) && right == Share(vs[..i], rightPrefix.bits)
    {
      var w := vs[i];
      assert vs[..i + 1][..i] == vs[..i];
      var inLeft := Matches(leftPrefix, w.name);
      if inLeft {
        left := left + [w];
        if IsPrefixOf(rightPrefix.bits, w.name.bits) {
          ExactlyOneExtensionMatches(root, w.name.bits);
        }
      } else {
        var inRight := Matches(rightPrefix, w.name);
        if inRight {
          right := right + [w];
        } else {
          // a member below neither child is dropped (with a warning)
        }
      }
    }
    assert vs[..|vs|] == vs;
    ShareDivides(vs, root);
  }

  /** The vaults of vs whose names lie below p, in their order in vs. */
  ghost function Share(vs: seq<Vault>, p: seq<bool>): seq<Vault>
    reads vs`name
  {
    if vs == [] then []
    else
      var n := |vs| - 1;
      Share(vs[..n], p) + if IsPrefixOf(p, vs[n].name.bits) then [vs[n]] else []
  }

  /** Share keeps exactly the vaults of vs lying below p, and repeats none when vs repeats none. */
  lemma {:induction false} ShareKeeps(vs: seq<Vault>, p: seq<bool>)
    ensures forall w :: w in Share(vs, p) <==> w in vs && IsPrefixOf(p, w.name.bits)
    ensures NoDup(vs) ==> NoDup(Share(vs, p))
  {
    if vs != [] {
      var n := |vs| - 1;
      ShareKeeps(vs[..n], p);
      assert vs == vs[..n] + [vs[n]];
      if IsPrefixOf(p, vs[n].name.bits) {
        if NoDup(vs) {
          assert vs[n] !in vs[..n];
          NoDupAppend(Share(vs[..n], p), vs[n]);
        }
      } else {
        assert Share(vs, p) == Share(vs[..n], p);
      }
    }
  }

  /** The two children's shares of a list without repeats: each repeats none, lies below its child, and they divide the list. */
  lemma ShareDivides(vs: seq<Vault>, root: seq<bool>)
    requires NoDup(vs)
    ensures NoDup(Share(vs, root + [false])) && NoDup(Share(vs, root + [true]))
    ensures AllMatch(Share(vs, root + [false]), root + [false]) && AllMatch(Share(vs, root + [true]), root + [true])
    ensures Divided(vs, Share(vs, root + [false]), Share(vs, root + [true]), root)
  {
    ShareKeeps(vs, root + [false]);
    ShareKeeps(vs, root + [true]);
    forall w | w in vs && IsPrefixOf(root + [false], w.name.bits) ensures !IsPrefixOf(root + [true], w.name.bits) {
      assert |w.name.bits| > |root| && w.name.bits[..|root|] == root;
      ExactlyOneExtensionMatches(root, w.name.bits);
    }
  }

  /**
   * What accepting v into s, whose members were `members`, leaves behind.
   * When both child prefixes now hold SplitSize adults, the event lists the
   * sections the members (v included) were formed into, and none of them got
   * younger. Otherwise s holds its old members and v, the event carries no
   * section and a relocation pick from the members, and only v changed: it
   * records the prefix.
   */
  twostate predicate Accepted(s: Section, members: seq<Vault>, v: Vault, new ne: Event)
    reads s, v, Elements(members), Elements(s.vaults), set t | t in ne.newSections
  {
    if old(SplitDue(members + [v], s.prefix.bits)) then
      && SplitOutcome(ne, s.prefix.bits, members + [v])
      && (forall t :: t in ne.newSections ==> fresh(t))
      && v.age >= old(v.age) && (forall w :: w in members ==> w.age >= old(w.age))
    else
      && ne.newSections == []
      && Elements(s.vaults) == Elements(members) + {v} && |s.vaults| == |members| + 1 && NoDup(s.vaults)
      && IsRelocationCandidate(ne.vaultToRelocate, s.vaults, ne)
      && (forall w :: w in members ==> unchanged(w))
      && v.age == old(v.age) && v.prefix == s.prefix
  }

  /**
   * `newSection`: age every given vault by one, record the prefix in it and
   * list it; then split if the new section should split, else return it.
   */
  method NewSection(prefix: Prefix, vs: seq<Vault>, order: EldershipOrder, rng: Prng) returns (ne: Event)
    requires prefix.WellFormed() && |prefix.bits| <= NameBits
    requires Fit(vs) && ValidOrder(order)
    modifies rng, Elements(vs)`age, Elements(vs)`prefix
    decreases NameBits - |prefix.bits|, 4
    ensures Formed(ne.newSections, prefix.bits, vs)
    ensures forall s :: s in ne.newSections ==> fresh(s)
    ensures ne.vaultToRelocate == None
    ensures forall w :: w in vs ==> w.age > old(w.age) && w.name == old(w.name)
    ensures || (|ne.newSections| == 1 && ne.newSections[0].prefix == prefix && forall w :: w in vs ==> w.age == old(w.age) + 1)
            || (forall t :: t in ne.newSections ==> |t.prefix.bits| > |prefix.bits|)
    ensures PrefixesIdentify(ne.newSections)
    ensures vs == [] ==> |ne.newSections| == 1 && ne.newSections[0].prefix == prefix && ne.newSections[0].vaults == []
  {
    var s := new Section(prefix);
    Admit(s, vs);
    ne := Settle(s, vs, order, rng);
  }

  /** The end of `newSection`: split the freshly formed section if it should split, else return it. */
  method Settle(s: Section, vs: seq<Vault>, order: EldershipOrder, rng: Prng) returns (ne: Event)
    requires s.prefix.WellFormed() && |s.prefix.bits| <= NameBits
    requires s.vaults == vs && Fit(vs) && ValidOrder(order)
    requires forall w :: w in vs ==> w.prefix == s.prefix
    modifies s`vaults, rng, Elements(vs)`age, Elements(vs)`prefix
    decreases NameBits - |s.prefix.bits|, 3
    ensures Formed(ne.newSections, s.prefix.bits, vs)
    ensures forall t :: t in ne.newSections ==> t == s || fresh(t)
    ensures ne.vaultToRelocate == None
    ensures forall w :: w in vs ==> w.age >= old(w.age)
    ensures || (ne.newSections == [s] && forall w :: w in vs ==> w.age == old(w.age))
            || (forall t :: t in ne.newSections ==> |t.prefix.bits| > |s.prefix.bits|)
    ensures PrefixesIdentify(ne.newSections)
    ensures vs == [] ==> ne.newSections == [s] && s.vaults == []
  {
    var split := s.ShouldSplit(order);
    if split {
      CountAdultsMatchingBound(vs, s.prefix.bits + [false], NameBits);
      ne := s.Split(order, rng);
    } else {
      forall w | w in s.vaults ensures w.prefix == s.prefix {
        assert w in Elements(s.vaults);
      }
      ne := Whole(s, vs, rng);
    }
  }

  /** The unsplit end of `newSection`: an event listing the formed section alone. */
  method Whole(s: Section, vs: seq<Vault>, rng: Prng) returns (ne: Event)
    requires MembersRecorded(s) && |s.prefix.bits| <= NameBits && Elements(s.vaults) == Elements(vs)
    modifies rng
    ensures ne.newSections == [s] && ne.vaultToRelocate == None
    ensures Formed(ne.newSections, s.prefix.bits, vs) && PrefixesIdentify(ne.newSections)
  {
    ne := NewNetworkEvent(rng);
    ne := ne.(newSections := [s]);
    forall w ensures w in s.vaults <==> w in vs {
      assert w in Elements(s.vaults) <==> w in Elements(vs);
    }
    FormedSingle(s, vs);
  }

  /** The loop of `newSection`: age each vault by one, record the section's prefix in it and list it. */
  method Admit(s: Section, vs: seq<Vault>)
    requires s.vaults == [] && NoDup(vs)
    modifies s`vaults, Elements(vs)`age, Elements(vs)`prefix
    ensures s.vaults == vs
    ensures forall w :: w in vs ==> w.age == old(w.age) + 1 && w.prefix == s.prefix
  {
    NoDupIndices(vs);
    for i := 0 to |vs|
      invariant s.vaults == vs[..i]
      invariant forall j :: 0 <= j < i ==> vs[j].age == old(vs[j].age) + 1 && vs[j].prefix == s.prefix
      invariant forall j :: i <= j < |vs| ==> vs[j].age == old(vs[j].age)
    {
      vs[i].IncrementAge();
      vs[i].SetPrefix(s.prefix);
      s.vaults := s.vaults + [vs[i]];
    }
    assert vs[..|vs|] == vs;
  }

  /** A single section holding the given vaults (in any order) is formed below its own prefix. */
  lemma FormedSingle(s: Section, vs: seq<Vault>)
    requires MembersRecorded(s) && |s.prefix.bits| <= NameBits
    requires forall w :: w in s.vaults <==> w in vs
    ensures Formed([s], s.prefix.bits, vs)
  {
    TilingSingleton(s.prefix.bits);
    assert PrefixSet([s]) == {s.prefix.bits};
    forall w | w in vs ensures w in VaultsOf([s]) {
      assert w in s.vaults;
    }
  }

  /**
   * How `split` shares out the members: each side takes exactly the members
   * below its child prefix, and no member goes to both sides.
   */
  ghost predicate Divided(members: seq<Vault>, left: seq<Vault>, right: seq<Vault>, root: seq<bool>)
    reads Elements(members)`name
  {
    && (forall w :: w in left ==> w in members && w !in right)
    && (forall w :: w in right ==> w in members)
    && (forall w :: w in members && IsPrefixOf(root + [false], w.name.bits) ==> w in left)
    && (forall w :: w in members && IsPrefixOf(root + [true], w.name.bits) ==> w in right)
  }

  /** The sections formed on the two sides of a split, together, are formed below the parent. */
  lemma FormedJoin(secs0: seq<Section>, secs1: seq<Section>, root: seq<bool>, members: seq<Vault>,
                   left: seq<Vault>, right: seq<Vault>)
    requires |root| < NameBits && Fit(members)
    requires Formed(secs0, root + [false], left) && Formed(secs1, root + [true], right)
    requires AllMatch(left, root + [false]) && AllMatch(right, root + [true])
    requires Divided(members, left, right, root)
    ensures Formed(secs0 + secs1, root, members)
  {
    var secs := secs0 + secs1;
    forall s | s in secs ensures s in secs0 || s in secs1 { }
    TilingJoin(PrefixSet(secs0), PrefixSet(secs1), root);
    assert PrefixSet(secs) == PrefixSet(secs0) + PrefixSet(secs1);
    if AllMatch(members, root) {
      forall w | w in members ensures w in VaultsOf(secs) {
        ExactlyOneExtensionMatches(root, w.name.bits);
        if w in left {
          var s :| s in secs0 && w in s.vaults;
          assert s in secs;
        } else {
          var s :| s in secs1 && w in s.vaults;
          assert s in secs;
        }
      }
    }
  }
}
