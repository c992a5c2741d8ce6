/**
 * The network: a table of sections keyed by prefix, the counters the
 * simulation reports, and the operations that add, remove and relocate
 * vaults, splitting and merging sections as they go.
 */
module Networks {
  import opened Common
  import opened Random
  import opened XorNames
  import opened Prefixes
  import opened NetworkEvents
  import opened Vaults
  import opened Tries
  import opened Sections
  import opened SectionTables
  import opened NeighbourChoice
  import opened AgeReports

  /** bits with bit i flipped: the neighbour prefix `relocateVault` builds for position i. */
  function Flipped(bits: seq<bool>, i: nat): (f: seq<bool>)
    requires i < |bits|
    ensures |f| == |bits| && f[i] == !bits[i] && forall j :: 0 <= j < |bits| && j != i ==> f[j] == bits[j]
  {
    bits[i := !bits[i]]
  }

  /**
   * s is a neighbour of the prefix bits: the section of a prefix that
   * `getMatchingPrefixes` finds for bits with one bit flipped.
   */
  ghost predicate IsNeighbour(m: Table, bits: seq<bool>, s: Section)
    requires Keyed(m)
  {
    exists i, q :: 0 <= i < |bits| && q in MatchingPrefixes(m, MakePrefix(Flipped(bits, i))) && q.key in m && m[q.key] == s
  }

  /** A neighbour's prefix is never the prefix it neighbours. */
  lemma NeighbourElsewhere(m: Table, bits: seq<bool>, s: Section)
    requires Keyed(m) && IsNeighbour(m, bits, s)
    ensures s.prefix.bits != bits
  {
    var i, q :| 0 <= i < |bits| && q in MatchingPrefixes(m, MakePrefix(Flipped(bits, i))) && q.key in m && m[q.key] == s;
    var f := Flipped(bits, i);
    MatchingResident(m, MakePrefix(f));
    MatchingPrefixesFacts(m, MakePrefix(f), q);
  }

  /** On a shaped table with a section, every full-length name routes to a resident prefix of it. */
  lemma RoutingFindsHome(m: Table, x: seq<bool>)
    requires Shaped(m) && m != map[] && |x| == NameBits
    ensures exists n :: 0 <= n <= |x| && KeyOf(x[..n]) in m
  {
    var k := Route(m, x);
    var a := m[k].prefix.bits;
    assert x[..|a|] == a;
  }

  /**
   * A well-formed prefix of x with no shorter resident prefix, which is
   * itself resident or leaves every prefix of x non-resident, is resident
   * and is the one x routes to.
   */
  lemma ShortestResident(m: Table, x: seq<bool>, p: Prefix)
    requires Shaped(m) && m != map[] && |x| == NameBits
    requires p.WellFormed() && IsPrefixOf(p.bits, x)
    requires p.key in m ==> forall n :: 0 <= n < |p.bits| ==> KeyOf(x[..n]) !in m
    requires p.key !in m ==> forall n :: 0 <= n <= |x| ==> KeyOf(x[..n]) !in m
    ensures p.key in m && p.key == Route(m, x)
  {
    RoutingFindsHome(m, x);
    Resident(m, p.bits);
    RouteUnique(m, x, p.key);
  }

  /** A section whose list and whose members' prefixes and names are as they were stays sound. */
  twostate lemma StaysSound(new t: Section)
    requires old(allocated(t)) && old(SectionSound(t))
    requires t.vaults == old(t.vaults)
    requires forall w :: w in t.vaults ==> w.prefix == old(w.prefix) && w.name == old(w.name)
    ensures SectionSound(t)
  {
  }

  /** A table whose sections keep their lists, and whose members keep their prefixes and names, stays populated. */
  twostate lemma PopulatedKept(new m: Table)
    requires old(allocated(m)) && old(Populated(m))
    requires forall t :: t in m.Values ==> t.vaults == old(t.vaults)
    requires forall t, w :: t in m.Values && w in t.vaults ==> w.prefix == old(w.prefix) && w.name == old(w.name)
    ensures Populated(m)
  {
    forall t | t in m.Values ensures SectionSound(t) {
      assert old(MembersListed(m, t); SectionSound(t));
      StaysSound(t);
    }
  }

  /** The members of sections whose lists are untouched stay the same. */
  twostate lemma MembersKept(new m: Table)
    requires old(allocated(m))
    requires forall t :: t in m.Values ==> t.vaults == old(t.vaults)
    ensures MembersOf(m) == old(MembersOf(m))
  {
  }

  /**
   * Replacing the section at k by sections formed from its members and one
   * more vault keeps the table shaped and populated, and its members are
   * those of the other sections together with the vaults formed.
   */
  lemma SplitReplaces(m: Table, k: Key, secs: seq<Section>, grown: seq<Vault>, m': Table)
    requires Shaped(m) && k in m
    requires forall j :: j in m && j != k ==> SectionSound(m[j])
    requires Formed(secs, m[k].prefix.bits, grown) && PrefixesIdentify(secs)
    requires forall t :: t in secs ==> |t.prefix.bits| > |m[k].prefix.bits|
    requires AllMatch(grown, m[k].prefix.bits) && forall w :: w in grown ==> |w.name.bits| == NameBits
    requires m'.Keys == (m.Keys - {k}) + KeysOf(secs)
    requires forall t :: t in secs ==> m'[t.prefix.key] == t
    requires forall j :: j in m && j != k && j !in KeysOf(secs) ==> m'[j] == m[j]
    ensures Shaped(m') && Populated(m') && m' != map[]
    ensures MembersOf(m') == MembersOf(m - {k}) + Elements(grown)
  {
    var b := m[k].prefix.bits;
    FormedSound(secs, b, grown);
    KeysBelowMember(m, k);
    ReplaceSubtreeShape(m, b, k, secs, m');
    PopulatedAfterReplace(m, {k}, secs, m');
    assert (m - {k}).Keys == m.Keys - {k};
    MembersOfInstalled(m - {k}, secs, m');
  }

  /** The table a split leaves: the new sections filed, the parent's key deleted. */
  lemma SplitTable(m: Table, k: Key, secs: seq<Section>, grown: seq<Vault>)
    requires Shaped(m) && k in m
    requires forall j :: j in m && j != k ==> SectionSound(m[j])
    requires Formed(secs, m[k].prefix.bits, grown) && PrefixesIdentify(secs)
    requires forall t :: t in secs ==> |t.prefix.bits| > |m[k].prefix.bits|
    requires AllMatch(grown, m[k].prefix.bits) && forall w :: w in grown ==> |w.name.bits| == NameBits
    ensures Shaped(Filed(m, secs) - {k}) && Populated(Filed(m, secs) - {k}) && Filed(m, secs) - {k} != map[]
    ensures (Filed(m, secs) - {k}).Keys == (m.Keys - {k}) + KeysOf(secs)
    ensures MembersOf(Filed(m, secs) - {k}) == MembersOf(m - {k}) + Elements(grown)
    ensures forall j :: j in m && j != k ==> j in Filed(m, secs) - {k} && (Filed(m, secs) - {k})[j] == m[j]
  {
    assert m[k].prefix.key == k;
    LongerKeysDiffer(secs, m[k].prefix.bits);
    FiledWithout(m, secs, k);
    var f := Filed(m, secs) - {k};
    SplitReplaces(m, k, secs, grown, f);
    assert forall t :: t in secs ==> t.prefix.bits in PrefixSet(secs);
    SplitKeeps(m, k, secs, f);
  }

  /** A table with the sections formed below k filed and k deleted still holds every other section as it was. */
  lemma SplitKeeps(m: Table, k: Key, secs: seq<Section>, f: Table)
    requires Shaped(m) && k in m
    requires forall t :: t in secs ==> t.prefix.WellFormed() && IsPrefixOf(m[k].prefix.bits, t.prefix.bits)
    requires forall t :: t in secs ==> |t.prefix.bits| > |m[k].prefix.bits|
    requires f.Keys == (m.Keys - {k}) + KeysOf(secs)
    requires forall j :: j in m && j != k && j !in KeysOf(secs) ==> f[j] == m[j]
    ensures forall j :: j in m && j != k ==> j in f && f[j] == m[j]
  {
    KeysApart(m, k, secs);
  }

  /** Sections formed strictly below the section at k are filed under keys no other section of a shaped table has. */
  lemma KeysApart(m: Table, k: Key, secs: seq<Section>)
    requires Shaped(m) && k in m
    requires forall t :: t in secs ==> t.prefix.WellFormed() && IsPrefixOf(m[k].prefix.bits, t.prefix.bits)
    requires forall t :: t in secs ==> |t.prefix.bits| > |m[k].prefix.bits|
    ensures forall j :: j in m && j != k ==> j !in KeysOf(secs)
  {
    forall j | j in m && j != k ensures j !in KeysOf(secs) {
      if j in KeysOf(secs) {
        var t :| t in secs && t.prefix.key == j;
        KeyOfInjective(t.prefix.bits, m[j].prefix.bits);
        assert false;
      }
    }
  }

  /** The sections an event formed: none when the vault was refused or the section did not split. */
  function NewSectionsOf(ne: Option<Event>): seq<Section>
  {
    if ne.Some? then ne.value.newSections else []
  }

  /** The table once the section at k has taken a vault in: as it was, or with the sections it split into filed and k deleted. */
  function Replaced(m: Table, k: Key, secs: seq<Section>): Table
  {
    if secs == [] then m else Filed(m, secs) - {k}
  }

  /** The prefixes a split forms are longer than the parent's, so none is filed under the parent's key. */
  lemma LongerKeysDiffer(secs: seq<Section>, b: seq<bool>)
    requires forall t :: t in secs ==> t.prefix.WellFormed() && |t.prefix.bits| > |b|
    ensures forall t :: t in secs ==> t.prefix.key != KeyOf(b)
  {
    forall t | t in secs ensures t.prefix.key != KeyOf(b) {
      if t.prefix.key == KeyOf(b) {
        KeyOfInjective(t.prefix.bits, b);
      }
    }
  }

  /**
   * Before a vault joins the section at k: the table's members are those of
   * the other sections and those of k, the section is sound, the vault is
   * new to it, and no other section shares a member with it.
   */
  lemma JoinSetting(m: Table, k: Key, v: Vault)
    requires Keyed(m) && Populated(m) && k in m && v !in MembersOf(m)
    ensures MembersOf(m) == MembersOf(m - {k}) + Elements(m[k].vaults)
    ensures SectionSound(m[k]) && NoDup(m[k].vaults + [v])
    ensures forall j, w :: j in m && j != k && w in m[j].vaults ==> w !in m[k].vaults && w != v
  {
    var s := m[k];
    assert s in m.Values;
    MembersSplitAt(m, k);
    MembersListed(m, s);
    NoDupAppend(s.vaults, v);
    forall j, w | j in m && j != k && w in m[j].vaults ensures w !in s.vaults && w != v {
      assert m[j] in m.Values;
      MemberHome(m, j, w);
      MembersListed(m, m[j]);
    }
  }

  /** A keyed table whose sections are all sound is populated, and its members are those of k and of the rest. */
  lemma Repopulated(m: Table, k: Key)
    requires Keyed(m) && k in m && SectionSound(m[k])
    requires forall j :: j in m && j != k ==> SectionSound(m[j])
    ensures Populated(m)
    ensures MembersOf(m) == MembersOf(m - {k}) + Elements(m[k].vaults)
  {
    forall t | t in m.Values ensures SectionSound(t) {
      var j :| j in m && m[j] == t;
    }
    MembersSplitAt(m, k);
  }

  /** Sections other than k whose lists and members' prefixes and names are untouched stay sound and keep their members. */
  twostate lemma OthersKept(new m: Table, k: Key)
    requires old(allocated(m)) && Keyed(m) && old(Populated(m))
    requires forall j :: j in m && j != k ==> m[j].vaults == old(m[j].vaults)
    requires forall j, w :: j in m && j != k && w in m[j].vaults ==> w.prefix == old(w.prefix) && w.name == old(w.name)
    ensures forall j :: j in m && j != k ==> SectionSound(m[j])
    ensures MembersOf(m - {k}) == old(MembersOf(m - {k}))
  {
    forall j | j in m && j != k ensures SectionSound(m[j]) {
      assert m[j] in m.Values;
      assert old(MembersListed(m, m[j]); SectionSound(m[j]));
    }
    forall t | t in (m - {k}).Values ensures t.vaults == old(t.vaults) {
      var j :| j in m - {k} && (m - {k})[j] == t;
    }
    MembersKept(m - {k});
  }

  /** A section that took a vault in without splitting stays sound. */
  twostate lemma AdmittedSound(new s: Section, new members: seq<Vault>, new v: Vault)
    requires old(allocated(s)) && old(allocated(members)) && old(allocated(v))
    requires old(SectionSound(s)) && old(s.vaults) == members
    requires Elements(s.vaults) == Elements(members) + {v} && NoDup(s.vaults)
    requires forall w :: w in members ==> unchanged(w)
    requires v.prefix == s.prefix && IsPrefixOf(s.prefix.bits, v.name.bits) && |v.name.bits| == NameBits
    ensures SectionSound(s)
  {
    forall w | w in s.vaults ensures w.prefix == s.prefix && IsPrefixOf(s.prefix.bits, w.name.bits) && |w.name.bits| == NameBits {
      if w != v {
        assert w in Elements(s.vaults);
        assert w in Elements(members);
        assert old(w.prefix == s.prefix && IsPrefixOf(s.prefix.bits, w.name.bits) && |w.name.bits| == NameBits);
      }
    }
  }

  /**
   * After the section at k split on taking v in: the sections formed tile
   * its prefix with its members and v and may replace it in the table, and
   * the members of the table gain exactly v.
   */
  twostate lemma SplitReady(new m: Table, k: Key, new members: seq<Vault>, new v: Vault, new e: Event)
    requires old(allocated(m)) && old(allocated(members)) && old(allocated(v))
    requires k in m && old(m[k].vaults) == members && old(SectionSound(m[k]))
    requires forall w :: w in members ==> w.name == old(w.name)
    requires IsPrefixOf(m[k].prefix.bits, v.name.bits) && |v.name.bits| == NameBits
    requires old(MembersOf(m)) == old(MembersOf(m - {k})) + Elements(members)
    requires e.newSections != [] && Accepted(m[k], members, v, e)
    ensures Formed(e.newSections, m[k].prefix.bits, members + [v]) && PrefixesIdentify(e.newSections)
    ensures forall t :: t in e.newSections ==> |t.prefix.bits| > |m[k].prefix.bits|
    ensures AllMatch(members + [v], m[k].prefix.bits) && forall w :: w in members + [v] ==> |w.name.bits| == NameBits
    ensures e.vaultToRelocate == None && forall t :: t in e.newSections ==> fresh(t)
    ensures old(MembersOf(m - {k})) + Elements(members + [v]) == old(MembersOf(m)) + {v}
  {
    var s := m[k];
    if !old(SplitDue(members + [v], s.prefix.bits)) {
      assert false;
    }
    forall w | w in members + [v] ensures IsPrefixOf(s.prefix.bits, w.name.bits) && |w.name.bits| == NameBits {
      if w != v {
        assert w in members;
        assert old(IsPrefixOf(s.prefix.bits, w.name.bits) && |w.name.bits| == NameBits);
      }
    }
    assert Elements(members + [v]) == Elements(members) + {v};
  }

  /**
   * After the section at k refused v, or took it in without splitting: the
   * table is populated again, its members gain exactly the vault taken in,
   * and a vault picked for relocation is one of them.
   */
  twostate lemma Unsplit(new m: Table, k: Key, new members: seq<Vault>, new v: Vault, new disallowed: bool, new ne: Option<Event>)
    requires old(allocated(m)) && old(allocated(members)) && old(allocated(v))
    requires Keyed(m) && k in m && old(m[k].vaults) == members && old(SectionSound(m[k]))
    requires forall j :: j in m && j != k ==> SectionSound(m[j])
    requires IsPrefixOf(m[k].prefix.bits, v.name.bits) && |v.name.bits| == NameBits
    requires old(MembersOf(m)) == old(MembersOf(m - {k})) + Elements(members)
    requires MembersOf(m - {k}) == old(MembersOf(m - {k}))
    requires disallowed ==> ne == None && m[k].vaults == members && forall w :: w in members ==> unchanged(w)
    requires !disallowed ==> ne.Some? && ne.value.newSections == [] && Accepted(m[k], members, v, ne.value)
    ensures Populated(m)
    ensures MembersOf(m) == old(MembersOf(m)) + if disallowed then {} else {v}
    ensures ne.Some? && ne.value.vaultToRelocate.Some? ==> ne.value.vaultToRelocate.value in MembersOf(m)
  {
    var s := m[k];
    if disallowed {
      StaysSound(s);
    } else {
      if old(SplitDue(members + [v], s.prefix.bits)) {
        CoversNonEmpty(PrefixSet(ne.value.newSections), s.prefix.bits);
        assert false;
      }
      AdmittedSound(s, members, v);
    }
    Repopulated(m, k);
    if ne.Some? && ne.value.vaultToRelocate.Some? {
      assert ne.value.vaultToRelocate.value in Elements(s.vaults);
    }
  }

  /**
   * After the section at k was offered v: if it split, the split is ready
   * to replace it in the table; otherwise the table is populated again with
   * exactly the vault taken in added.
   */
  twostate lemma Placed(new m: Table, k: Key, new members: seq<Vault>, new v: Vault, new disallowed: bool, new ne: Option<Event>)
    requires old(allocated(m)) && old(allocated(members)) && old(allocated(v))
    requires Keyed(m) && k in m && old(m[k].vaults) == members && old(SectionSound(m[k]))
    requires forall j :: j in m && j != k ==> SectionSound(m[j])
    requires forall w :: w in members ==> w.name == old(w.name)
    requires IsPrefixOf(m[k].prefix.bits, v.name.bits) && |v.name.bits| == NameBits
    requires old(MembersOf(m)) == old(MembersOf(m - {k})) + Elements(members)
    requires MembersOf(m - {k}) == old(MembersOf(m - {k}))
    requires disallowed ==> ne == None && m[k].vaults == members && forall w :: w in members ==> unchanged(w)
    requires !disallowed ==> ne.Some? && Accepted(m[k], members, v, ne.value) == true
    ensures ne.Some? && ne.value.newSections != [] ==>
      && Formed(ne.value.newSections, m[k].prefix.bits, members + [v]) && PrefixesIdentify(ne.value.newSections)
      && (forall t :: t in ne.value.newSections ==> |t.prefix.bits| > |m[k].prefix.bits|)
      && AllMatch(members + [v], m[k].prefix.bits) && (forall w :: w in members + [v] ==> |w.name.bits| == NameBits)
      && ne.value.vaultToRelocate == None && (forall t :: t in ne.value.newSections ==> fresh(t))
      && old(MembersOf(m - {k})) + Elements(members + [v]) == old(MembersOf(m)) + {v}
    ensures !(ne.Some? && ne.value.newSections != []) ==>
      && Populated(m)
      && MembersOf(m) == old(MembersOf(m)) + (if disallowed then {} else {v})
      && (ne.Some? && ne.value.vaultToRelocate.Some? ==> ne.value.vaultToRelocate.value in MembersOf(m))
  {
    if ne.Some? && ne.value.newSections != [] {
      SplitReady(m, k, members, v, ne.value);
    } else {
      Unsplit(m, k, members, v, disallowed, ne);
    }
  }

  /** A member of a shaped, populated table is listed in the section its prefix names, and that prefix is well formed. */
  lemma HomeOf(m: Table, w: Vault)
    requires Shaped(m) && Populated(m) && w in MembersOf(m)
    ensures w.prefix.key in m && w in m[w.prefix.key].vaults && w.prefix == m[w.prefix.key].prefix
  {
    var t :| t in m.Values && w in t.vaults;
    var j :| j in m && m[j] == t;
    MemberHome(m, j, w);
    assert SectionSound(t);
  }

  /**
   * Before v leaves the section at k, the key its prefix names: the table's
   * members are those of the other sections and those of k, the section is
   * sound, and no other section lists v.
   */
  lemma LeaveSetting(m: Table, k: Key, v: Vault)
    requires Keyed(m) && Populated(m) && k in m && v.prefix.key == k
    ensures MembersOf(m) == MembersOf(m - {k}) + Elements(m[k].vaults)
    ensures SectionSound(m[k]) && v !in MembersOf(m - {k})
  {
    MembersSplitAt(m, k);
    assert m[k] in m.Values;
    if v in MembersOf(m - {k}) {
      var t :| t in (m - {k}).Values && v in t.vaults;
      var j :| j in m - {k} && (m - {k})[j] == t;
      MemberHome(m, j, v);
    }
  }

  /**
   * After the section at k dropped v and reordered its list: the table is
   * populated again, its members lose exactly v, and a vault picked for
   * relocation is one of them.
   */
  twostate lemma DepartureDone(new m: Table, k: Key, new members: seq<Vault>, new v: Vault, new removed: seq<Vault>, new pick: Option<Vault>)
    requires old(allocated(m)) && old(allocated(members))
    requires Keyed(m) && k in m && old(m[k].vaults) == members && old(SectionSound(m[k]))
    requires forall j :: j in m && j != k ==> SectionSound(m[j])
    requires old(MembersOf(m)) == old(MembersOf(m - {k})) + Elements(members)
    requires MembersOf(m - {k}) == old(MembersOf(m - {k})) && v !in old(MembersOf(m - {k}))
    requires removed == RemoveFirst(members, v)
    requires Elements(m[k].vaults) == Elements(removed) && (NoDup(removed) ==> NoDup(m[k].vaults))
    requires forall w :: w in members ==> unchanged(w)
    requires pick.Some? ==> pick.value in removed
    ensures Populated(m)
    ensures MembersOf(m) == old(MembersOf(m)) - {v}
    ensures pick.Some? ==> pick.value in MembersOf(m)
  {
    var s := m[k];
    assert Elements(s.vaults) == Elements(members) - {v};
    forall w | w in s.vaults ensures w.prefix == s.prefix && IsPrefixOf(s.prefix.bits, w.name.bits) && |w.name.bits| == NameBits {
      assert w in Elements(s.vaults);
      assert w in members;
      assert old(w.prefix == s.prefix && IsPrefixOf(s.prefix.bits, w.name.bits) && |w.name.bits| == NameBits);
    }
    Repopulated(m, k);
    if pick.Some? {
      assert pick.value in Elements(s.vaults);
    }
  }

  /** The ages of the vaults of vs, in order. */
  ghost function AgesAlong(vs: seq<Vault>): (r: seq<int>)
    reads Elements(vs)`age
    ensures |r| == |vs|
  {
    if vs == [] then [] else AgesAlong(vs[..|vs| - 1]) + [vs[|vs| - 1].age]
  }

  /** The ages along a list are the ages of its vaults. */
  lemma {:induction false} AgesAlongOf(vs: seq<Vault>)
    ensures Elements(AgesAlong(vs)) == AgesOf(Elements(vs))
  {
    if vs != [] {
      var n := |vs| - 1;
      AgesAlongOf(vs[..n]);
      assert vs == vs[..n] + [vs[n]];
      ElementsAppend(vs[..n], vs[n]);
      ElementsAppend(AgesAlong(vs[..n]), vs[n].age);
    }
  }

  /** The ages the given vaults have. */
  ghost function AgesOf(ws: set<Vault>): set<int>
    reads ws
  {
    set w | w in ws :: w.age
  }

  /** On a shaped table with more than one section, no section has the blank prefix. */
  lemma BlankAlone(m: Table, k: Key)
    requires Shaped(m) && k in m && |m| > 1
    ensures |m[k].prefix.bits| > 0
  {
    assert |{k}| == 1 && m.Keys != {k};
    var j :| j in m && j != k;
    assert m[j].prefix.bits in PrefixesOf(m) && m[k].prefix.bits in PrefixesOf(m);
  }

  /** What a merge takes in besides the section at p: its sibling if resident, else every resident prefix below the sibling. */
  function MergePartners(m: Table, p: Prefix): seq<Prefix>
    requires Keyed(m) && |p.bits| > 0
  {
    var sibling := Sibling(p);
    if sibling.key in m then [sibling] else ChildPrefixes(m, sibling)
  }

  /**
   * The merge partners of a resident prefix are distinct resident prefixes
   * other than it, and their bits are the resident prefixes below its sibling.
   */
  lemma PartnersFacts(m: Table, p: Prefix)
    requires Shaped(m) && m != map[] && p.WellFormed() && p.key in m && |p.bits| > 0
    ensures BitsOf(MergePartners(m, p)) == Subtree(PrefixesOf(m), Sibling(p).bits)
    ensures forall q :: q in MergePartners(m, p) ==> q.WellFormed() && q.key in m && q != p
    ensures NoDup(MergePartners(m, p))
  {
    var sib := Sibling(p);
    var P := PrefixesOf(m);
    var n := |p.bits|;
    Resident(m, sib.bits);
    if sib.key in m {
      SubtreeOfMember(P, sib.bits);
      assert sib.bits[n - 1] != p.bits[n - 1];
    } else {
      ChildPrefixesAreSubtree(m, sib);
      ChildPrefixesFan(m, sib);
    }
  }

  /**
   * The section at k and its merge partners are distinct resident prefixes,
   * and they are exactly the resident prefixes below the parent of k.
   */
  lemma MergeGroup(m: Table, k: Key)
    requires Shaped(m) && k in m && |m[k].prefix.bits| > 0
    ensures NoDup([m[k].prefix] + MergePartners(m, m[k].prefix))
    ensures forall q :: q in [m[k].prefix] + MergePartners(m, m[k].prefix) ==> q.WellFormed() && q.key in m
    ensures PrefixKeys([m[k].prefix] + MergePartners(m, m[k].prefix)) == KeysBelow(m, Parent(m[k].prefix).bits)
  {
    var p := m[k].prefix;
    var gone := MergePartners(m, p);
    var group := [p] + gone;
    PartnersFacts(m, p);
    NoDupConcat([p], gone);
    SubtreeOfParentKeys(m, k);
    var par := Parent(p).bits;
    forall j | j in KeysBelow(m, par) ensures j in PrefixKeys(group) {
      var a := m[j].prefix.bits;
      if a == p.bits {
        assert j == p.key;
      } else {
        assert a in BitsOf(gone);
        var q :| q in gone && q.bits == a;
        assert q.key == j;
      }
    }
    forall j | j in PrefixKeys(group) ensures j in KeysBelow(m, par) {
      var q :| q in group && q.key == j;
      if q != p {
        assert q.bits in BitsOf(gone);
      }
      Resident(m, q.bits);
    }
  }

  /** Below the parent of the prefix at k lie exactly that prefix and the resident prefixes below its sibling. */
  lemma SubtreeOfParentKeys(m: Table, k: Key)
    requires Shaped(m) && k in m && |m[k].prefix.bits| > 0
    ensures forall j :: j in KeysBelow(m, Parent(m[k].prefix).bits) <==>
      j in m && (m[j].prefix.bits == m[k].prefix.bits || m[j].prefix.bits in Subtree(PrefixesOf(m), Sibling(m[k].prefix).bits))
  {
    var p := m[k].prefix;
    var n := |p.bits|;
    var P := PrefixesOf(m);
    assert p.bits in P;
    assert Sibling(p).bits == Parent(p).bits + [!p.bits[n - 1]];
    SubtreeOfParent(P, p.bits);
    forall j | j in m ensures m[j].prefix.bits in P {
    }
  }

  /**
   * Before a merge at k: the vaults gathered from the section and its
   * partners are fit to form a section at the parent, the table's members
   * are those gathered and those of the sections outside the parent, and no
   * section outside the parent lists a gathered vault.
   */
  lemma MergeSetting(m: Table, k: Key)
    requires Shaped(m) && Populated(m) && k in m && |m[k].prefix.bits| > 0
    ensures forall q :: q in [m[k].prefix] + MergePartners(m, m[k].prefix) ==> q.key in m
    ensures PrefixKeys([m[k].prefix] + MergePartners(m, m[k].prefix)) == KeysBelow(m, Parent(m[k].prefix).bits)
    ensures var vs := ListedAt(m, [m[k].prefix] + MergePartners(m, m[k].prefix));
      && Fit(vs) && AllMatch(vs, Parent(m[k].prefix).bits)
      && MembersOf(m) == MembersOf(m - KeysBelow(m, Parent(m[k].prefix).bits)) + Elements(vs)
      && MembersOf(m - KeysBelow(m, Parent(m[k].prefix).bits)) !! Elements(vs)
    ensures Populated(m - KeysBelow(m, Parent(m[k].prefix).bits))
  {
    var p := m[k].prefix;
    var group := [p] + MergePartners(m, p);
    var B := KeysBelow(m, Parent(p).bits);
    MergeGroup(m, k);
    GroupListed(m, group);
    GatheredFit(m, Parent(p).bits, ListedAt(m, group));
    MembersSplitBy(m, B);
    forall w | w in MembersOf(m - B) ensures w !in ListedAt(m, group) {
      var t :| t in (m - B).Values && w in t.vaults;
      var j :| j in m - B && (m - B)[j] == t;
    }
    forall t | t in (m - B).Values ensures SectionSound(t) {
      var j :| j in m - B && (m - B)[j] == t;
      assert m[j] in m.Values;
    }
  }

  /** The members filed below par lie below par, carry full names, and are listed nowhere else. */
  lemma GatheredFit(m: Table, par: seq<bool>, vs: seq<Vault>)
    requires Shaped(m) && Populated(m) && Elements(vs) == MembersUnder(m, KeysBelow(m, par))
    ensures AllMatch(vs, par) && forall w :: w in vs ==> |w.name.bits| == NameBits
    ensures forall j, w :: j in m && j !in KeysBelow(m, par) && w in m[j].vaults ==> w !in vs
  {
    var B := KeysBelow(m, par);
    forall w | w in vs ensures IsPrefixOf(par, w.name.bits) && |w.name.bits| == NameBits {
      assert w in Elements(vs);
      var j :| j in B && w in m[j].vaults;
      assert m[j] in m.Values;
      PrefixOfTransitive(par, m[j].prefix.bits, w.name.bits);
    }
    forall j, w | j in m && j !in B && w in m[j].vaults ensures w !in vs {
      if w in vs {
        assert w in Elements(vs);
        var i :| i in B && w in m[i].vaults;
        MemberHome(m, i, w);
      }
    }
  }

  /** Sections untouched, whose members are untouched too, stay sound and keep their members. */
  twostate lemma RestKept(new m: Table)
    requires old(allocated(m)) && old(Populated(m))
    requires unchanged(m.Values) && unchanged(old(MembersOf(m)))
    ensures forall j :: j in m ==> SectionSound(m[j])
    ensures MembersOf(m) == old(MembersOf(m))
  {
    forall t | t in m.Values ensures t.vaults == old(t.vaults) {
    }
    MembersKept(m);
    forall j | j in m ensures SectionSound(m[j]) {
      assert m[j] in m.Values;
      assert old(SectionSound(m[j]));
      forall w | w in m[j].vaults ensures w.prefix == old(w.prefix) && w.name == old(w.name) {
        assert w in old(MembersOf(m));
      }
      StaysSound(m[j]);
    }
  }

  /**
   * After the new section at the parent is formed: filing it into the table
   * without the merged sections leaves a shaped, populated table with the
   * members the table had before the merge.
   */
  twostate lemma MergeDone(new m: Table, k: Key, new rest: Table, new kept: set<Vault>, new secs: seq<Section>, new vs: seq<Vault>)
    requires old(allocated(m)) && old(allocated(rest)) && old(allocated(kept)) && old(allocated(vs))
    requires Shaped(m) && k in m && |m[k].prefix.bits| > 0
    requires rest == m - KeysBelow(m, Parent(m[k].prefix).bits)
    requires old(Populated(rest))
    requires old(AllMatch(vs, Parent(m[k].prefix).bits) && forall w :: w in vs ==> |w.name.bits| == NameBits)
    requires kept == old(MembersOf(rest)) && old(MembersOf(m)) == kept + Elements(vs)
    requires unchanged(rest.Values) && unchanged(kept)
    requires forall w :: w in vs ==> w.name == old(w.name)
    requires Formed(secs, Parent(m[k].prefix).bits, vs) && PrefixesIdentify(secs)
    requires forall t :: t in secs ==> fresh(t)
    ensures Shaped(Filed(rest, secs)) && Populated(Filed(rest, secs)) && Filed(rest, secs) != map[]
    ensures MembersOf(Filed(rest, secs)) == old(MembersOf(m))
    ensures forall t :: t in Filed(rest, secs).Values ==> t in m.Values || fresh(t)
  {
    forall t | t in Filed(rest, secs).Values ensures t in m.Values || fresh(t) {
      var j :| j in Filed(rest, secs) && Filed(rest, secs)[j] == t;
      FiledFacts(rest, secs);
      if j !in KeysOf(secs) {
        assert rest[j] == m[j];
      }
    }
    RestKept(rest);
    MergeInstall(m, k, Parent(m[k].prefix).bits, rest, secs, vs);
  }

  /**
   * The table after the merge at p: the section at p and its sibling, or
   * else every resident prefix below the sibling, are deleted, and the
   * sections formed at the parent from their vaults are filed in their place.
   */
  method MergeTable(m: Table, p: Prefix, order: EldershipOrder, rng: Prng) returns (m': Table, secs: seq<Section>)
    requires Shaped(m) && Populated(m) && ValidOrder(order) && |m| > 1
    requires p.key in m && m[p.key].prefix == p
    modifies rng, MembersOf(m)`age, MembersOf(m)`prefix
    ensures |p.bits| > 0 && m' == Filed(m - KeysBelow(m, Parent(p).bits), secs)
    ensures Formed(secs, Parent(p).bits, old(ListedAt(m, [p] + MergePartners(m, p)))) && PrefixesIdentify(secs)
    ensures forall t :: t in secs ==> fresh(t)
    ensures Shaped(m') && Populated(m') && m' != map[]
    ensures MembersOf(m') == old(MembersOf(m))
    ensures forall t :: t in m'.Values ==> t in m.Values || fresh(t)
    ensures forall w: Vault :: old(allocated(w)) ==> old(w.age) <= w.age
  {
    BlankAlone(m, p.key);
    MergeSetting(m, p.key);
    var group := [p] + MergePartners(m, p);
    m', secs := MergeInto(m, p.key, m - PrefixKeys(group), ListedAt(m, group), order, rng);
  }

  /** The second half of a merge: the vaults gathered below the parent form new sections there, filed into the rest of the table. */
  method MergeInto(m: Table, k: Key, rest: Table, vs: seq<Vault>, order: EldershipOrder, rng: Prng) returns (m': Table, secs: seq<Section>)
    requires Shaped(m) && k in m && |m[k].prefix.bits| > 0 && ValidOrder(order)
    requires rest == m - KeysBelow(m, Parent(m[k].prefix).bits) && Populated(rest)
    requires Fit(vs) && AllMatch(vs, Parent(m[k].prefix).bits)
    requires MembersOf(m) == MembersOf(rest) + Elements(vs) && MembersOf(rest) !! Elements(vs)
    modifies rng, Elements(vs)`age, Elements(vs)`prefix
    ensures m' == Filed(rest, secs)
    ensures Formed(secs, Parent(m[k].prefix).bits, vs) && PrefixesIdentify(secs)
    ensures forall t :: t in secs ==> fresh(t)
    ensures Shaped(m') && Populated(m') && m' != map[]
    ensures MembersOf(m') == old(MembersOf(m))
    ensures forall t :: t in m'.Values ==> t in m.Values || fresh(t)
    ensures forall w: Vault :: old(allocated(w)) ==> old(w.age) <= w.age
  {
    ghost var kept := MembersOf(rest);
    assert forall w :: w in kept ==> allocated(w);
    var ne := NewSection(Parent(m[k].prefix), vs, order, rng);
    MergeDone(m, k, rest, kept, ne.newSections, vs);
    secs := ne.newSections;
    m' := Filed(rest, secs);
  }

  /**
   * Filing sections formed below par from the vaults gathered there, into
   * the table without the sections below par, keeps it shaped and populated
   * with the same members.
   */
  lemma MergeInstall(m: Table, k: Key, par: seq<bool>, rest: Table, secs: seq<Section>, vs: seq<Vault>)
    requires Shaped(m) && k in m && IsPrefixOf(par, m[k].prefix.bits)
    requires rest == m - KeysBelow(m, par) && forall j :: j in rest ==> SectionSound(rest[j])
    requires Formed(secs, par, vs) && PrefixesIdentify(secs)
    requires AllMatch(vs, par) && forall w :: w in vs ==> |w.name.bits| == NameBits
    ensures Shaped(Filed(rest, secs)) && Populated(Filed(rest, secs)) && Filed(rest, secs) != map[]
    ensures MembersOf(Filed(rest, secs)) == MembersOf(rest) + Elements(vs)
  {
    var m' := Filed(rest, secs);
    FormedSound(secs, par, vs);
    FiledFacts(rest, secs);
    ReplaceSubtreeShape(m, par, k, secs, m');
    PopulatedAfterReplace(m, KeysBelow(m, par), secs, m');
    MembersOfInstalled(rest, secs, m');
  }

  /** Files each section under its key, in order. */
  method FileAll(m: Table, secs: seq<Section>) returns (r: Table)
    ensures r == Filed(m, secs)
  {
    r := m;
    for i := 0 to |secs|
      invariant r == Filed(m, secs[..i])
    {
      assert secs[..i + 1][..i] == secs[..i];
      r := r[secs[i].prefix.key := secs[i]];
    }
    assert secs[..|secs|] == secs;
  }

  /**
   * The neighbour prefix `relocateVault` builds for position i: a blank
   * prefix extended bit by bit, left for 0 and right for 1, with bit i
   * flipped.
   */
  method FlippedPrefix(p: Prefix, i: nat) returns (r: Prefix)
    requires i < |p.bits|
    ensures r == MakePrefix(Flipped(p.bits, i))
  {
    r := NewBlankPrefix();
    for j := 0 to |p.bits|
      invariant r == MakePrefix(Flipped(p.bits, i)[..j])
    {
      var isZero := !p.bits[j];
      if j == i {
        isZero := !isZero;
      }
      assert Flipped(p.bits, i)[..j + 1] == Flipped(p.bits, i)[..j] + [!isZero];
      if isZero {
        r := ExtendLeft(r);
      } else {
        r := ExtendRight(r);
      }
    }
    assert Flipped(p.bits, i)[..|p.bits|] == Flipped(p.bits, i);
  }

  /** `relocateVault`'s hop count: the bytes that differ in the common-length head of the old and the new key. */
  method HopCount(old_: Key, new_: Key) returns (h: nat)
    ensures h == DifferingBytes(old_, new_, Min(|old_|, |new_|))
  {
    var prefixLength := |new_|;
    if |old_| < prefixLength {
      prefixLength := |old_|;
    }
    h := 0;
    for i := 0 to prefixLength
      invariant h == DifferingBytes(old_, new_, i)
    {
      if new_[i] != old_[i] {
        h := h + 1;
      }
    }
  }

  /** The counters a network keeps: merges, splits, joins, departures, relocations, and the hop count of each relocation. */
  datatype Counts = Counts(merges: nat, splits: nat, joins: nat, departures: nat, relocations: nat, hops: seq<nat>)

  /** No counter went down and the hop record only grew at its end. */
  predicate Grew(a: Counts, b: Counts)
  {
    a.merges <= b.merges && a.splits <= b.splits && a.joins <= b.joins
    && a.departures <= b.departures && a.relocations <= b.relocations && a.hops <= b.hops
  }

  /** Growth carries over two steps. */
  lemma GrewAlong(a: Counts, b: Counts, c: Counts)
    requires Grew(a, b) && Grew(b, c)
    ensures Grew(a, c)
  {
    assert a.hops <= b.hops <= c.hops;
  }

  /** One more section counted: the outer loop of `ReportAges` keeps its invariant. */
  lemma ReportStep(m: Table, rest: set<Key>, k: Key, seen: set<Vault>, ages: map<int, nat>, ages': map<int, nat>)
    requires rest <= m.Keys && k in rest
    requires seen == MembersUnder(m, m.Keys - rest) && ages.Keys == AgesOf(seen)
    requires CountTotal(ages, ages.Keys) + SizeSum(m, rest) == SizeSum(m, m.Keys)
    requires ages'.Keys == ages.Keys + Elements(AgesAlong(m[k].vaults))
    requires CountTotal(ages', ages'.Keys) == CountTotal(ages, ages.Keys) + |m[k].vaults|
    ensures seen + Elements(m[k].vaults) == MembersUnder(m, m.Keys - (rest - {k}))
    ensures ages'.Keys == AgesOf(seen + Elements(m[k].vaults))
    ensures CountTotal(ages', ages'.Keys) + SizeSum(m, rest - {k}) == SizeSum(m, m.Keys)
  {
    var vs := m[k].vaults;
    SizeSumPick(m, rest, k);
    MembersUnderAdd(m, k, m.Keys - rest);
    assert m.Keys - (rest - {k}) == {k} + (m.Keys - rest);
    AgesAlongOf(vs);
    assert AgesOf(seen + Elements(vs)) == AgesOf(seen) + AgesOf(Elements(vs));
  }

  /** The members of ws aged a. */
  ghost function AgedAt(ws: set<Vault>, a: int): set<Vault>
    reads ws
  {
    set w | w in ws && w.age == a
  }

  /** Adding a vault to a set adds it to those of its age and to no other. */
  lemma AgedAtAdd(ws: set<Vault>, v: Vault, a: int)
    ensures AgedAt(ws + {v}, a) == AgedAt(ws, a) + if v.age == a then {v} else {}
  {
  }

  /** Filing one more section's key adds that section's vaults, none of which the others list. */
  lemma MembersUnderAppend(m: Table, ks: seq<Key>, k: Key)
    requires Keyed(m) && Populated(m) && k in m && k !in ks && forall j :: j in ks ==> j in m
    ensures MembersUnder(m, Elements(ks + [k])) == MembersUnder(m, Elements(ks)) + Elements(m[k].vaults)
    ensures MembersUnder(m, Elements(ks)) !! Elements(m[k].vaults)
  {
    ElementsAppend(ks, k);
    MembersUnderAdd(m, k, Elements(ks));
    assert Elements(ks + [k]) == {k} + Elements(ks);
    forall w | w in Elements(m[k].vaults) ensures w !in MembersUnder(m, Elements(ks)) {
      MemberHome(m, k, w);
    }
  }

  /** The vaults of two disjoint sets aged a are those of either. */
  lemma AgedAtDisjoint(x: set<Vault>, y: set<Vault>, a: int)
    requires x !! y
    ensures |AgedAt(x + y, a)| == |AgedAt(x, a)| + |AgedAt(y, a)|
  {
    assert AgedAt(x + y, a) == AgedAt(x, a) + AgedAt(y, a);
    assert AgedAt(x, a) !! AgedAt(y, a);
  }

  /** Along a list without repeats, the number of entries of age a is the number of its vaults aged a. */
  lemma {:induction false} AgedAtAlong(vs: seq<Vault>, a: int)
    requires NoDup(vs)
    ensures multiset(AgesAlong(vs))[a] == |AgedAt(Elements(vs), a)|
  {
    if vs != [] {
      var n := |vs| - 1;
      var v := vs[n];
      assert vs == vs[..n] + [v];
      ElementsAppend(vs[..n], v);
      AgedAtAlong(vs[..n], a);
      AgedAtAdd(Elements(vs[..n]), v, a);
      assert multiset(AgesAlong(vs)) == multiset(AgesAlong(vs[..n])) + multiset{v.age};
    }
  }

  /** The ages along the sections filed under ks, section after section. */
  ghost function AgesUnder(m: Table, ks: seq<Key>): seq<int>
    requires forall k :: k in ks ==> k in m
    reads m.Values`vaults, MembersOf(m)`age
  {
    if ks == [] then []
    else
      var n := |ks| - 1;
      assert m[ks[n]] in m.Values;
      MembersListed(m, m[ks[n]]);
      AgesUnder(m, ks[..n]) + AgesAlong(m[ks[n]].vaults)
  }

  /**
   * One more section counted: its key joins those visited, and the ages
   * counted so far are those along the visited sections.
   */
  lemma VisitStep(m: Table, rest: set<Key>, k: Key, visited: seq<Key>, ages: map<int, nat>, ages': map<int, nat>)
    requires rest <= m.Keys && k in rest
    requires Elements(visited) == m.Keys - rest && NoDup(visited) && forall j :: j in visited ==> j in m
    requires PerAge(ages, map[], AgesUnder(m, visited))
    requires PerAge(ages', ages, AgesAlong(m[k].vaults))
    ensures Elements(visited + [k]) == m.Keys - (rest - {k}) && NoDup(visited + [k]) && forall j :: j in visited + [k] ==> j in m
    ensures PerAge(ages', map[], AgesUnder(m, visited + [k]))
  {
    PerAgeJoin(map[], ages, ages', AgesUnder(m, visited), AgesAlong(m[k].vaults));
    ElementsAppend(visited, k);
    NoDupAppend(visited, k);
    assert (visited + [k])[..|visited|] == visited;
  }

  /**
   * While no section's list and no member's age changes, neither does
   * anything the count of `ReportAges` is measured against.
   */
  twostate lemma ReportKept(new m: Table, new rest: set<Key>, new seen: set<Vault>, new visited: seq<Key>)
    requires old(allocated(m)) && old(allocated(rest)) && old(allocated(seen)) && old(allocated(visited))
    requires rest <= m.Keys && forall k :: k in visited ==> k in m
    requires unchanged(m.Values) && unchanged(old(MembersOf(m))) && unchanged(seen)
    ensures MembersUnder(m, m.Keys - rest) == old(MembersUnder(m, m.Keys - rest))
    ensures AgesOf(seen) == old(AgesOf(seen))
    ensures SizeSum(m, rest) == old(SizeSum(m, rest)) && SizeSum(m, m.Keys) == old(SizeSum(m, m.Keys))
    ensures AgesUnder(m, visited) == old(AgesUnder(m, visited))
  {
  }

  /**
   * On a shaped, populated table, the ages along distinct sections list
   * each age as often as the members of those sections have it: no vault
   * is listed twice.
   */
  lemma {:induction false} AgesUnderCount(m: Table, ks: seq<Key>, a: int)
    requires Shaped(m) && Populated(m) && NoDup(ks) && forall k :: k in ks ==> k in m
    ensures multiset(AgesUnder(m, ks))[a] == |AgedAt(MembersUnder(m, Elements(ks)), a)|
  {
    if ks == [] {
      assert MembersUnder(m, {}) == {};
      assert AgedAt({}, a) == {};
    } else {
      var n := |ks| - 1;
      assert ks == ks[..n] + [ks[n]];
      AgesUnderCount(m, ks[..n], a);
      AgesUnderStep(m, ks[..n], ks[n], a);
    }
  }

  /** The step of `AgesUnderCount`: counting the ages of one more section adds its members of age a. */
  lemma AgesUnderStep(m: Table, ps: seq<Key>, k: Key, a: int)
    requires Shaped(m) && Populated(m) && NoDup(ps + [k]) && k in m && forall j :: j in ps ==> j in m
    requires multiset(AgesUnder(m, ps))[a] == |AgedAt(MembersUnder(m, Elements(ps)), a)|
    ensures multiset(AgesUnder(m, ps + [k]))[a] == |AgedAt(MembersUnder(m, Elements(ps + [k])), a)|
  {
    ElementsAppend(ps, k);
    MembersUnderAppend(m, ps, k);
    assert m[k] in m.Values;
    AgedAtAlong(m[k].vaults, a);
    AgedAtDisjoint(MembersUnder(m, Elements(ps)), Elements(m[k].vaults), a);
    assert multiset(AgesUnder(m, ps + [k])) == multiset(AgesUnder(m, ps)) + multiset(AgesAlong(m[k].vaults));
  }

  /** A histogram that counted the ages along every section of a shaped, populated table holds at each age the number of members of that age. */
  lemma AgesReported(m: Table, ks: seq<Key>, ages: map<int, nat>)
    requires Shaped(m) && Populated(m) && NoDup(ks) && Elements(ks) == m.Keys
    requires PerAge(ages, map[], AgesUnder(m, ks))
    ensures forall a :: a in ages ==> ages[a] == |AgedAt(MembersOf(m), a)|
  {
    MembersUnderAll(m);
    forall a | a in ages ensures ages[a] == |AgedAt(MembersOf(m), a)| {
      AgesUnderCount(m, ks, a);
      assert CountAt(ages, a) == ages[a];
    }
  }

  /** The inner loop of `ReportAges`: count each vault of vs at its age, filing ages not seen before. */
  method CountAges(ages: map<int, nat>, ageKeys: seq<int>, vs: seq<Vault>) returns (ages': map<int, nat>, ageKeys': seq<int>)
    requires ages.Keys == Elements(ageKeys) && NoDup(ageKeys)
    requires forall a :: a in ages ==> ages[a] > 0
    ensures ages'.Keys == Elements(ageKeys') && NoDup(ageKeys')
    ensures forall a :: a in ages' ==> ages'[a] > 0
    ensures ages'.Keys == ages.Keys + Elements(AgesAlong(vs))
    ensures CountTotal(ages', ages'.Keys) == CountTotal(ages, ages.Keys) + |vs|
    ensures PerAge(ages', ages, AgesAlong(vs))
  {
    ages', ageKeys' := ages, ageKeys;
    ghost var counted: seq<int> := [];
    for i := 0 to |vs|
      invariant counted == AgesAlong(vs[..i])
      invariant Tallies(ages', ageKeys', ages, counted)
      invariant PerAge(ages', ages, counted)
    {
      var v := vs[i];
      CountStep(ages', ageKeys', ages, counted, v.age);
      PerAgeStep(ages', ages, counted, v.age);
      if v.age !in ages' {
        ageKeys' := ageKeys' + [v.age];
      }
      ages' := Counted(ages', v.age);
      assert vs[..i + 1][..i] == vs[..i];
      counted := counted + [v.age];
    }
    assert vs[..|vs|] == vs;
  }

  class Network {
    var sections: Table
    var totalMerges: nat
    var totalSplits: nat
    var totalJoins: nat
    var totalDepartures: nat
    var totalRelocations: nat
    var neighbourhoodHops: seq<nat>

    /** The table is shaped and every section is sound. */
    ghost predicate Valid()
      reads this`sections, sections.Values`vaults, MembersOf(sections)`prefix, MembersOf(sections)`name
    {
      Shaped(sections) && Populated(sections)
    }

    /** `NewNetwork`: no sections and every counter at zero. */
    constructor ()
      ensures Valid() && sections == map[]
      ensures totalMerges == 0 && totalSplits == 0 && totalJoins == 0
      ensures totalDepartures == 0 && totalRelocations == 0 && neighbourhoodHops == []
    {
      sections := map[];
      totalMerges := 0;
      totalSplits := 0;
      totalJoins := 0;
      totalDepartures := 0;
      totalRelocations := 0;
      neighbourhoodHops := [];
    }

    /** `TotalVaults`: the sizes of the sections summed, which on a valid network is the number of members. */
    method TotalVaults() returns (n: nat)
      ensures n == SizeSum(sections, sections.Keys)
      ensures Valid() ==> n == |MembersOf(sections)|
    {
      n := 0;
      var rest := sections.Keys;
      while rest != {}
        invariant rest <= sections.Keys
        invariant n + SizeSum(sections, rest) == SizeSum(sections, sections.Keys)
        decreases rest
      {
        var k :| k in rest;
        SizeSumPick(sections, rest, k);
        n := n + |sections[k].vaults|;
        rest := rest - {k};
      }
      if Valid() {
        SizeSumCountsMembers(sections, sections.Keys);
        MembersUnderAll(sections);
      }
    }

    /**
     * `ReportAges`: how many members have each age, and the ages present in
     * ascending order, each once. The counts add up to the sum of the
     * section sizes, and on a valid network each is the number of members
     * of its age.
     */
    method ReportAges() returns (ages: map<int, nat>, keys: seq<int>)
      ensures ages.Keys == AgesOf(MembersOf(sections))
      ensures forall a :: a in ages ==> ages[a] > 0
      ensures CountTotal(ages, ages.Keys) == SizeSum(sections, sections.Keys)
      ensures Increasing(keys) && Elements(keys) == ages.Keys
      ensures Valid() ==> forall a :: a in ages ==> ages[a] == |AgedAt(MembersOf(sections), a)|
    {
      var ageKeys;
      ghost var visited;
      ages, ageKeys, visited := TallyAges();
      if Valid() {
        AgesReported(sections, visited, ages);
      }
      keys := SortAges(ageKeys);
      SameMultisetDistinct(keys, ageKeys);
      AscendingDistinct(keys);
    }

    /**
     * The counting loops of `ReportAges`: every vault of every section is
     * counted at its age, and each age is listed once, when first met.
     */
    method TallyAges() returns (ages: map<int, nat>, ageKeys: seq<int>, ghost visited: seq<Key>)
      ensures ages.Keys == Elements(ageKeys) == AgesOf(MembersOf(sections)) && NoDup(ageKeys)
      ensures forall a :: a in ages ==> ages[a] > 0
      ensures CountTotal(ages, ages.Keys) == SizeSum(sections, sections.Keys)
      ensures (forall k :: k in visited ==> k in sections) && Elements(visited) == sections.Keys && NoDup(visited)
      ensures PerAge(ages, map[], AgesUnder(sections, visited))
    {
      ages := map[];
      ageKeys := [];
      var rest := sections.Keys;
      ghost var seen: set<Vault> := {};
      visited := [];
      while rest != {}
        invariant rest <= sections.Keys
        invariant seen == MembersUnder(sections, sections.Keys - rest)
        invariant ages.Keys == Elements(ageKeys) == AgesOf(seen) && NoDup(ageKeys)
        invariant forall a :: a in ages ==> ages[a] > 0
        invariant CountTotal(ages, ages.Keys) + SizeSum(sections, rest) == SizeSum(sections, sections.Keys)
        invariant Elements(visited) == sections.Keys - rest && NoDup(visited) && forall j :: j in visited ==> j in sections
        invariant PerAge(ages, map[], AgesUnder(sections, visited))
        decreases rest
      {
        var k :| k in rest;
        var vs := sections[k].vaults;
        ghost var before := ages;
        label Counting:
        ages, ageKeys := CountAges(ages, ageKeys, vs);
        ReportKept@Counting(sections, rest, seen, visited);
        ReportStep(sections, rest, k, seen, before, ages);
        VisitStep(sections, rest, k, visited, before, ages);
        seen := seen + Elements(vs);
        rest := rest - {k};
        visited := visited + [k];
      }
      assert sections.Keys - rest == sections.Keys;
      MembersUnderAll(sections);
    }

    /**
     * `GetRandomSection`: draw a name and look up the section it routes to;
     * that section's prefix spells the first draws. On a valid network with
     * a section there always is one.
     */
    method GetRandomSection(rng: Prng) returns (s: Option<Section>)
      modifies rng
      ensures s.Some? ==> s.value in sections.Values
      ensures s.Some? && Keyed(sections) ==> forall i :: 0 <= i < |s.value.prefix.bits| ==>
        s.value.prefix.bits[i] == (rng.stream(old(rng.cursor) + i) % 2 == 1)
      ensures Valid() && sections != map[] ==> s.Some?
    {
      var x := NewXorName(rng);
      var p := GetPrefixForXorname(x);
      if p.key !in sections {
        return None;
      }
      s := Some(sections[p.key]);
      if Keyed(sections) {
        KeyOfInjective(sections[p.key].prefix.bits, p.bits);
      }
    }

    /** `GetRandomVault`: a member drawn from a drawn section (none where the source would dereference nil or the section is empty). */
    method GetRandomVault(rng: Prng) returns (r: Option<Vault>)
      modifies rng
      ensures r.Some? ==> r.value in MembersOf(sections)
    {
      var s := GetRandomSection(rng);
      if s.None? {
        return None;
      }
      r := s.value.GetRandomVault(rng);
      MembersListed(sections, s.value);
    }

    /** `HasMoreThanOneVault`: stops counting as soon as two are seen. */
    method HasMoreThanOneVault() returns (b: bool)
      ensures b <==> SizeSum(sections, sections.Keys) > 1
    {
      var n := 0;
      var rest := sections.Keys;
      while rest != {}
        invariant rest <= sections.Keys && n <= 1
        invariant n + SizeSum(sections, rest) == SizeSum(sections, sections.Keys)
        decreases rest
      {
        var k :| k in rest;
        SizeSumPick(sections, rest, k);
        n := n + |sections[k].vaults|;
        rest := rest - {k};
        if n > 1 {
          return true;
        }
      }
      return false;
    }

    /** `TotalSections`. */
    method TotalSections() returns (n: nat)
      ensures n == |sections|
    {
      n := 0;
      var rest := sections.Keys;
      while rest != {}
        invariant rest <= sections.Keys && n + |rest| == |sections.Keys|
        decreases rest
      {
        var k :| k in rest;
        n := n + 1;
        rest := rest - {k};
      }
    }

    /** `HasMoreThanOneSection`: stops counting at two. */
    method HasMoreThanOneSection() returns (b: bool)
      ensures b <==> |sections| > 1
    {
      var n := 0;
      var rest := sections.Keys;
      while rest != {}
        invariant rest <= sections.Keys && n + |rest| == |sections.Keys| && n <= 1
        decreases rest
      {
        var k :| k in rest;
        n := n + 1;
        rest := rest - {k};
        if n > 1 {
          return true;
        }
      }
      return false;
    }

    /** `HasOneSection`: stops counting at two. */
    method HasOneSection() returns (b: bool)
      ensures b <==> |sections| == 1
    {
      var n := 0;
      var rest := sections.Keys;
      while rest != {}
        invariant rest <= sections.Keys && n + |rest| == |sections.Keys| && n <= 1
        decreases rest
      {
        var k :| k in rest;
        n := n + 1;
        rest := rest - {k};
        if n > 1 {
          return false;
        }
      }
      return n == 1;
    }

    /**
     * `getPrefixForXorname`: the shortest resident prefix of x. When none is
     * resident it falls back to the blank prefix if the network holds more
     * than one vault (with a warning), else to the prefix of all of x.
     */
    method GetPrefixForXorname(x: XorName) returns (p: Prefix)
      ensures p.WellFormed() && IsPrefixOf(p.bits, x.bits)
      ensures p.key in sections ==> forall n :: 0 <= n < |p.bits| ==> KeyOf(x.bits[..n]) !in sections
      ensures p.key !in sections ==> forall n :: 0 <= n <= |x.bits| ==> KeyOf(x.bits[..n]) !in sections
      ensures p.key !in sections ==> p.bits == if SizeSum(sections, sections.Keys) > 1 then [] else x.bits
      ensures Valid() && sections != map[] && |x.bits| == NameBits ==>
        p.key in sections && p.key == Route(sections, x.bits)
    {
      p := NewBlankPrefix();
      var found := p.key in sections;
      while !found && |p.bits| < |x.bits|
        invariant p.WellFormed() && IsPrefixOf(p.bits, x.bits)
        invariant found <==> p.key in sections
        invariant forall n :: 0 <= n < |p.bits| ==> KeyOf(x.bits[..n]) !in sections
        decreases |x.bits| - |p.bits|
      {
        ghost var before := p;
        if !x.bits[|p.bits|] {
          p := ExtendLeft(p);
        } else {
          p := ExtendRight(p);
        }
        assert p.bits == x.bits[..|p.bits|];
        assert before.bits == x.bits[..|before.bits|];
        found := p.key in sections;
      }
      assert p.bits == x.bits[..|p.bits|];
      if !found {
        assert x.bits[..|x.bits|] == p.bits;
        assert forall n :: 0 <= n <= |x.bits| ==> KeyOf(x.bits[..n]) !in sections;
        var many := HasMoreThanOneVault();
        if many {
          p := NewBlankPrefix();
          assert p.key == KeyOf(x.bits[..0]);
        }
      }
      if Valid() && sections != map[] && |x.bits| == NameBits {
        ShortestResident(sections, x.bits, p);
      }
    }

    /**
     * `getMatchingPrefixes`: the resident prefixes among the leading bits of
     * p, shortest first; when there are none, the resident prefixes below p.
     */
    method GetMatchingPrefixes(p: Prefix) returns (r: seq<Prefix>)
      requires Keyed(sections)
      ensures r == MatchingPrefixes(sections, p)
    {
      var test := NewBlankPrefix();
      r := if test.key in sections then [test] else [];
      assert p.bits[..0] == [];
      var i := 0;
      while i < |p.bits|
        invariant 0 <= i <= |p.bits|
        invariant test == MakePrefix(p.bits[..i])
        invariant r == ResidentAncestors(sections, p.bits, i)
      {
        if !p.bits[i] {
          test := ExtendLeft(test);
        } else {
          test := ExtendRight(test);
        }
        assert p.bits[..i + 1] == p.bits[..i] + [p.bits[i]];
        assert test == MakePrefix(p.bits[..i + 1]);
        if test.key in sections {
          r := r + [test];
        }
        assert r == ResidentAncestors(sections, p.bits, i + 1);
        i := i + 1;
      }
      if r == [] {
        r := ChildPrefixes(sections, p);
      }
    }

    /**
     * The table update after a split: count it, file the new sections, then
     * delete the key of the section that split.
     */
    method ApplySplit(k: Key, secs: seq<Section>, ghost grown: seq<Vault>, ghost rest: set<Vault>)
      requires Shaped(sections) && k in sections
      requires forall j :: j in sections && j != k ==> SectionSound(sections[j])
      requires Formed(secs, sections[k].prefix.bits, grown) && PrefixesIdentify(secs)
      requires forall t :: t in secs ==> |t.prefix.bits| > |sections[k].prefix.bits|
      requires AllMatch(grown, sections[k].prefix.bits) && forall w :: w in grown ==> |w.name.bits| == NameBits
      requires rest == MembersOf(sections - {k})
      modifies this`sections, this`totalSplits
      ensures Valid() && sections != map[]
      ensures MembersOf(sections) == rest + Elements(grown)
      ensures totalSplits == old(totalSplits) + 1
      ensures sections == Filed(old(sections), secs) - {k} && k !in sections
      ensures forall j :: j in old(sections) && j != k ==> j in sections && sections[j] == old(sections)[j]
      ensures forall t :: t in sections.Values ==> t in old(sections.Values) || t in secs
      ensures forall w: Vault :: old(allocated(w)) ==> w.age == old(w.age)
    {
      SplitTable(sections, k, secs, grown);
      FiledValuesWithout(sections, secs, k);
      AdoptSplit(Filed(sections, secs) - {k});
    }

    /** The table after a split takes the place of the old one, and the split is counted. */
    method AdoptSplit(split: Table)
      requires Shaped(split) && Populated(split) && split != map[]
      modifies this`sections, this`totalSplits
      ensures sections == split && Valid()
      ensures MembersOf(sections) == old(MembersOf(split))
      ensures totalSplits == old(totalSplits) + 1
      ensures forall w: Vault :: old(allocated(w)) ==> w.age == old(w.age)
    {
      totalSplits := totalSplits + 1;
      sections := split;
    }

    /**
     * The merge of `RemoveVault`: the section at p and its sibling, or else
     * every resident prefix below the sibling, give way to one section at
     * the parent formed from their vaults.
     */
    method Merge(p: Prefix, order: EldershipOrder, rng: Prng) returns (secs: seq<Section>)
      requires Valid() && ValidOrder(order) && |sections| > 1
      requires p.key in sections && sections[p.key].prefix == p
      modifies this`sections, this`totalMerges, rng, MembersOf(sections)`age, MembersOf(sections)`prefix
      ensures |p.bits| > 0 && sections == Filed(old(sections) - KeysBelow(old(sections), Parent(p).bits), secs)
      ensures forall t :: t in secs ==> fresh(t)
      ensures Valid() && sections != map[]
      ensures MembersOf(sections) == old(MembersOf(sections))
      ensures totalMerges == old(totalMerges) + 1
      ensures forall t :: t in sections.Values ==> t in old(sections.Values) || fresh(t)
      ensures forall w: Vault :: old(allocated(w)) ==> old(w.age) <= w.age
    {
      var merged;
      merged, secs := MergeTable(sections, p, order, rng);
      label Merged:
      AdoptMerged(merged);
      forall w: Vault | old(allocated(w)) ensures old(w.age) <= w.age {
        assert old@Merged(w.age) == w.age;
      }
    }

    /** The table after a merge takes the place of the old one, and the merge is counted. */
    method AdoptMerged(merged: Table)
      requires Shaped(merged) && Populated(merged) && merged != map[]
      modifies this`sections, this`totalMerges
      ensures sections == merged && Valid()
      ensures MembersOf(sections) == old(MembersOf(merged))
      ensures totalMerges == old(totalMerges) + 1
      ensures forall w: Vault :: old(allocated(w)) ==> w.age == old(w.age)
    {
      totalMerges := totalMerges + 1;
      sections := merged;
    }

    /** The rank `relocateVault` orders a candidate neighbour by: its prefix length, then its section's size. */
    ghost function Rank(q: Prefix): (int, int)
      requires q.key in sections
      reads this, sections.Values
    {
      (|q.bits|, |sections[q.key].vaults|)
    }

    /** The ranks of the candidates, in order. */
    ghost function Ranks(cands: seq<Prefix>): (r: seq<(int, int)>)
      requires forall q :: q in cands ==> q.key in sections
      reads this, sections.Values
      ensures |r| == |cands| && forall j :: 0 <= j < |cands| ==> r[j] == Rank(cands[j])
    {
      if cands == [] then [] else Ranks(cands[..|cands| - 1]) + [Rank(cands[|cands| - 1])]
    }

    /**
     * The running minima of `relocateVault` and its current pick: a section
     * of the table, with the length bound either still at the starting
     * sentinel or the length of the pick's prefix.
     */
    ghost predicate Tracks(minLen: int, minCount: int, best: Section)
      reads this, sections.Values
    {
      && best in sections.Values && 0 <= minLen <= MaxUint32 && 0 <= minCount
      && (minLen == MaxUint32 || minLen == |best.prefix.bits|)
    }

    /**
     * One pass of `relocateVault` over the neighbour prefixes found: a
     * candidate with a shorter prefix becomes the pick and its length is
     * recorded; a candidate as short and with fewer vaults than the count on
     * record becomes the pick and its count is recorded. The minima and the
     * pick are those of `ScanAsWritten` from the standing passed in.
     */
    method ScanNeighbours(cands: seq<Prefix>, np: Prefix, minLen: int, minCount: int, best: Section)
      returns (np': Prefix, minLen': int, minCount': int, best': Section)
      requires Keyed(sections) && Tracks(minLen, minCount, best)
      requires forall q :: q in cands ==> q.key in sections && sections[q.key].prefix == q && |q.bits| <= NameBits
      ensures var p := ScanAsWritten(Standing(minLen, minCount), Ranks(cands));
        && Standing(minLen', minCount') == p.st
        && (p.index < 0 ==> np' == np && best' == best)
        && (p.index >= 0 ==> np' == cands[p.index] && best' == sections[cands[p.index].key])
      ensures Tracks(minLen', minCount', best')
      ensures forall q :: q in cands ==> minLen' <= |q.bits|
      ensures minLen' <= minLen && minCount' <= minCount
      ensures np' == np || Better((minLen', minCount'), (minLen, minCount))
      ensures (np' == np && best' == best && minLen' == minLen) || (np' in cands && best' == sections[np'.key])
    {
      ghost var st := Standing(minLen, minCount);
      ghost var rs: seq<(int, int)> := [];
      np', minLen', minCount', best' := np, minLen, minCount, best;
      for i := 0 to |cands|
        invariant |rs| == i && forall j :: 0 <= j < i ==> rs[j] == Rank(cands[j])
        invariant 0 <= minCount'
        invariant var p := ScanAsWritten(st, rs);
          && Standing(minLen', minCount') == p.st
          && (p.index < 0 ==> np' == np && best' == best)
          && (p.index >= 0 ==> np' == cands[p.index] && best' == sections[cands[p.index].key])
      {
        var q := cands[i];
        var s := sections[q.key];
        ScanAsWrittenStep(st, rs, Rank(q));
        rs := rs + [Rank(q)];
        if |q.bits| < minLen' {
          np', minLen', best' := q, |q.bits|, s;
        } else if |q.bits| == minLen' {
          if |s.vaults| < minCount' {
            np', minCount', best' := q, |s.vaults|, s;
          }
        }
      }
      assert rs == Ranks(cands);
      ScanAsWrittenShortest(st, rs);
      var p := ScanAsWritten(st, rs);
      if p.index >= 0 {
        assert cands[p.index] in cands;
        assert sections[cands[p.index].key] in sections.Values;
      }
      forall q | q in cands ensures minLen' <= |q.bits| {
        var j :| 0 <= j < |cands| && cands[j] == q;
        assert rs[j] == Rank(q);
      }
    }

    /**
     * Where the neighbour search of `relocateVault` stands: the running
     * minima track a pick that is w's own section until a candidate is
     * taken and a neighbour after, and no candidate seen so far is shorter
     * than the length bound.
     */
    ghost predicate Searching(w: Vault, minLen: int, minCount: int, best: Section, seen: set<Prefix>)
      requires Keyed(sections) && w.prefix.key in sections
      reads this, sections.Values, w
    {
      && Tracks(minLen, minCount, best)
      && (minLen == MaxUint32 ==> best == sections[w.prefix.key])
      && (minLen != MaxUint32 ==> IsNeighbour(sections, w.prefix.bits, best))
      && forall q :: q in seen ==> q.key in sections && |q.bits| <= NameBits && minLen <= |q.bits|
    }

    /** A scan over prefixes matching the prefix flipped at bit i keeps the search standing, with the scanned prefixes seen. */
    lemma ScanStep(w: Vault, i: nat, cands: seq<Prefix>, minLen: int, minCount: int, best: Section, seen: set<Prefix>,
                   np: Prefix, np': Prefix, minLen': int, minCount': int, best': Section)
      requires Keyed(sections) && w.prefix.key in sections && i < |w.prefix.bits|
      requires Searching(w, minLen, minCount, best, seen)
      requires forall q :: q in cands ==>
        q in MatchingPrefixes(sections, MakePrefix(Flipped(w.prefix.bits, i))) && q.key in sections && |q.bits| <= NameBits
      requires Tracks(minLen', minCount', best') && minLen' <= minLen
      requires forall q :: q in cands ==> minLen' <= |q.bits|
      requires (np' == np && best' == best && minLen' == minLen) || (np' in cands && best' == sections[np'.key])
      ensures Searching(w, minLen', minCount', best', seen + set q | q in cands)
    {
      if !(np' == np && best' == best && minLen' == minLen) {
        assert minLen' <= |np'.bits| <= NameBits;
        assert np' in MatchingPrefixes(sections, MakePrefix(Flipped(w.prefix.bits, i)));
      }
    }

    /** One pass of the search at bit i over prefixes matching the flipped prefix: the search stands, and the pass's prefixes are seen. */
    method ScanFlip(w: Vault, i: nat, cands: seq<Prefix>, np: Prefix, minLen: int, minCount: int, best: Section, ghost seen: set<Prefix>)
      returns (np': Prefix, minLen': int, minCount': int, best': Section, ghost seen': set<Prefix>)
      requires Keyed(sections) && w.prefix.key in sections && i < |w.prefix.bits|
      requires Searching(w, minLen, minCount, best, seen)
      requires forall q :: q in cands ==> q in MatchingPrefixes(sections, MakePrefix(Flipped(w.prefix.bits, i)))
      ensures Searching(w, minLen', minCount', best', seen') && seen' == seen + set q | q in cands
      ensures np' == np || np' in cands
      ensures minLen' <= minLen && minCount' <= minCount
      ensures np' == np || Better((minLen', minCount'), (minLen, minCount))
    {
      MatchingResident(sections, MakePrefix(Flipped(w.prefix.bits, i)));
      np', minLen', minCount', best' := ScanNeighbours(cands, np, minLen, minCount, best);
      ScanStep(w, i, cands, minLen, minCount, best, seen, np, np', minLen', minCount', best');
      seen' := seen + set q | q in cands;
    }

    /**
     * The search at bit i: flip it, scan the prefixes matching the flipped
     * prefix, and ask again at the pick until the pick settles. Every prefix
     * matching the flipped prefix is seen, and each pick is one of them.
     */
    method FollowFlip(w: Vault, i: nat, minLen: int, minCount: int, best: Section, ghost seen: set<Prefix>)
      returns (minLen': int, minCount': int, best': Section, ghost seen': set<Prefix>)
      requires Keyed(sections) && w.prefix.key in sections && i < |w.prefix.bits|
      requires Searching(w, minLen, minCount, best, seen)
      ensures Searching(w, minLen', minCount', best', seen') && seen <= seen'
      ensures forall q :: q in MatchingPrefixes(sections, MakePrefix(Flipped(w.prefix.bits, i))) ==> q in seen'
    {
      var bits := w.prefix.bits;
      var np := FlippedPrefix(w.prefix, i);
      var prev := NewBlankPrefix();
      ghost var first := MatchingPrefixes(sections, np);
      ghost var scanned := false;
      minLen', minCount', best', seen' := minLen, minCount, best, seen;
      EqualsIffSameBits(np, prev);
      while !np.Equals(prev)
        invariant Searching(w, minLen', minCount', best', seen') && seen <= seen'
        invariant !scanned ==> np == MakePrefix(Flipped(bits, i)) && !np.Equals(prev)
        invariant np == MakePrefix(Flipped(bits, i)) || np in first
        invariant scanned ==> forall q :: q in first ==> q in seen'
        decreases minLen', minCount', if np.Equals(prev) then 0 else 1
      {
        prev := np;
        var cands := GetMatchingPrefixes(np);
        MatchingResident(sections, np);
        if np != MakePrefix(Flipped(bits, i)) {
          MatchingClosed(sections, MakePrefix(Flipped(bits, i)), np);
        }
        assert forall q :: q in cands ==> q in first;
        np, minLen', minCount', best', seen' := ScanFlip(w, i, cands, np, minLen', minCount', best', seen');
        scanned := true;
      }
    }

    /**
     * The neighbour search of `relocateVault`: for each bit of w's prefix,
     * flip it and follow the matching prefixes until the pick settles. The
     * pick is a neighbour whenever the prefix has a bit to flip (on a tiled
     * table; otherwise it may stay w's own section), and its prefix is no
     * longer than any prefix matching a flipped prefix; with a blank prefix
     * it stays w's own section.
     */
    method SmallestNeighbour(w: Vault) returns (best: Section)
      requires Keyed(sections) && w.prefix.key in sections
      ensures best in sections.Values
      ensures |w.prefix.bits| == 0 ==> best == sections[w.prefix.key]
      ensures best == sections[w.prefix.key] || IsNeighbour(sections, w.prefix.bits, best)
      ensures Shaped(sections) && |w.prefix.bits| > 0 ==>
        IsNeighbour(sections, w.prefix.bits, best) && best.prefix.bits != w.prefix.bits
      ensures forall i, q :: 0 <= i < |w.prefix.bits| && q in MatchingPrefixes(sections, MakePrefix(Flipped(w.prefix.bits, i))) ==>
        q.key in sections && |best.prefix.bits| <= |q.bits|
    {
      best := sections[w.prefix.key];
      var minLen, minCount := MaxUint32, MaxUint32;
      ghost var seen: set<Prefix> := {};
      var bits := w.prefix.bits;
      for i := 0 to |bits|
        invariant Searching(w, minLen, minCount, best, seen)
        invariant forall j, q :: 0 <= j < i && q in MatchingPrefixes(sections, MakePrefix(Flipped(bits, j))) ==> q in seen
      {
        minLen, minCount, best, seen := FollowFlip(w, i, minLen, minCount, best, seen);
      }
      if minLen == MaxUint32 {
        forall q | q in seen ensures false {
        }
      }
      if Shaped(sections) && |bits| > 0 {
        MatchingNonEmpty(sections, MakePrefix(Flipped(bits, 0)));
        var q := MatchingPrefixes(sections, MakePrefix(Flipped(bits, 0)))[0];
        assert q in seen;
        NeighbourElsewhere(sections, bits, best);
      }
    }

    /** The network's counters, as one value. */
    function Tally(): (c: Counts)
      reads this
      ensures c.hops == neighbourhoodHops && c.joins == totalJoins
    {
      Counts(totalMerges, totalSplits, totalJoins, totalDepartures, totalRelocations, neighbourhoodHops)
    }

    /**
     * `AddVault`: route the vault's name to its section (seeding a section
     * at the blank prefix when the table is empty), let that section take
     * it in, and relocate the vault it picks, if any. Relocations nest at
     * most fuel deep.
     */
    method AddVault(v: Vault, order: EldershipOrder, rng: Prng, fuel: nat) returns (disallowed: bool)
      requires Valid() && ValidOrder(order)
      requires |v.name.bits| == NameBits && v !in MembersOf(sections)
      modifies this, rng, sections.Values, MembersOf(sections), v
      decreases fuel, 2
      ensures Valid() && sections != map[]
      ensures MembersOf(sections) <= old(MembersOf(sections)) + {v}
      ensures Grew(old(Tally()), Tally()) && totalJoins > old(totalJoins)
      ensures disallowed ==> totalRelocations == old(totalRelocations) && totalSplits == old(totalSplits) && old(sections) != map[]
      ensures totalRelocations == old(totalRelocations) ==>
        && MembersOf(sections) == old(MembersOf(sections)) + (if disallowed then {} else {v})
        && Tally() == old(Tally()).(joins := old(totalJoins) + 1, splits := totalSplits) && totalSplits <= old(totalSplits) + 1
        && v.name == old(v.name)
        && (old(sections) != map[] ==>
              Settled(old(sections), sections, Route(old(sections), old(v.name.bits)), totalSplits != old(totalSplits)))
      ensures forall t :: t in sections.Values ==> t in old(sections.Values) || fresh(t)
      ensures forall w: Vault :: old(allocated(w)) ==> old(w.age) <= w.age
    {
      var ne, d := Join(v, order, rng);
      disallowed := d;
      ghost var counted := Tally();
      ghost var joined := MembersOf(sections);
      assert Grew(old(Tally()), counted) && joined <= old(MembersOf(sections)) + {v};
      if ne.Some? && ne.value.vaultToRelocate.Some? && fuel > 0 {
        Relocate(ne.value.vaultToRelocate.value, order, rng, fuel - 1);
        GrewAlong(old(Tally()), counted, Tally());
      }
    }

    /**
     * The first part of `AddVault`: count the join, route the name to its
     * section (seeding one on an empty table) and place the vault there.
     */
    method Join(v: Vault, order: EldershipOrder, rng: Prng) returns (ne: Option<Event>, disallowed: bool)
      requires Valid() && ValidOrder(order)
      requires |v.name.bits| == NameBits && v !in MembersOf(sections)
      modifies this`sections, this`totalSplits, this`totalJoins, rng, sections.Values`vaults
      modifies MembersOf(sections)`age, MembersOf(sections)`prefix, v`age, v`prefix
      ensures Valid() && sections != map[]
      ensures MembersOf(sections) == old(MembersOf(sections)) + if disallowed then {} else {v}
      ensures disallowed <==> ne.None?
      ensures disallowed ==> sections == old(sections)
      ensures old(sections) != map[] ==> Settled(old(sections), sections, Route(old(sections), old(v.name.bits)), totalSplits != old(totalSplits))
      ensures totalJoins == old(totalJoins) + 1 && totalSplits == old(totalSplits) + if NewSectionsOf(ne) == [] then 0 else 1
      ensures ne.Some? && ne.value.vaultToRelocate.Some? ==> ne.value.vaultToRelocate.value in MembersOf(sections)
      ensures forall t :: t in sections.Values ==> t in old(sections.Values) || fresh(t)
      ensures forall w: Vault :: old(allocated(w)) ==> old(w.age) <= w.age
      ensures v.name == old(v.name)
    {
      ne, disallowed := Enter(v, order, rng);
      label Entered:
      CountJoin();
      forall w: Vault | old(allocated(w)) ensures old(w.age) <= w.age {
        assert old@Entered(w.age) == w.age;
      }
    }

    /** The join count goes up by one; nothing else changes. */
    method CountJoin()
      requires Valid()
      modifies this`totalJoins
      ensures Valid() && sections == old(sections) && MembersOf(sections) == old(MembersOf(sections))
      ensures totalJoins == old(totalJoins) + 1
      ensures forall w: Vault :: old(allocated(w)) ==> w.age == old(w.age)
    {
      totalJoins := totalJoins + 1;
    }

    /**
     * `Join` past its count: route the name to its resident prefix and place
     * the vault in that section. Only on an empty table is no prefix
     * resident; then a section is seeded at the blank prefix first.
     */
    method Enter(v: Vault, order: EldershipOrder, rng: Prng) returns (ne: Option<Event>, disallowed: bool)
      requires Valid() && ValidOrder(order)
      requires |v.name.bits| == NameBits && v !in MembersOf(sections)
      modifies this`sections, this`totalSplits, rng, sections.Values`vaults
      modifies MembersOf(sections)`age, MembersOf(sections)`prefix, v`age, v`prefix
      ensures Valid() && sections != map[]
      ensures MembersOf(sections) == old(MembersOf(sections)) + if disallowed then {} else {v}
      ensures disallowed <==> ne.None?
      ensures disallowed ==> sections == old(sections)
      ensures old(sections) != map[] ==> Settled(old(sections), sections, Route(old(sections), v.name.bits), NewSectionsOf(ne) != [])
      ensures old(sections) == map[] ==> forall t :: t in sections.Values ==> fresh(t)
      ensures totalSplits == old(totalSplits) + if NewSectionsOf(ne) == [] then 0 else 1
      ensures forall t :: t in NewSectionsOf(ne) ==> fresh(t)
      ensures ne.Some? && ne.value.vaultToRelocate.Some? ==> ne.value.vaultToRelocate.value in MembersOf(sections)
      ensures forall t :: t in sections.Values ==> t in old(sections.Values) || fresh(t)
      ensures forall w: Vault :: old(allocated(w)) ==> old(w.age) <= w.age
    {
      var prefix := GetPrefixForXorname(v.name);
      ne, disallowed := EnterAt(prefix, v, order, rng);
    }

    /** `Enter` once the prefix of the name is looked up: the section filed under it, or a seeded one on an empty table, takes the vault. */
    method EnterAt(prefix: Prefix, v: Vault, order: EldershipOrder, rng: Prng) returns (ne: Option<Event>, disallowed: bool)
      requires Valid() && ValidOrder(order)
      requires |v.name.bits| == NameBits && v !in MembersOf(sections)
      requires sections != map[] ==> prefix.key in sections && prefix.key == Route(sections, v.name.bits)
      modifies this`sections, this`totalSplits, rng, sections.Values`vaults
      modifies MembersOf(sections)`age, MembersOf(sections)`prefix, v`age, v`prefix
      ensures Valid() && sections != map[]
      ensures MembersOf(sections) == old(MembersOf(sections)) + if disallowed then {} else {v}
      ensures disallowed <==> ne.None?
      ensures disallowed ==> sections == old(sections)
      ensures old(sections) != map[] ==> Settled(old(sections), sections, Route(old(sections), v.name.bits), NewSectionsOf(ne) != [])
      ensures old(sections) == map[] ==> forall t :: t in sections.Values ==> fresh(t)
      ensures totalSplits == old(totalSplits) + if NewSectionsOf(ne) == [] then 0 else 1
      ensures forall t :: t in NewSectionsOf(ne) ==> fresh(t)
      ensures ne.Some? && ne.value.vaultToRelocate.Some? ==> ne.value.vaultToRelocate.value in MembersOf(sections)
      ensures forall t :: t in sections.Values ==> t in old(sections.Values) || fresh(t)
      ensures forall w: Vault :: old(allocated(w)) ==> old(w.age) <= w.age
    {
      if prefix.key in sections {
        var section := sections[prefix.key];
        ne, disallowed := Place(section, v, order, rng);
      } else {
        assert MembersOf(sections) == {};
        ne, disallowed := Inaugurate(v, order, rng);
      }
    }

    /** `AddVault` on an empty table: seed a section at the blank prefix and place the vault there, which never refuses it. */
    method Inaugurate(v: Vault, order: EldershipOrder, rng: Prng) returns (ne: Option<Event>, disallowed: bool)
      requires sections == map[] && ValidOrder(order) && |v.name.bits| == NameBits
      modifies this`sections, this`totalSplits, rng, v`age, v`prefix
      ensures Valid() && sections != map[] && !disallowed && ne.Some?
      ensures MembersOf(sections) == {v}
      ensures forall t :: t in sections.Values ==> fresh(t)
      ensures totalSplits == old(totalSplits) + if NewSectionsOf(ne) == [] then 0 else 1
      ensures forall t :: t in NewSectionsOf(ne) ==> fresh(t)
      ensures ne.value.vaultToRelocate.Some? ==> ne.value.vaultToRelocate.value in MembersOf(sections)
      ensures forall w: Vault :: old(allocated(w)) ==> old(w.age) <= w.age
    {
      var section := Seed(order, rng);
      ne, disallowed := PlaceFirst(section, v, order, rng);
    }

    /** `Place` on a table holding only the empty section s: an empty section never refuses a vault. */
    method PlaceFirst(s: Section, v: Vault, order: EldershipOrder, rng: Prng) returns (ne: Option<Event>, disallowed: bool)
      requires Valid() && ValidOrder(order) && sections == map[s.prefix.key := s] && s.vaults == [] && MembersOf(sections) == {}
      requires IsPrefixOf(s.prefix.bits, v.name.bits) && |v.name.bits| == NameBits
      modifies this`sections, this`totalSplits, rng, s`vaults, v`age, v`prefix
      ensures Valid() && sections != map[] && !disallowed && ne.Some?
      ensures MembersOf(sections) == {v}
      ensures forall t :: t in sections.Values ==> t == s || fresh(t)
      ensures totalSplits == old(totalSplits) + if NewSectionsOf(ne) == [] then 0 else 1
      ensures forall t :: t in NewSectionsOf(ne) ==> fresh(t)
      ensures ne.value.vaultToRelocate.Some? ==> ne.value.vaultToRelocate.value in MembersOf(sections)
      ensures forall w: Vault :: old(allocated(w)) ==> old(w.age) <= w.age
    {
      ne, disallowed := Place(s, v, order, rng);
    }

    /** The seeding step of `AddVault` on an empty table: a section at the blank prefix, with no vaults. */
    method Seed(order: EldershipOrder, rng: Prng) returns (s: Section)
      requires sections == map[] && ValidOrder(order)
      modifies this`sections, rng
      ensures Valid() && sections == map[s.prefix.key := s] && fresh(s)
      ensures s.prefix == NewBlankPrefix() && s.vaults == [] && MembersOf(sections) == {} && sections.Values == {s}
    {
      var blank := NewBlankPrefix();
      var ne := NewSection(blank, [], order, rng);
      s := ne.newSections[0];
      assert s in ne.newSections;
      sections := map[s.prefix.key := s];
      TilingSingleton([]);
      assert s.prefix.key in sections;
      assert PrefixesOf(sections) == {[]} by {
        forall x | x in PrefixesOf(sections) ensures x == [] {
          var j :| j in sections && sections[j].prefix.bits == x;
        }
      }
    }

    /** Removing v from the section its prefix names leaves fewer than GroupSize vaults there while other sections exist: `RemoveVault` then merges. */
    ghost predicate MergeDue(v: Vault)
      reads this`sections, v`prefix, sections.Values`vaults
    {
      v.prefix.key in sections && |sections| > 1 && |RemoveFirst(sections[v.prefix.key].vaults, v)| < GroupSize
    }

    /**
     * `RemoveVault`: drop v from the section its prefix names; then merge
     * that section with its sibling's subtree if it fell below GroupSize and
     * there is more than one section, else relocate the vault it picks.
     * Without a section for v's prefix nothing but the departure count
     * changes.
     */
    method RemoveVault(v: Vault, order: EldershipOrder, rng: Prng, fuel: nat) returns (ghost merged: seq<Section>)
      requires Valid() && ValidOrder(order)
      modifies this, rng, sections.Values, MembersOf(sections)
      decreases fuel, 2
      ensures Valid() && (old(sections) != map[] ==> sections != map[])
      ensures MembersOf(sections) <= old(MembersOf(sections)) - {v}
      ensures old(v.prefix.key !in sections) ==> sections == old(sections)
      ensures Grew(old(Tally()), Tally()) && totalDepartures > old(totalDepartures)
      ensures old(MergeDue(v)) ==> totalRelocations == old(totalRelocations)
      ensures totalRelocations == old(totalRelocations) ==>
        && MembersOf(sections) == old(MembersOf(sections)) - {v}
        && Tally() == old(Tally()).(merges := old(totalMerges) + (if old(MergeDue(v)) then 1 else 0), departures := old(totalDepartures) + 1)
      ensures old(MergeDue(v)) ==> var p := old(sections[v.prefix.key].prefix);
        |p.bits| > 0 && sections == Filed(old(sections) - KeysBelow(old(sections), Parent(p).bits), merged)
      ensures forall t :: t in merged ==> fresh(t)
      ensures !old(MergeDue(v)) && totalRelocations == old(totalRelocations) ==> sections == old(sections)
      ensures forall t :: t in sections.Values ==> t in old(sections.Values) || fresh(t)
      ensures forall w: Vault :: old(allocated(w)) ==> old(w.age) <= w.age
    {
      merged := [];
      if v in MembersOf(sections) {
        HomeOf(sections, v);
      }
      CountDeparture();
      if v.prefix.key !in sections {
        // the source prints a warning
        return;
      }
      label Counted:
      ghost var counted := Tally();
      merged := Withdraw(v, order, rng, fuel);
      GrewAlong(old(Tally()), counted, Tally());
      forall w: Vault | old(allocated(w)) ensures old(w.age) <= w.age {
        assert old(w.age) == old@Counted(w.age);
      }
    }

    /** The departure count goes up by one; nothing else changes. */
    method CountDeparture()
      requires Valid()
      modifies this`totalDepartures
      ensures Valid() && sections == old(sections) && MembersOf(sections) == old(MembersOf(sections))
      ensures Tally() == old(Tally()).(departures := old(totalDepartures) + 1)
      ensures forall w: Vault :: old(allocated(w)) ==> w.age == old(w.age)
    {
      totalDepartures := totalDepartures + 1;
    }

    /** The rest of `RemoveVault` once v's section is found: v leaves it, then the table is rebalanced. */
    method Withdraw(v: Vault, order: EldershipOrder, rng: Prng, fuel: nat) returns (ghost merged: seq<Section>)
      requires Valid() && ValidOrder(order) && v.prefix.key in sections
      modifies this, rng, sections.Values, MembersOf(sections)
      decreases fuel, 1
      ensures Valid() && sections != map[]
      ensures MembersOf(sections) <= old(MembersOf(sections)) - {v}
      ensures Grew(old(Tally()), Tally())
      ensures old(MergeDue(v)) ==> totalRelocations == old(totalRelocations)
      ensures totalRelocations == old(totalRelocations) ==>
        && MembersOf(sections) == old(MembersOf(sections)) - {v}
        && Tally() == old(Tally()).(merges := old(totalMerges) + if old(MergeDue(v)) then 1 else 0)
      ensures old(MergeDue(v)) ==> var p := old(sections[v.prefix.key].prefix);
        |p.bits| > 0 && sections == Filed(old(sections) - KeysBelow(old(sections), Parent(p).bits), merged)
      ensures forall t :: t in merged ==> fresh(t)
      ensures !old(MergeDue(v)) && totalRelocations == old(totalRelocations) ==> sections == old(sections)
      ensures forall t :: t in sections.Values ==> t in old(sections.Values) || fresh(t)
      ensures forall w: Vault :: old(allocated(w)) ==> old(w.age) <= w.age
    {
      ghost var left := old(MembersOf(sections)) - {v};
      var section := sections[v.prefix.key];
      var merge, pick := Depart(section, v, order, rng);
      assert MembersOf(sections) == left;
      merged := Rebalance(section.prefix, merge, pick, order, rng, fuel);
    }

    /** The end of `RemoveVault`: merge at p when that is due, else relocate the picked vault. */
    method Rebalance(p: Prefix, merge: bool, pick: Option<Vault>, order: EldershipOrder, rng: Prng, fuel: nat) returns (ghost merged: seq<Section>)
      requires Valid() && ValidOrder(order) && p.key in sections && sections[p.key].prefix == p
      requires merge ==> |sections| > 1
      requires pick.Some? ==> pick.value in MembersOf(sections)
      modifies this, rng, sections.Values, MembersOf(sections)
      decreases fuel, 0
      ensures Valid() && sections != map[]
      ensures MembersOf(sections) <= old(MembersOf(sections))
      ensures Grew(old(Tally()), Tally())
      ensures merge ==> totalRelocations == old(totalRelocations)
      ensures totalRelocations == old(totalRelocations) ==>
        && MembersOf(sections) == old(MembersOf(sections))
        && Tally() == old(Tally()).(merges := old(totalMerges) + if merge then 1 else 0)
      ensures merge ==> |p.bits| > 0 && sections == Filed(old(sections) - KeysBelow(old(sections), Parent(p).bits), merged)
      ensures forall t :: t in merged ==> fresh(t)
      ensures !merge && totalRelocations == old(totalRelocations) ==> sections == old(sections)
      ensures forall t :: t in sections.Values ==> t in old(sections.Values) || fresh(t)
      ensures forall w: Vault :: old(allocated(w)) ==> old(w.age) <= w.age
    {
      merged := [];
      if merge {
        var secs := Merge(p, order, rng);
        merged := secs;
        assert Tally() == old(Tally()).(merges := old(totalMerges) + 1);
      } else if pick.Some? && fuel > 0 {
        Relocate(pick.value, order, rng, fuel - 1);
      }
    }

    /**
     * The first part of `RemoveVault`: the section at v's prefix drops v and
     * picks a vault to relocate; a merge is due when it has fallen below
     * GroupSize and it is not the only section.
     */
    method Depart(section: Section, v: Vault, order: EldershipOrder, rng: Prng) returns (merge: bool, pick: Option<Vault>)
      requires Valid() && ValidOrder(order) && v.prefix.key in sections && sections[v.prefix.key] == section
      modifies rng, section`vaults
      ensures Valid()
      ensures MembersOf(sections) == old(MembersOf(sections)) - {v}
      ensures merge <==> old(MergeDue(v))
      ensures pick.Some? ==> pick.value in MembersOf(sections)
    {
      var shrunk;
      pick, shrunk := Leave(section, v, order, rng);
      merge := false;
      if shrunk {
        merge := HasMoreThanOneSection();
      }
    }

    /**
     * v leaves its section, which may pick one of its remaining vaults to
     * relocate and then tells whether it has fallen below GroupSize.
     */
    method Leave(section: Section, v: Vault, order: EldershipOrder, rng: Prng) returns (pick: Option<Vault>, shrunk: bool)
      requires Keyed(sections) && Populated(sections) && ValidOrder(order)
      requires v.prefix.key in sections && sections[v.prefix.key] == section
      modifies rng, section`vaults
      ensures Populated(sections)
      ensures MembersOf(sections) == old(MembersOf(sections)) - {v}
      ensures pick.Some? ==> pick.value in MembersOf(sections)
      ensures shrunk <==> |RemoveFirst(old(section.vaults), v)| < GroupSize
    {
      ghost var m := sections;
      ghost var k := v.prefix.key;
      ghost var members := section.vaults;
      LeaveSetting(m, k, v);
      var ne := section.RemoveVault(v, rng);
      pick := ne.vaultToRelocate;
      ghost var removed := section.vaults;
      assert pick.Some? ==> pick.value in removed;
      shrunk := Shrinks(section, order);
      OthersKept(m, k);
      DepartureDone(m, k, members, v, removed, pick);
    }

    /** The merge test `removeVault` asks of the section, which sorts its members by eldership. */
    method Shrinks(section: Section, order: EldershipOrder) returns (shrunk: bool)
      requires ValidOrder(order)
      modifies section`vaults
      ensures Elements(section.vaults) == Elements(old(section.vaults)) && |section.vaults| == |old(section.vaults)|
      ensures NoDup(old(section.vaults)) ==> NoDup(section.vaults)
      ensures shrunk <==> |section.vaults| < GroupSize
    {
      shrunk := section.ShouldMerge(order);
    }

    /**
     * `relocateVault`: pick the neighbour section, record the hop count,
     * remove the vault (merging if that is due), rename it into the
     * neighbour's prefix, age it and add it again.
     */
    method Relocate(w: Vault, order: EldershipOrder, rng: Prng, fuel: nat)
      requires Valid() && ValidOrder(order) && w in MembersOf(sections)
      modifies this, rng, sections.Values, MembersOf(sections)
      decreases fuel, 5
      ensures Valid() && sections != map[]
      ensures MembersOf(sections) <= old(MembersOf(sections))
      ensures Grew(old(Tally()), Tally()) && totalRelocations > old(totalRelocations) && |neighbourhoodHops| > |old(neighbourhoodHops)|
      ensures forall t :: t in sections.Values ==> t in old(sections.Values) || fresh(t)
      ensures forall w: Vault :: old(allocated(w)) ==> old(w.age) <= w.age
    {
      var target := Destination(w);
      ghost var counted := Tally();
      assert Grew(old(Tally()), counted) && |counted.hops| > |old(neighbourhoodHops)|;
      Move(w, target.prefix, order, rng, fuel);
      GrewAlong(old(Tally()), counted, Tally());
    }

    /** The end of `relocateVault`: remove w (merging if that is due), then rename it into p, age it and add it again. */
    method Move(w: Vault, p: Prefix, order: EldershipOrder, rng: Prng, fuel: nat)
      requires Valid() && ValidOrder(order) && w in MembersOf(sections) && w.prefix.WellFormed() && |p.bits| <= NameBits
      modifies this, rng, sections.Values, MembersOf(sections)
      decreases fuel, 4
      ensures Valid() && sections != map[]
      ensures MembersOf(sections) <= old(MembersOf(sections))
      ensures Grew(old(Tally()), Tally())
      ensures forall t :: t in sections.Values ==> t in old(sections.Values) || fresh(t)
      ensures forall w: Vault :: old(allocated(w)) ==> old(w.age) <= w.age
      ensures w.age > old(w.age)
    {
      Evict(w, order, rng, fuel);
      ghost var counted := Tally();
      ghost var left := MembersOf(sections);
      Rejoin(w, p, order, rng, fuel);
      assert MembersOf(sections) <= left + {w};
      GrewAlong(old(Tally()), counted, Tally());
    }

    /**
     * The first part of `relocateVault`: count the relocation, choose the
     * neighbour section and record how many key bytes its prefix and the
     * vault's differ in.
     */
    method Destination(w: Vault) returns (target: Section)
      requires Valid() && w in MembersOf(sections)
      modifies this`totalRelocations, this`neighbourhoodHops
      ensures target in sections.Values && |target.prefix.bits| <= NameBits && w.prefix.WellFormed()
      ensures Keyed(sections) && w.prefix.key in sections
      ensures |w.prefix.bits| == 0 ==> target == sections[w.prefix.key]
      ensures |w.prefix.bits| > 0 ==> IsNeighbour(sections, w.prefix.bits, target) && target.prefix.bits != w.prefix.bits
      ensures totalRelocations == old(totalRelocations) + 1
      ensures neighbourhoodHops == old(neighbourhoodHops)
        + [DifferingBytes(w.prefix.key, target.prefix.key, Min(|w.prefix.key|, |target.prefix.key|))]
    {
      totalRelocations := totalRelocations + 1;
      HomeOf(sections, w);
      target := SmallestNeighbour(w);
      var hops := HopCount(w.prefix.key, target.prefix.key);
      neighbourhoodHops := neighbourhoodHops + [hops];
    }

    /** `RemoveVault` as `relocateVault` calls it, with only what the move relies on. */
    method Evict(w: Vault, order: EldershipOrder, rng: Prng, fuel: nat)
      requires Valid() && ValidOrder(order) && w in MembersOf(sections)
      modifies this, rng, sections.Values, MembersOf(sections)
      decreases fuel, 3
      ensures Valid() && sections != map[]
      ensures MembersOf(sections) <= old(MembersOf(sections)) - {w}
      ensures Grew(old(Tally()), Tally())
      ensures forall t :: t in sections.Values ==> t in old(sections.Values) || fresh(t)
      ensures forall w: Vault :: old(allocated(w)) ==> old(w.age) <= w.age
    {
      ghost var merged := RemoveVault(w, order, rng, fuel);
    }

    /** The end of `relocateVault`: rename w into p, age it and add it (the source warns when it is refused). */
    method Rejoin(w: Vault, p: Prefix, order: EldershipOrder, rng: Prng, fuel: nat)
      requires Valid() && ValidOrder(order) && w !in MembersOf(sections) && |p.bits| <= NameBits
      modifies this, rng, sections.Values, MembersOf(sections), w
      decreases fuel, 3
      ensures Valid() && sections != map[]
      ensures MembersOf(sections) <= old(MembersOf(sections)) + {w}
      ensures Grew(old(Tally()), Tally())
      ensures forall t :: t in sections.Values ==> t in old(sections.Values) || fresh(t)
      ensures forall w: Vault :: old(allocated(w)) ==> old(w.age) <= w.age
      ensures w.age > old(w.age)
      ensures totalRelocations == old(totalRelocations) ==> IsPrefixOf(p.bits, w.name.bits)
    {
      w.RenameWithPrefix(p, rng);
      w.IncrementAge();
      assert Tally() == old(Tally());
      var disallowed := AddVault(w, order, rng, fuel);
    }

    /**
     * The placement step of `AddVault`: the section s the vault routes to
     * takes it in, and if that splits s, the new sections replace s in the
     * table.
     */
    method Place(s: Section, v: Vault, order: EldershipOrder, rng: Prng) returns (ne: Option<Event>, disallowed: bool)
      requires Valid() && ValidOrder(order)
      requires s.prefix.key in sections && sections[s.prefix.key] == s
      requires IsPrefixOf(s.prefix.bits, v.name.bits) && |v.name.bits| == NameBits && v !in MembersOf(sections)
      modifies this`sections, this`totalSplits, rng, s`vaults, Elements(s.vaults)`age, Elements(s.vaults)`prefix, v`age, v`prefix
      ensures forall w: Vault :: old(allocated(w)) ==> old(w.age) <= w.age
      ensures Valid() && sections != map[]
      ensures disallowed <==> old(Refused(v, s.vaults))
      ensures disallowed <==> ne.None?
      ensures MembersOf(sections) == old(MembersOf(sections)) + if disallowed then {} else {v}
      ensures sections == Replaced(old(sections), s.prefix.key, NewSectionsOf(ne))
      ensures Settled(old(sections), sections, s.prefix.key, NewSectionsOf(ne) != [])
      ensures totalSplits == old(totalSplits) + if NewSectionsOf(ne) == [] then 0 else 1
      ensures forall t :: t in NewSectionsOf(ne) ==> fresh(t)
      ensures ne.Some? && ne.value.vaultToRelocate.Some? ==> ne.value.vaultToRelocate.value in MembersOf(sections)
      ensures forall t :: t in sections.Values ==> t in old(sections.Values) || fresh(t)
    {
      ghost var rest := MembersOf(sections - {s.prefix.key});
      ghost var members := s.vaults;
      var e, d := Offer(s, v, order, rng);
      ne, disallowed := e, d;
      label Offered:
      if e.Some? && |e.value.newSections| > 0 {
        ApplySplit(s.prefix.key, e.value.newSections, members + [v], rest);
      }
      forall w: Vault | old(allocated(w)) ensures old(w.age) <= w.age {
        assert old(w.age) <= old@Offered(w.age) == w.age;
      }
    }

    /**
     * The section s the vault routes to is offered it. If s split, the new
     * sections are ready to replace it in the table; otherwise the table is
     * valid again with exactly the vault taken in added.
     */
    method Offer(s: Section, v: Vault, order: EldershipOrder, rng: Prng) returns (ne: Option<Event>, disallowed: bool)
      requires Valid() && ValidOrder(order)
      requires s.prefix.key in sections && sections[s.prefix.key] == s
      requires IsPrefixOf(s.prefix.bits, v.name.bits) && |v.name.bits| == NameBits && v !in MembersOf(sections)
      modifies rng, s`vaults, Elements(s.vaults)`age, Elements(s.vaults)`prefix, v`age, v`prefix
      ensures disallowed <==> old(Refused(v, s.vaults))
      ensures disallowed <==> ne.None?
      ensures forall j :: j in sections && j != s.prefix.key ==> SectionSound(sections[j])
      ensures MembersOf(sections - {s.prefix.key}) == old(MembersOf(sections - {s.prefix.key}))
      ensures ne.Some? && ne.value.newSections != [] ==>
        && Formed(ne.value.newSections, s.prefix.bits, old(s.vaults) + [v]) && PrefixesIdentify(ne.value.newSections)
        && (forall t :: t in ne.value.newSections ==> |t.prefix.bits| > |s.prefix.bits|)
        && AllMatch(old(s.vaults) + [v], s.prefix.bits) && (forall w :: w in old(s.vaults) + [v] ==> |w.name.bits| == NameBits)
        && ne.value.vaultToRelocate == None && (forall t :: t in ne.value.newSections ==> fresh(t))
        && old(MembersOf(sections - {s.prefix.key})) + Elements(old(s.vaults) + [v]) == old(MembersOf(sections)) + {v}
      ensures !(ne.Some? && ne.value.newSections != []) ==>
        && Valid()
        && MembersOf(sections) == old(MembersOf(sections)) + (if disallowed then {} else {v})
        && (ne.Some? && ne.value.vaultToRelocate.Some? ==> ne.value.vaultToRelocate.value in MembersOf(sections))
      ensures old(v.age) <= v.age && forall w :: w in old(s.vaults) ==> old(w.age) <= w.age
    {
      ghost var m := sections;
      ghost var members := s.vaults;
      ne, disallowed := Take(s, v, order, rng);
      Placed(m, s.prefix.key, members, v, disallowed, ne);
    }

    /**
     * The section s takes v in or refuses it; nothing else in the table
     * changes, and before the call s was sound and held its share of the
     * members.
     */
    method Take(s: Section, v: Vault, order: EldershipOrder, rng: Prng) returns (ne: Option<Event>, disallowed: bool)
      requires Keyed(sections) && Populated(sections) && ValidOrder(order)
      requires s.prefix.key in sections && sections[s.prefix.key] == s
      requires IsPrefixOf(s.prefix.bits, v.name.bits) && |v.name.bits| == NameBits && v !in MembersOf(sections)
      modifies rng, s`vaults, Elements(s.vaults)`age, Elements(s.vaults)`prefix, v`age, v`prefix
      ensures disallowed <==> old(Refused(v, s.vaults))
      ensures old(SectionSound(s)) && old(MembersOf(sections)) == old(MembersOf(sections - {s.prefix.key})) + Elements(old(s.vaults))
      ensures forall j :: j in sections && j != s.prefix.key ==> SectionSound(sections[j])
      ensures MembersOf(sections - {s.prefix.key}) == old(MembersOf(sections - {s.prefix.key}))
      ensures forall w :: w in old(s.vaults) ==> w.name == old(w.name)
      ensures disallowed ==> ne == None && s.vaults == old(s.vaults) && forall w :: w in old(s.vaults) ==> unchanged(w)
      ensures !disallowed ==> ne.Some? && Accepted(s, old(s.vaults), v, ne.value) == true
      ensures old(v.age) <= v.age && forall w :: w in old(s.vaults) ==> old(w.age) <= w.age
    {
      ghost var m := sections;
      ghost var k := s.prefix.key;
      JoinSetting(m, k, v);
      ne, disallowed := s.AddVault(v, order, rng);
      OthersKept(m, k);
    }
  }
}
