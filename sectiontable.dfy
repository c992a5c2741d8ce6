/**
 * The network's table of sections, keyed by prefix key, and the pure
 * queries `network.go` makes of it: the resident prefixes above or below a
 * prefix, the section a name routes to, the number of vaults, and the hop
 * count between two prefix keys.
 */
module SectionTables {
  import opened Common
  import opened Prefixes
  import opened Vaults
  import opened Tries
  import opened Sections

  /** `Network.Sections`. */
  type Table = map<Key, Section>

  /** Every section is filed under its own key and its prefix is no longer than a name. */
  ghost predicate Keyed(m: Table)
  {
    forall k :: k in m ==> m[k].prefix.WellFormed() && m[k].prefix.key == k && |m[k].prefix.bits| <= NameBits
  }

  /** The resident prefixes, as bit strings. */
  ghost function PrefixesOf(m: Table): set<seq<bool>>
  {
    set k | k in m :: m[k].prefix.bits
  }

  /** The shape a network keeps: keyed, and either empty or tiling every name. */
  ghost predicate Shaped(m: Table)
  {
    Keyed(m) && (m == map[] || Tiling(PrefixesOf(m), []))
  }

  /**
   * The table after a vault is placed in the section filed under k: every
   * other entry is kept, and the table is unchanged unless that section
   * split, in which case its key is gone.
   */
  ghost predicate Settled(before: Table, after: Table, k: Key, split: bool)
  {
    && (forall j :: j in before && j != k ==> j in after && after[j] == before[j])
    && if split then k !in after else after == before
  }

  /** In a keyed table a bit string is resident exactly when its key is filed, and then under its own bits. */
  lemma Resident(m: Table, bits: seq<bool>)
    requires Keyed(m)
    ensures KeyOf(bits) in m <==> bits in PrefixesOf(m)
    ensures KeyOf(bits) in m ==> m[KeyOf(bits)].prefix.bits == bits && |bits| <= NameBits
  {
    if KeyOf(bits) in m {
      KeyOfInjective(m[KeyOf(bits)].prefix.bits, bits);
    }
    if bits in PrefixesOf(m) {
      var k :| k in m && m[k].prefix.bits == bits;
    }
  }

  /** The bit strings of a list of prefixes. */
  ghost function BitsOf(r: seq<Prefix>): set<seq<bool>>
  {
    set q | q in r :: q.bits
  }

  /**
   * `getChildPrefixes`: below p, each child that is resident, and below each
   * child that is not, its own child prefixes; at the name length the search
   * stops with nothing (the source prints a warning there).
   */
  function ChildPrefixes(m: Table, p: Prefix): (r: seq<Prefix>)
    requires Keyed(m)
    ensures forall q :: q in r ==> q.key in m
    decreases NameBits - |p.bits|
  {
    var l, rt := Left(p), Right(p);
    if l.key in m && rt.key in m then [l, rt]
    else if l.key in m then
      Resident(m, l.bits);
      [l] + ChildPrefixes(m, rt)
    else if rt.key in m then
      Resident(m, rt.bits);
      [rt] + ChildPrefixes(m, l)
    else if |p.bits| < NameBits then ChildPrefixes(m, l) + ChildPrefixes(m, rt)
    else []
  }

  /** Well-formed prefixes below root, none extending another and none listed twice. */
  ghost predicate Fan(r: seq<Prefix>, root: seq<bool>)
  {
    && (forall q :: q in r ==> q.WellFormed() && IsPrefixOf(root, q.bits))
    && (forall q1, q2 :: q1 in r && q2 in r && IsPrefixOf(q1.bits, q2.bits) ==> q1 == q2)
    && NoDup(r)
  }

  /** Fans below the two children of p join into a fan below p, every member strictly longer than p. */
  lemma FanJoin(a: seq<Prefix>, b: seq<Prefix>, p: seq<bool>, x: bool)
    requires Fan(a, p + [x]) && Fan(b, p + [!x])
    ensures Fan(a + b, p) && forall q :: q in a + b ==> |q.bits| > |p|
  {
    forall q | q in a + b ensures IsPrefixOf(p, q.bits) && |q.bits| > |p| {
      if q in a {
        ExtensionMatchFacts(p, x, q.bits);
      } else {
        ExtensionMatchFacts(p, !x, q.bits);
      }
    }
    forall q1, q2 | q1 in a + b && q2 in a + b && IsPrefixOf(q1.bits, q2.bits) ensures q1 == q2 {
      var c := if q1 in a then x else !x;
      PrefixOfTransitive(p + [c], q1.bits, q2.bits);
      ExactlyOneExtensionMatches(p, q2.bits);
    }
    forall q | q in a ensures q !in b {
      if q in b {
        ExactlyOneExtensionMatches(p, q.bits);
      }
    }
    NoDupConcat(a, b);
  }

  /** The children `getChildPrefixes` returns are well formed, strictly below p, none extending another, none twice. */
  lemma {:induction false} ChildPrefixesFan(m: Table, p: Prefix)
    requires Keyed(m)
    ensures Fan(ChildPrefixes(m, p), p.bits)
    ensures forall q :: q in ChildPrefixes(m, p) ==> |q.bits| > |p.bits|
    decreases NameBits - |p.bits|
  {
    var l, rt := Left(p), Right(p);
    assert Fan([l], p.bits + [false]);
    assert Fan([rt], p.bits + [true]);
    var r := ChildPrefixes(m, p);
    if l.key in m && rt.key in m {
      assert r == [l] + [rt];
      FanJoin([l], [rt], p.bits, false);
    } else if l.key in m {
      Resident(m, l.bits);
      var c := ChildPrefixes(m, rt);
      assert r == [l] + c;
      ChildPrefixesFan(m, rt);
      FanJoin([l], c, p.bits, false);
    } else if rt.key in m {
      Resident(m, rt.bits);
      var c := ChildPrefixes(m, l);
      assert r == [rt] + c;
      ChildPrefixesFan(m, l);
      FanJoin([rt], c, p.bits, true);
    } else if |p.bits| < NameBits {
      var a, b := ChildPrefixes(m, l), ChildPrefixes(m, rt);
      assert r == a + b;
      ChildPrefixesFan(m, l);
      ChildPrefixesFan(m, rt);
      FanJoin(a, b, p.bits, false);
    } else {
      assert r == [];
    }
  }

  /** Every resident prefix strictly below p is among the children found below p. */
  lemma {:induction false} ChildPrefixesFind(m: Table, p: Prefix, a: seq<bool>)
    requires Keyed(m) && PrefixFree(PrefixesOf(m))
    requires a in PrefixesOf(m) && IsPrefixOf(p.bits, a) && |a| > |p.bits|
    ensures a in BitsOf(ChildPrefixes(m, p))
    decreases NameBits - |p.bits|
  {
    var l, rt := Left(p), Right(p);
    var r := ChildPrefixes(m, p);
    Resident(m, a);
    ExactlyOneExtensionMatches(p.bits, a);
    var ch := if a[|p.bits|] then rt else l;
    assert IsPrefixOf(ch.bits, a);
    Resident(m, ch.bits);
    if ch.key in m {
      assert ch.bits == a;
      assert ch in r;
    } else {
      assert ch.key == KeyOf(ch.bits) && ch.bits != a;
      ChildPrefixesFind(m, ch, a);
      var c := ChildPrefixes(m, ch);
      if l.key in m {
        assert r == [l] + c;
      } else if rt.key in m {
        assert r == [rt] + c;
      } else {
        assert r == ChildPrefixes(m, l) + ChildPrefixes(m, rt);
      }
    }
  }

  /**
   * When the resident prefixes are prefix free, the children found below p
   * are exactly the resident prefixes strictly below p.
   */
  lemma ChildPrefixesAreSubtree(m: Table, p: Prefix)
    requires Keyed(m) && PrefixFree(PrefixesOf(m))
    ensures BitsOf(ChildPrefixes(m, p)) == Subtree(PrefixesOf(m), p.bits) - {p.bits}
  {
    var r := ChildPrefixes(m, p);
    var below := Subtree(PrefixesOf(m), p.bits) - {p.bits};
    ChildPrefixesFan(m, p);
    forall a | a in BitsOf(r) ensures a in below {
      var q :| q in r && q.bits == a;
      Resident(m, a);
    }
    forall a | a in below ensures a in BitsOf(r) {
      assert a in PrefixesOf(m) && IsPrefixOf(p.bits, a) && a != p.bits;
      assert a == a[..|a|];
      ChildPrefixesFind(m, p, a);
    }
  }

  /** The keys the sections are filed under. */
  ghost function KeysOf(secs: seq<Section>): set<Key>
  {
    set s | s in secs :: s.prefix.key
  }

  /** The table with each of secs filed under its key, in order. */
  function Filed(m: Table, secs: seq<Section>): (r: Table)
    ensures r.Keys == m.Keys + KeysOf(secs)
  {
    if secs == [] then m
    else
      var last := secs[|secs| - 1];
      assert secs == secs[..|secs| - 1] + [last];
      Filed(m, secs[..|secs| - 1])[last.prefix.key := last]
  }

  /** Filing sections told apart by prefix leaves each under its key and every other entry as it was. */
  lemma {:induction false} FiledFacts(m: Table, secs: seq<Section>)
    requires (forall s :: s in secs ==> s.prefix.WellFormed()) && PrefixesIdentify(secs)
    ensures forall s :: s in secs ==> Filed(m, secs)[s.prefix.key] == s
    ensures forall j :: j in m && j !in KeysOf(secs) ==> Filed(m, secs)[j] == m[j]
  {
    if secs != [] {
      var init, last := secs[..|secs| - 1], secs[|secs| - 1];
      assert secs == init + [last];
      FiledFacts(m, init);
      forall s | s in secs ensures Filed(m, secs)[s.prefix.key] == s {
        if s != last && s.prefix.key == last.prefix.key {
          KeyOfInjective(s.prefix.bits, last.prefix.bits);
        }
      }
    }
  }

  /** Filing sections none of which is keyed k, then deleting k. */
  lemma FiledWithout(m: Table, secs: seq<Section>, k: Key)
    requires forall s :: s in secs ==> s.prefix.WellFormed() && s.prefix.key != k
    requires PrefixesIdentify(secs)
    ensures (Filed(m, secs) - {k}).Keys == (m.Keys - {k}) + KeysOf(secs)
    ensures forall s :: s in secs ==> (Filed(m, secs) - {k})[s.prefix.key] == s
    ensures forall j :: j in m && j != k && j !in KeysOf(secs) ==> (Filed(m, secs) - {k})[j] == m[j]
  {
    FiledFacts(m, secs);
  }

  /** Filing sections brings in no section but those filed. */
  lemma {:induction false} FiledValues(m: Table, secs: seq<Section>)
    ensures forall t :: t in Filed(m, secs).Values ==> t in m.Values || t in secs
  {
    if secs != [] {
      var n := |secs| - 1;
      FiledValues(m, secs[..n]);
      forall t | t in Filed(m, secs).Values ensures t in m.Values || t in secs {
        var j :| j in Filed(m, secs) && Filed(m, secs)[j] == t;
        if j != secs[n].prefix.key {
          assert t in Filed(m, secs[..n]).Values;
        }
      }
    }
  }

  /** Filing sections and then deleting a key brings in no section but those filed. */
  lemma FiledValuesWithout(m: Table, secs: seq<Section>, k: Key)
    ensures forall t :: t in (Filed(m, secs) - {k}).Values ==> t in m.Values || t in secs
  {
    FiledValues(m, secs);
    forall t | t in (Filed(m, secs) - {k}).Values ensures t in Filed(m, secs).Values {
      var j :| j in Filed(m, secs) - {k} && (Filed(m, secs) - {k})[j] == t;
      assert Filed(m, secs)[j] == t;
    }
  }

  /** The keys of the resident prefixes that extend par. */
  ghost function KeysBelow(m: Table, par: seq<bool>): set<Key>
  {
    set j | j in m && IsPrefixOf(par, m[j].prefix.bits)
  }

  /** A tiling below a prefix no longer than a name is not empty. */
  lemma CoversNonEmpty(L: set<seq<bool>>, r: seq<bool>)
    requires Covers(L, r) && |r| <= NameBits
    ensures L != {}
  {
    var x := r + seq(NameBits - |r|, _ => false);
    assert IsName(x) && x[..|r|] == r;
  }

  /** On a shaped table only a resident prefix's own key lies below it. */
  lemma KeysBelowMember(m: Table, k: Key)
    requires Shaped(m) && k in m
    ensures KeysBelow(m, m[k].prefix.bits) == {k}
  {
    forall j | j in KeysBelow(m, m[k].prefix.bits) ensures j == k {
      assert m[j].prefix.bits in PrefixesOf(m) && m[k].prefix.bits in PrefixesOf(m);
      Resident(m, m[j].prefix.bits);
    }
  }

  /**
   * Removing the resident prefixes below par and filing instead sections that
   * tile the names below par keeps the table shaped: the split and the merge
   * of `network.go` both take this form.
   */
  lemma ReplaceSubtreeShape(m: Table, par: seq<bool>, q: Key, secs: seq<Section>, m': Table)
    requires Shaped(m) && q in m && IsPrefixOf(par, m[q].prefix.bits)
    requires Tiling(PrefixSet(secs), par) && forall s :: s in secs ==> s.prefix.WellFormed()
    requires m'.Keys == (m.Keys - KeysBelow(m, par)) + KeysOf(secs)
    requires forall s :: s in secs ==> m'[s.prefix.key] == s
    requires forall j :: j in m && j !in KeysBelow(m, par) && j !in KeysOf(secs) ==> m'[j] == m[j]
    ensures Shaped(m') && m' != map[]
    ensures PrefixesOf(m') == (PrefixesOf(m) - Subtree(PrefixesOf(m), par)) + PrefixSet(secs)
    ensures forall j :: j in m && j !in KeysBelow(m, par) ==> j !in KeysOf(secs) && m'[j] == m[j]
  {
    var L := PrefixSet(secs);
    ReplaceSubtreeKeys(m, par, secs, m');
    assert m[q].prefix.bits in PrefixesOf(m);
    TilingReplaceSubtree(PrefixesOf(m), par, m[q].prefix.bits, L);
    CoversNonEmpty(L, par);
    var a :| a in L;
    var s :| s in secs && s.prefix.bits == a;
    assert s.prefix.key in m';
  }

  /** The keyed half of `ReplaceSubtreeShape`, and the resident prefixes it leaves. */
  lemma ReplaceSubtreeKeys(m: Table, par: seq<bool>, secs: seq<Section>, m': Table)
    requires Keyed(m)
    requires Below(PrefixSet(secs), par) && forall s :: s in secs ==> s.prefix.WellFormed()
    requires m'.Keys == (m.Keys - KeysBelow(m, par)) + KeysOf(secs)
    requires forall s :: s in secs ==> m'[s.prefix.key] == s
    requires forall j :: j in m && j !in KeysBelow(m, par) && j !in KeysOf(secs) ==> m'[j] == m[j]
    ensures Keyed(m')
    ensures forall j :: j in m && j !in KeysBelow(m, par) ==> j !in KeysOf(secs) && m'[j] == m[j]
    ensures PrefixesOf(m') == (PrefixesOf(m) - Subtree(PrefixesOf(m), par)) + PrefixSet(secs)
  {
    var P, L := PrefixesOf(m), PrefixSet(secs);
    var below := KeysBelow(m, par);
    forall j | j in m && j !in below ensures j !in KeysOf(secs) {
      if j in KeysOf(secs) {
        var s :| s in secs && s.prefix.key == j;
        assert s.prefix.bits in L;
        KeyOfInjective(s.prefix.bits, m[j].prefix.bits);
      }
    }
    forall j | j in m' ensures m'[j].prefix.WellFormed() && m'[j].prefix.key == j && |m'[j].prefix.bits| <= NameBits {
      if j in KeysOf(secs) {
        var s :| s in secs && s.prefix.key == j;
        assert s.prefix.bits in L;
      }
    }
    forall a | a in PrefixesOf(m') ensures a in (P - Subtree(P, par)) + L {
      var j :| j in m' && m'[j].prefix.bits == a;
      if j in KeysOf(secs) {
        var s :| s in secs && s.prefix.key == j;
      }
    }
    forall a | a in (P - Subtree(P, par)) + L ensures a in PrefixesOf(m') {
      if a in L {
        var s :| s in secs && s.prefix.bits == a;
        assert s.prefix.key in m';
      } else {
        var j :| j in m && m[j].prefix.bits == a;
        assert j !in below;
      }
    }
  }

  /** The resident prefixes among the first 0, 1, ..., n bits of `bits`, shortest first. */
  function ResidentAncestors(m: Table, bits: seq<bool>, n: nat): (r: seq<Prefix>)
    requires n <= |bits|
  {
    var here := if KeyOf(bits[..n]) in m then [MakePrefix(bits[..n])] else [];
    if n == 0 then here else ResidentAncestors(m, bits, n - 1) + here
  }

  /** A prefix is listed exactly when it is a resident, well-formed prefix of `bits` of at most n bits. */
  lemma {:induction false} ResidentAncestorsMembers(m: Table, bits: seq<bool>, n: nat, q: Prefix)
    requires n <= |bits|
    ensures q in ResidentAncestors(m, bits, n) <==>
      q.WellFormed() && |q.bits| <= n && IsPrefixOf(q.bits, bits) && q.key in m
  {
    if n > 0 {
      ResidentAncestorsMembers(m, bits, n - 1, q);
    }
    if q.WellFormed() && |q.bits| == n && IsPrefixOf(q.bits, bits) {
      assert q == MakePrefix(bits[..n]);
    }
  }

  /** What `getMatchingPrefixes` returns: the resident prefixes of p, or when there are none, the resident ones below it. */
  function MatchingPrefixes(m: Table, p: Prefix): (r: seq<Prefix>)
    requires Keyed(m)
  {
    var a := ResidentAncestors(m, p.bits, |p.bits|);
    if a == [] then ChildPrefixes(m, p) else a
  }

  /** Every matching prefix is resident and either a prefix of p, or below p when nothing above or at p is resident. */
  lemma MatchingPrefixesFacts(m: Table, p: Prefix, q: Prefix)
    requires Keyed(m) && q in MatchingPrefixes(m, p)
    ensures q.WellFormed() && q.key in m
    ensures IsPrefixOf(q.bits, p.bits) || (IsPrefixOf(p.bits, q.bits) && |q.bits| > |p.bits|)
    ensures !IsPrefixOf(q.bits, p.bits) ==> ResidentAncestors(m, p.bits, |p.bits|) == []
  {
    ResidentAncestorsMembers(m, p.bits, |p.bits|, q);
    ChildPrefixesFan(m, p);
  }

  /** Each matching prefix is the very prefix of the section filed under its key. */
  lemma MatchingResident(m: Table, p: Prefix)
    requires Keyed(m)
    ensures forall q :: q in MatchingPrefixes(m, p) ==> q.key in m && m[q.key].prefix == q && |q.bits| <= NameBits
  {
    forall q | q in MatchingPrefixes(m, p) ensures q.key in m && m[q.key].prefix == q && |q.bits| <= NameBits {
      MatchingPrefixesFacts(m, p, q);
      KeyOfInjective(m[q.key].prefix.bits, q.bits);
    }
  }

  /**
   * A prefix `getChildPrefixes` finds below the left child of p is that
   * child when it is resident, and is otherwise found below it.
   */
  lemma ChildPrefixesLeft(m: Table, p: Prefix, q: Prefix)
    requires Keyed(m) && q in ChildPrefixes(m, p) && IsPrefixOf(Left(p).bits, q.bits)
    ensures Left(p).key in m ==> q == Left(p)
    ensures Left(p).key !in m ==> q in ChildPrefixes(m, Left(p))
  {
    var l, rt := Left(p), Right(p);
    ExactlyOneExtensionMatches(p.bits, q.bits);
    ChildPrefixesFan(m, rt);
    assert q != rt && q !in ChildPrefixes(m, rt);
    if l.key !in m && rt.key in m {
      assert ChildPrefixes(m, p) == [rt] + ChildPrefixes(m, l);
    } else if l.key !in m && rt.key !in m {
      assert ChildPrefixes(m, p) == ChildPrefixes(m, l) + ChildPrefixes(m, rt);
    }
  }

  /** The same below the right child. */
  lemma ChildPrefixesRight(m: Table, p: Prefix, q: Prefix)
    requires Keyed(m) && q in ChildPrefixes(m, p) && IsPrefixOf(Right(p).bits, q.bits)
    ensures Right(p).key in m ==> q == Right(p)
    ensures Right(p).key !in m ==> q in ChildPrefixes(m, Right(p))
  {
    var l, rt := Left(p), Right(p);
    ExactlyOneExtensionMatches(p.bits, q.bits);
    ChildPrefixesFan(m, l);
    assert q != l && q !in ChildPrefixes(m, l);
    if l.key in m && rt.key !in m {
      assert ChildPrefixes(m, p) == [l] + ChildPrefixes(m, rt);
    } else if l.key !in m && rt.key !in m {
      assert ChildPrefixes(m, p) == ChildPrefixes(m, l) + ChildPrefixes(m, rt);
    }
  }

  /**
   * `getChildPrefixes` stops at the first resident prefix on each branch: no
   * resident prefix lies strictly between p and a prefix it finds.
   */
  lemma {:induction false} ChildPrefixesStop(m: Table, p: Prefix, q: Prefix, a: seq<bool>)
    requires Keyed(m) && q in ChildPrefixes(m, p)
    requires KeyOf(a) in m && IsPrefixOf(p.bits, a) && |a| > |p.bits| && IsPrefixOf(a, q.bits)
    ensures a == q.bits
    decreases NameBits - |p.bits|
  {
    Resident(m, a);
    var b := a[|p.bits|];
    ExactlyOneExtensionMatches(p.bits, a);
    var ch := if b then Right(p) else Left(p);
    PrefixOfTransitive(ch.bits, a, q.bits);
    if b {
      ChildPrefixesRight(m, p, q);
    } else {
      ChildPrefixesLeft(m, p, q);
    }
    if ch.key in m {
      assert a == q.bits;
    } else {
      if |a| == |ch.bits| {
        assert false;
      }
      ChildPrefixesStop(m, ch, q, a);
    }
  }

  /** Asking again at a matching prefix finds nothing the first question did not. */
  lemma MatchingClosed(m: Table, p: Prefix, q: Prefix)
    requires Keyed(m) && q in MatchingPrefixes(m, p)
    ensures forall r :: r in MatchingPrefixes(m, q) ==> r in MatchingPrefixes(m, p)
  {
    MatchingPrefixesFacts(m, p, q);
    assert IsPrefixOf(q.bits, q.bits);
    ResidentAncestorsMembers(m, q.bits, |q.bits|, q);
    forall r | r in MatchingPrefixes(m, q) ensures r in MatchingPrefixes(m, p) {
      ResidentAncestorsMembers(m, q.bits, |q.bits|, r);
      ResidentAncestorsMembers(m, p.bits, |p.bits|, r);
      if IsPrefixOf(q.bits, p.bits) {
        ResidentAncestorsMembers(m, p.bits, |p.bits|, q);
        PrefixOfTransitive(r.bits, q.bits, p.bits);
      } else {
        PrefixesComparable(r.bits, p.bits, q.bits);
        ChildPrefixesStop(m, p, q, r.bits);
      }
    }
  }

  /** On a tiled table the section a full-length name routes to: the one whose prefix it lies below. */
  ghost function Route(m: Table, x: seq<bool>): (k: Key)
    requires Shaped(m) && m != map[] && |x| == NameBits
    ensures k in m && IsPrefixOf(m[k].prefix.bits, x)
  {
    TilingRoutesUniquely(PrefixesOf(m), x);
    var a :| a in PrefixesOf(m) && IsPrefixOf(a, x);
    var k :| k in m && m[k].prefix.bits == a;
    k
  }

  /** On a tiled table every prefix has a matching prefix. */
  lemma MatchingNonEmpty(m: Table, p: Prefix)
    requires Shaped(m) && m != map[]
    ensures MatchingPrefixes(m, p) != []
  {
    var x := if |p.bits| >= NameBits then p.bits[..NameBits] else p.bits + seq(NameBits - |p.bits|, _ => false);
    var a := m[Route(m, x)].prefix;
    if |p.bits| >= NameBits {
      PrefixOfTransitive(a.bits, x, p.bits);
    } else {
      assert x[..|p.bits|] == p.bits;
      PrefixesComparable(a.bits, p.bits, x);
    }
    ResidentAncestorsMembers(m, p.bits, |p.bits|, a);
    if !IsPrefixOf(a.bits, p.bits) && ResidentAncestors(m, p.bits, |p.bits|) == [] {
      Resident(m, a.bits);
      ChildPrefixesFind(m, p, a.bits);
    }
  }

  /** Only one section of a tiled table lies above a full-length name. */
  lemma RouteUnique(m: Table, x: seq<bool>, k: Key)
    requires Shaped(m) && m != map[] && |x| == NameBits
    requires k in m && IsPrefixOf(m[k].prefix.bits, x)
    ensures k == Route(m, x)
  {
    var j := Route(m, x);
    TilingRoutesUniquely(PrefixesOf(m), x);
    assert m[k].prefix.bits in PrefixesOf(m) && m[j].prefix.bits in PrefixesOf(m);
    Resident(m, m[k].prefix.bits);
    Resident(m, m[j].prefix.bits);
  }

  /** The number of vaults listed in the sections filed under ks: `TotalVaults` when ks is every key. */
  ghost function SizeSum(m: Table, ks: set<Key>): nat
    requires ks <= m.Keys
    reads m.Values`vaults
    decreases ks
  {
    if ks == {} then 0
    else
      var k :| k in ks;
      |m[k].vaults| + SizeSum(m, ks - {k})
  }

  /** The sum may be taken starting from any key. */
  lemma {:induction false} SizeSumPick(m: Table, ks: set<Key>, k: Key)
    requires ks <= m.Keys && k in ks
    ensures SizeSum(m, ks) == |m[k].vaults| + SizeSum(m, ks - {k})
    decreases |ks|
  {
    var j :| j in ks && SizeSum(m, ks) == |m[j].vaults| + SizeSum(m, ks - {j});
    if j != k {
      SizeSumPick(m, ks - {j}, k);
      SizeSumPick(m, ks - {k}, j);
      assert ks - {j} - {k} == ks - {k} - {j};
    }
  }

  /** The vaults listed in the sections of the table. */
  ghost function MembersOf(m: Table): set<Vault>
    reads m.Values`vaults
  {
    set s, w | s in m.Values && w in s.vaults :: w
  }

  /** The vaults listed in the sections filed under ks. */
  ghost function MembersUnder(m: Table, ks: set<Key>): set<Vault>
    requires ks <= m.Keys
    reads m.Values`vaults
  {
    set k, w | k in ks && w in m[k].vaults :: w
  }

  /** Summing over every key counts every member. */
  lemma MembersUnderAll(m: Table)
    ensures MembersUnder(m, m.Keys) == MembersOf(m)
  {
    forall w | w in MembersOf(m) ensures w in MembersUnder(m, m.Keys) {
      var s :| s in m.Values && w in s.vaults;
      var k :| k in m && m[k] == s;
    }
  }

  /** The members of a table are those of the other sections and those of the section at k, which is at no other key. */
  lemma MembersSplitAt(m: Table, k: Key)
    requires Keyed(m) && k in m
    ensures MembersOf(m) == MembersOf(m - {k}) + Elements(m[k].vaults)
    ensures m[k] !in (m - {k}).Values
  {
    var rest := m - {k};
    forall w | w in MembersOf(m) ensures w in MembersOf(rest) + Elements(m[k].vaults) {
      var t :| t in m.Values && w in t.vaults;
      var j :| j in m && m[j] == t;
      if j != k {
        assert rest[j] == t;
      }
    }
    forall w | w in MembersOf(rest) ensures w in MembersOf(m) {
      var t :| t in rest.Values && w in t.vaults;
      var j :| j in rest && rest[j] == t;
    }
    forall j | j in rest ensures rest[j] != m[k] {
      assert rest[j].prefix.key == j;
    }
  }

  /** Filing sections under keys not yet used adds exactly their members. */
  lemma MembersOfInstalled(m0: Table, secs: seq<Section>, m': Table)
    requires m'.Keys == m0.Keys + KeysOf(secs) && forall j :: j in m0 ==> j !in KeysOf(secs)
    requires forall s :: s in secs ==> m'[s.prefix.key] == s
    requires forall j :: j in m0 ==> m'[j] == m0[j]
    ensures MembersOf(m') == MembersOf(m0) + VaultsOf(secs)
  {
    forall w | w in MembersOf(m') ensures w in MembersOf(m0) + VaultsOf(secs) {
      var t :| t in m'.Values && w in t.vaults;
      var j :| j in m' && m'[j] == t;
      if j in m0 {
        assert m0[j] in m0.Values;
      } else {
        var s :| s in secs && s.prefix.key == j;
      }
    }
    forall w | w in MembersOf(m0) + VaultsOf(secs) ensures w in MembersOf(m') {
      if w in MembersOf(m0) {
        var t :| t in m0.Values && w in t.vaults;
        var j :| j in m0 && m0[j] == t;
        assert m'[j] in m'.Values;
      } else {
        var s :| s in secs && w in s.vaults;
        assert m'[s.prefix.key] in m'.Values;
      }
    }
  }

  /** A section whose members record it, lie below it, are listed once and carry full-length names. */
  ghost predicate SectionSound(s: Section)
    reads s`vaults, s.vaults`prefix, s.vaults`name
  {
    MembersRecorded(s) && MembersMatch(s) && forall w :: w in s.vaults ==> |w.name.bits| == NameBits
  }

  /** Every section of the table is sound. */
  ghost predicate Populated(m: Table)
    reads m.Values`vaults, MembersOf(m)`prefix, MembersOf(m)`name
  {
    forall s :: s in m.Values ==> (MembersListed(m, s); SectionSound(s))
  }

  lemma MembersListed(m: Table, s: Section)
    requires s in m.Values
    ensures forall w :: w in s.vaults ==> w in MembersOf(m)
  {
  }

  /** Sections formed from vaults that all lie below root and carry full-length names are sound and hold exactly those vaults. */
  lemma FormedSound(secs: seq<Section>, root: seq<bool>, vs: seq<Vault>)
    requires Formed(secs, root, vs) && AllMatch(vs, root) && forall w :: w in vs ==> |w.name.bits| == NameBits
    ensures forall t :: t in secs ==> SectionSound(t)
    ensures VaultsOf(secs) == Elements(vs)
  {
  }

  /** A table holding only sound sections of an old table and sound new sections is populated. */
  lemma PopulatedAfterReplace(m: Table, gone: set<Key>, secs: seq<Section>, m': Table)
    requires forall j :: j in m && j !in gone ==> SectionSound(m[j])
    requires forall t :: t in secs ==> SectionSound(t)
    requires m'.Keys == (m.Keys - gone) + KeysOf(secs)
    requires forall s :: s in secs ==> m'[s.prefix.key] == s
    requires forall j :: j in m && j !in gone && j !in KeysOf(secs) ==> m'[j] == m[j]
    ensures Populated(m')
  {
    forall t | t in m'.Values ensures SectionSound(t) {
      var j :| j in m' && m'[j] == t;
      if j in KeysOf(secs) {
        var t' :| t' in secs && t'.prefix.key == j;
      }
    }
  }

  /** On a keyed, populated table every member is listed in exactly one section, the one its prefix names. */
  lemma MemberHome(m: Table, k: Key, w: Vault)
    requires Keyed(m) && Populated(m) && k in m && w in m[k].vaults
    ensures w.prefix.key == k
    ensures forall j :: j in m && w in m[j].vaults ==> j == k
  {
    assert m[k] in m.Values;
    forall j | j in m && w in m[j].vaults ensures j == k {
      assert m[j] in m.Values;
    }
  }

  /** On a shaped, populated table the sum of section sizes is the number of members. */
  lemma {:induction false} SizeSumCountsMembers(m: Table, ks: set<Key>)
    requires Shaped(m) && Populated(m) && ks <= m.Keys
    ensures SizeSum(m, ks) == |MembersUnder(m, ks)|
    decreases |ks|
  {
    if ks != {} {
      var k :| k in ks;
      SizeSumPick(m, ks, k);
      SizeSumCountsMembers(m, ks - {k});
      var here := Elements(m[k].vaults);
      var rest := MembersUnder(m, ks - {k});
      assert MembersUnder(m, ks) == here + rest;
      forall w | w in here ensures w !in rest {
        MemberHome(m, k, w);
      }
      assert m[k] in m.Values;
      DistinctCount(m[k].vaults);
    }
  }

  /** A list without repeats has as many elements as entries. */
  lemma {:induction false} DistinctCount<T>(s: seq<T>)
    requires NoDup(s)
    ensures |Elements(s)| == |s|
  {
    if |s| > 0 {
      var n := |s| - 1;
      if n > 0 {
        DistinctCount(s[..n]);
      }
      assert s == s[..n] + [s[n]];
      ElementsAppend(s[..n], s[n]);
    }
  }

  /** The positions below n at which the two keys hold different bytes: `relocateVault`'s hop count. */
  function DifferingBytes(a: Key, b: Key, n: nat): (d: nat)
    requires n <= |a| && n <= |b|
    ensures d <= n
  {
    if n == 0 then 0 else DifferingBytes(a, b, n - 1) + if a[n - 1] != b[n - 1] then 1 else 0
  }

  /** No byte differs exactly when the keys agree on their first n bytes; the count does not depend on the order. */
  lemma {:induction false} DifferingBytesFacts(a: Key, b: Key, n: nat)
    requires n <= |a| && n <= |b|
    ensures DifferingBytes(a, b, n) == 0 <==> a[..n] == b[..n]
    ensures DifferingBytes(a, b, n) == DifferingBytes(b, a, n)
  {
    if n > 0 {
      DifferingBytesFacts(a, b, n - 1);
      if a[..n] == b[..n] {
        assert a[..n - 1] == a[..n][..n - 1] && b[..n - 1] == b[..n][..n - 1];
        assert a[n - 1] == a[..n][n - 1] && b[n - 1] == b[..n][n - 1];
      }
      if DifferingBytes(a, b, n) == 0 {
        assert a[..n] == a[..n - 1] + [a[n - 1]] && b[..n] == b[..n - 1] + [b[n - 1]];
      }
    }
  }

  /** The keys of the given prefixes. */
  function PrefixKeys(ps: seq<Prefix>): set<Key>
  {
    set q | q in ps :: q.key
  }

  /** The member lists of the sections filed under ps, one after another: the vaults a merge gathers. */
  function ListedAt(m: Table, ps: seq<Prefix>): seq<Vault>
    requires forall q :: q in ps ==> q.key in m
    reads m.Values`vaults
  {
    if ps == [] then [] else m[ps[0].key].vaults + ListedAt(m, ps[1..])
  }

  /**
   * On a shaped, populated table the lists gathered from distinct resident
   * prefixes hold no vault twice, and hold exactly the members filed there.
   */
  lemma {:induction false} GroupListed(m: Table, ps: seq<Prefix>)
    requires Keyed(m) && Populated(m) && NoDup(ps)
    requires forall q :: q in ps ==> q.WellFormed() && q.key in m
    ensures NoDup(ListedAt(m, ps))
    ensures Elements(ListedAt(m, ps)) == MembersUnder(m, PrefixKeys(ps))
  {
    if ps != [] {
      var h, t := ps[0], ps[1..];
      NoDupIndices(ps);
      forall i, j | 0 <= i < j < |t| ensures t[i] != t[j] {
        assert t[i] == ps[i + 1] && t[j] == ps[j + 1];
      }
      NoDupIndices(t);
      GroupListed(m, t);
      var here, rest := m[h.key].vaults, ListedAt(m, t);
      ListedApart(m, h, t);
      assert m[h.key] in m.Values;
      NoDupConcat(here, rest);
      MembersUnderAdd(m, h.key, PrefixKeys(t));
      assert PrefixKeys(ps) == {h.key} + PrefixKeys(t);
      assert Elements(here + rest) == Elements(here) + Elements(rest);
    }
  }

  /** A resident prefix not among t shares no member with the sections filed under t. */
  lemma ListedApart(m: Table, h: Prefix, t: seq<Prefix>)
    requires Keyed(m) && Populated(m) && h.WellFormed() && h.key in m && h !in t
    requires forall q :: q in t ==> q.WellFormed() && q.key in m
    ensures forall w :: w in m[h.key].vaults ==> w !in MembersUnder(m, PrefixKeys(t))
  {
    forall w | w in m[h.key].vaults ensures w !in MembersUnder(m, PrefixKeys(t)) {
      if w in MembersUnder(m, PrefixKeys(t)) {
        var j :| j in PrefixKeys(t) && w in m[j].vaults;
        var q :| q in t && q.key == j;
        MemberHome(m, h.key, w);
        KeyOfInjective(q.bits, h.bits);
      }
    }
  }

  /** The members filed under one more key. */
  lemma MembersUnderAdd(m: Table, k: Key, K: set<Key>)
    requires k in m && K <= m.Keys
    ensures MembersUnder(m, {k} + K) == Elements(m[k].vaults) + MembersUnder(m, K)
  {
  }

  /** The members of a table are those filed outside B and those filed under B. */
  lemma MembersSplitBy(m: Table, B: set<Key>)
    requires B <= m.Keys
    ensures MembersOf(m) == MembersOf(m - B) + MembersUnder(m, B)
  {
    forall w | w in MembersOf(m) ensures w in MembersOf(m - B) + MembersUnder(m, B) {
      var t :| t in m.Values && w in t.vaults;
      var j :| j in m && m[j] == t;
      if j !in B {
        assert (m - B)[j] == t;
      }
    }
    forall w | w in MembersOf(m - B) ensures w in MembersOf(m) {
      var t :| t in (m - B).Values && w in t.vaults;
      var j :| j in m - B && (m - B)[j] == t;
      assert m[j] in m.Values;
    }
    forall w | w in MembersUnder(m, B) ensures w in MembersOf(m) {
      var j :| j in B && w in m[j].vaults;
      assert m[j] in m.Values;
    }
  }
}
