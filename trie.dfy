/**
 * The shape the resident prefixes of a network must keep: no prefix extends
 * another, together they cover every 256-bit name below a root, and none is
 * longer than a name. Stated on sets of bit strings.
 */
module Tries {
  import opened Common

  /** Names have this many bits. */
  const NameBits: nat := 256

  ghost predicate PrefixFree(P: set<seq<bool>>)
  {
    forall a, b :: a in P && b in P && IsPrefixOf(a, b) ==> a == b
  }

  /** The bit strings of a name's length. */
  ghost predicate IsName(x: seq<bool>)
  {
    |x| == NameBits
  }

  /** Every name below root lies below a member of P (instantiated only for names a proof asks about). */
  ghost predicate Covers(P: set<seq<bool>>, root: seq<bool>)
  {
    forall x {:trigger IsName(x)} :: IsName(x) && IsPrefixOf(root, x) ==> exists a :: a in P && IsPrefixOf(a, x)
  }

  ghost predicate Below(P: set<seq<bool>>, root: seq<bool>)
  {
    forall a {:trigger a in P} :: a in P ==> IsPrefixOf(root, a) && |a| <= NameBits
  }

  /** P partitions the names below root: every such name has exactly one prefix in P. */
  ghost predicate Tiling(P: set<seq<bool>>, root: seq<bool>)
  {
    PrefixFree(P) && Covers(P, root) && Below(P, root)
  }

  /** The members of P that extend r (r itself included). */
  ghost function Subtree(P: set<seq<bool>>, r: seq<bool>): (M: set<seq<bool>>)
    ensures M <= P && forall a :: a in M <==> a in P && IsPrefixOf(r, a)
  {
    set a | a in P && IsPrefixOf(r, a)
  }

  lemma TilingSingleton(root: seq<bool>)
    requires |root| <= NameBits
    ensures Tiling({root}, root)
  {
  }

  /** Tilings of the two halves below root join into a tiling below root. */
  lemma TilingJoin(L: set<seq<bool>>, R: set<seq<bool>>, root: seq<bool>)
    requires |root| < NameBits
    requires Tiling(L, root + [false]) && Tiling(R, root + [true])
    ensures Tiling(L + R, root) && L !! R
  {
    var l, r := root + [false], root + [true];
    forall a | a in L ensures IsPrefixOf(root, a) && a[|root|] == false {
      assert a[..|l|][..|root|] == root;
    }
    forall b | b in R ensures IsPrefixOf(root, b) && b[|root|] == true {
      assert b[..|r|][..|root|] == root;
    }
    forall a, b | a in L + R && b in L + R && IsPrefixOf(a, b) ensures a == b {
      assert b[|root|] == a[|root|];
    }
    forall x: seq<bool> | |x| == NameBits && IsPrefixOf(root, x)
      ensures exists a :: a in L + R && IsPrefixOf(a, x)
    {
      assert IsName(x);
      var y := root + [x[|root|]];
      assert x[..|y|] == y;
      if x[|root|] {
        assert IsPrefixOf(r, x);
      } else {
        assert IsPrefixOf(l, x);
      }
    }
  }

  /**
   * Replacing every member of a tiling of all names that lies below r by a
   * tiling below r gives a tiling of all names again, provided something in
   * the tiling lies below r. This covers both installing a split (r is the
   * split prefix) and a merge (r is the parent of the merged section).
   */
  lemma TilingReplaceSubtree(P: set<seq<bool>>, r: seq<bool>, q: seq<bool>, L: set<seq<bool>>)
    requires Tiling(P, []) && q in P && IsPrefixOf(r, q)
    requires Tiling(L, r)
    ensures Tiling((P - Subtree(P, r)) + L, [])
  {
    var N := (P - Subtree(P, r)) + L;
    forall a, b | a in N && b in N && IsPrefixOf(a, b) ensures a == b {
      if a in L && b !in L {
        PrefixOfTransitive(r, a, b);
      } else if a !in L && b in L {
        PrefixesComparable(a, r, b);
        if IsPrefixOf(a, r) {
          PrefixOfTransitive(a, r, q);
        }
      }
    }
    forall x: seq<bool> | |x| == NameBits && IsPrefixOf([], x)
      ensures exists a :: a in N && IsPrefixOf(a, x)
    {
      assert IsName(x);
      var a :| a in P && IsPrefixOf(a, x);
      if a in Subtree(P, r) {
        PrefixOfTransitive(r, a, x);
      }
    }
  }

  /** In a prefix-free set, the subtree of a member is the member alone. */
  lemma SubtreeOfMember(P: set<seq<bool>>, p: seq<bool>)
    requires PrefixFree(P) && p in P
    ensures Subtree(P, p) == {p}
  {
  }

  /**
   * The subtree below the parent of a member p is p plus the subtree of p's
   * sibling: nothing else in a prefix-free set can lie below the parent.
   */
  lemma SubtreeOfParent(P: set<seq<bool>>, p: seq<bool>)
    requires PrefixFree(P) && p in P && |p| > 0
    ensures Subtree(P, p[..|p| - 1]) == {p} + Subtree(P, p[..|p| - 1] + [!p[|p| - 1]])
  {
    var r := p[..|p| - 1];
    var s := r + [!p[|p| - 1]];
    assert p == r + [p[|p| - 1]];
    forall a | a in Subtree(P, r) && a != p ensures IsPrefixOf(s, a) {
      if |a| == |r| {
        assert a == r;
        assert IsPrefixOf(a, p);
      } else if a[|r|] == p[|p| - 1] {
        assert false;
      } else {
        assert a[..|s|] == s;
      }
    }
    forall a | a in Subtree(P, s) ensures IsPrefixOf(r, a) {
      PrefixOfTransitive(r, s, a);
    }
  }

  /** A tiling of all names routes each name to exactly one member. */
  lemma TilingRoutesUniquely(P: set<seq<bool>>, x: seq<bool>)
    requires Tiling(P, []) && |x| == NameBits
    ensures exists a :: a in P && IsPrefixOf(a, x)
    ensures forall a, b :: a in P && b in P && IsPrefixOf(a, x) && IsPrefixOf(b, x) ==> a == b
  {
    assert IsName(x);
    forall a, b | a in P && b in P && IsPrefixOf(a, x) && IsPrefixOf(b, x) ensures a == b {
      PrefixesComparable(a, b, x);
    }
  }
}
