/** Byte-string distances and their comparison. */
module XorDistances {
  import opened Common

  type XorDistance = seq<byte>

  /** Lexicographic order on byte strings of one length. */
  predicate LexLess(x: seq<byte>, y: seq<byte>)
    requires |x| == |y|
  {
    if x == [] then false
    else if x[0] < y[0] then true
    else if x[0] == y[0] then LexLess(x[1..], y[1..])
    else false
  }

  /** The order `IsLessThan` computes: shorter first, then byte by byte. */
  predicate Less(x: XorDistance, y: XorDistance)
  {
    |x| < |y| || (|x| == |y| && LexLess(x, y))
  }

  /** `XorDistance.IsLessThan`: an early-exit scan for the first differing byte. */
  method IsLessThan(x: XorDistance, y: XorDistance) returns (r: bool)
    ensures r == Less(x, y)
  {
    if |x| < |y| {
      return true;
    } else if |x| > |y| {
      return false;
    }
    for i := 0 to |x|
      invariant LexLess(x[i..], y[i..]) == LexLess(x, y)
    {
      if x[i] < y[i] {
        return true;
      } else if x[i] == y[i] {
        assert x[i..][1..] == x[i + 1..] && y[i..][1..] == y[i + 1..];
        continue;
      } else {
        return false;
      }
    }
    return false;
  }

  /** `IsZeroValue`: the empty distance. */
  predicate IsZeroValue(x: XorDistance)
  {
    |x| == 0
  }

  /** For equal lengths the first differing byte decides. */
  lemma {:induction false} FirstDifferenceDecides(x: seq<byte>, y: seq<byte>)
    requires |x| == |y|
    ensures LexLess(x, y) <==> exists i :: 0 <= i < |x| && x[..i] == y[..i] && x[i] < y[i]
  {
    if x != [] {
      FirstDifferenceDecides(x[1..], y[1..]);
      if LexLess(x, y) && x[0] == y[0] {
        var i :| 0 <= i < |x| - 1 && x[1..][..i] == y[1..][..i] && x[1..][i] < y[1..][i];
        assert x[..i + 1] == [x[0]] + x[1..][..i];
        assert y[..i + 1] == [y[0]] + y[1..][..i];
      }
      if !LexLess(x, y) {
        forall i | 0 <= i < |x| && x[..i] == y[..i] ensures x[i] >= y[i] {
          if i > 0 {
            assert x[0] == x[..i][0] && y[0] == y[..i][0];
            assert x[1..][..i - 1] == x[..i][1..] && y[1..][..i - 1] == y[..i][1..];
          }
        }
      }
    }
  }

  lemma {:induction false} LexIrreflexive(x: seq<byte>)
    ensures !LexLess(x, x)
  {
    if x != [] {
      LexIrreflexive(x[1..]);
    }
  }

  lemma {:induction false} LexTrichotomy(x: seq<byte>, y: seq<byte>)
    requires |x| == |y| && x != y
    ensures LexLess(x, y) != LexLess(y, x)
  {
    if x[0] == y[0] {
      assert x == [x[0]] + x[1..] && y == [y[0]] + y[1..];
      LexTrichotomy(x[1..], y[1..]);
    }
  }

  lemma {:induction false} LexTransitive(x: seq<byte>, y: seq<byte>, z: seq<byte>)
    requires |x| == |y| == |z| && LexLess(x, y) && LexLess(y, z)
    ensures LexLess(x, z)
  {
    if x[0] == y[0] && y[0] == z[0] {
      LexTransitive(x[1..], y[1..], z[1..]);
    }
  }

  /** `IsLessThan` is a strict total order. */
  lemma LessIsStrictTotalOrder(x: XorDistance, y: XorDistance, z: XorDistance)
    ensures !Less(x, x)
    ensures x != y ==> (Less(x, y) != Less(y, x))
    ensures Less(x, y) && Less(y, z) ==> Less(x, z)
  {
    LexIrreflexive(x);
    if x != y && |x| == |y| {
      LexTrichotomy(x, y);
    }
    if Less(x, y) && Less(y, z) && |x| == |y| == |z| {
      LexTransitive(x, y, z);
    }
  }

  /** The empty distance is the zero value and precedes every other distance. */
  lemma ZeroValueIsLeast(x: XorDistance, y: XorDistance)
    requires IsZeroValue(x)
    ensures y != [] ==> Less(x, y)
    ensures !Less(y, x)
  {
  }
}
