/** Small shared vocabulary: bytes, options, powers of two and bit-string prefixes. */
module Common {

  /** A Go `byte`. */
  newtype byte = x: int | 0 <= x < 256

  datatype Option<T> = None | Some(value: T)

  function Pow2(n: nat): (r: nat)
    ensures r >= 1
  {
    if n == 0 then 1 else 2 * Pow2(n - 1)
  }

  lemma {:induction false} Pow2Monotone(m: nat, n: nat)
    requires m <= n
    ensures Pow2(m) <= Pow2(n)
  {
    if m < n {
      Pow2Monotone(m, n - 1);
    }
  }

  function Min(a: int, b: int): int
  {
    if a <= b then a else b
  }

  /** `a` is a leading part of `b`: the relation `Prefix.Matches` tests. */
  predicate IsPrefixOf(a: seq<bool>, b: seq<bool>)
  {
    |a| <= |b| && a == b[..|a|]
  }

  lemma PrefixOfTransitive(a: seq<bool>, b: seq<bool>, c: seq<bool>)
    requires IsPrefixOf(a, b) && IsPrefixOf(b, c)
    ensures IsPrefixOf(a, c)
  {
    assert c[..|a|] == c[..|b|][..|a|];
  }

  /** Two prefixes of one sequence are comparable. */
  lemma PrefixesComparable(a: seq<bool>, b: seq<bool>, x: seq<bool>)
    requires IsPrefixOf(a, x) && IsPrefixOf(b, x)
    ensures IsPrefixOf(a, b) || IsPrefixOf(b, a)
  {
    if |a| <= |b| {
      assert b[..|a|] == x[..|b|][..|a|];
    } else {
      assert a[..|b|] == x[..|a|][..|b|];
    }
  }

  /** No element occurs twice: the last one is not among the others, and so on down. */
  predicate NoDup<T(==)>(s: seq<T>)
  {
    |s| <= 1 || (s[|s| - 1] !in s[..|s| - 1] && NoDup(s[..|s| - 1]))
  }

  /** The same property stated on positions: distinct positions hold distinct elements. */
  lemma {:induction false} NoDupIndices<T>(s: seq<T>)
    ensures NoDup(s) <==> forall i, j :: 0 <= i < j < |s| ==> s[i] != s[j]
  {
    if |s| > 1 {
      var n := |s| - 1;
      NoDupIndices(s[..n]);
      if NoDup(s) {
        forall i, j | 0 <= i < j < |s| ensures s[i] != s[j] {
          if j < n {
            assert s[i] == s[..n][i] && s[j] == s[..n][j];
          } else {
            assert s[i] in s[..n];
          }
        }
      }
      if forall i, j :: 0 <= i < j < |s| ==> s[i] != s[j] {
        forall i, j | 0 <= i < j < n ensures s[..n][i] != s[..n][j] {
          assert s[..n][i] == s[i] && s[..n][j] == s[j];
        }
        forall k | 0 <= k < n ensures s[..n][k] != s[n] {
          assert s[..n][k] == s[k];
        }
      }
    }
  }

  lemma NoDupAppend<T>(s: seq<T>, x: T)
    requires NoDup(s) && x !in s
    ensures NoDup(s + [x])
  {
    assert (s + [x])[..|s|] == s;
  }

  /** Two lists without repeats and with no element in common concatenate to a list without repeats. */
  lemma NoDupConcat<T>(a: seq<T>, b: seq<T>)
    requires NoDup(a) && NoDup(b) && forall x :: x in a ==> x !in b
    ensures NoDup(a + b)
  {
    NoDupIndices(a);
    NoDupIndices(b);
    var c := a + b;
    forall i, j | 0 <= i < j < |c| ensures c[i] != c[j] {
      if j < |a| {
        assert c[i] == a[i] && c[j] == a[j];
      } else if i >= |a| {
        assert c[i] == b[i - |a|] && c[j] == b[j - |a|];
      } else {
        assert c[i] == a[i] && c[j] == b[j - |a|];
        assert a[i] in a && b[j - |a|] in b;
      }
    }
    NoDupIndices(c);
  }

  function Elements<T>(s: seq<T>): set<T>
  {
    set x | x in s
  }

  /** Appending x adds exactly x to the elements; on a list without repeats, x was not there before. */
  lemma ElementsAppend<T>(s: seq<T>, x: T)
    ensures Elements(s + [x]) == Elements(s) + {x}
    ensures NoDup(s + [x]) ==> NoDup(s) && x !in s
  {
    assert (s + [x])[..|s|] == s;
  }
}
