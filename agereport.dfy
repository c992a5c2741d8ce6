/**
 * The arithmetic behind `ReportAges`: a histogram of ages as a map from age
 * to count, the total of its counts, and the ascending order its keys are
 * reported in.
 */
module AgeReports {
  import opened Common

  /** The counts filed under the ages in ks, summed. */
  ghost function CountTotal(ages: map<int, nat>, ks: set<int>): nat
    requires ks <= ages.Keys
    decreases ks
  {
    if ks == {} then 0
    else
      Inhabited(ks);
      var a :| a in ks;
      ages[a] + CountTotal(ages, ks - {a})
  }

  /** A non-empty set of ages has a member. */
  lemma Inhabited(ks: set<int>)
    requires ks != {}
    ensures exists a :: a in ks
  {
    if forall a :: a !in ks {
      assert false;
    }
  }

  /** The total may be taken starting from any age. */
  lemma {:induction false} CountTotalPick(ages: map<int, nat>, ks: set<int>, a: int)
    requires ks <= ages.Keys && a in ks
    ensures CountTotal(ages, ks) == ages[a] + CountTotal(ages, ks - {a})
    decreases |ks|
  {
    var b :| b in ks && CountTotal(ages, ks) == ages[b] + CountTotal(ages, ks - {b});
    if b != a {
      CountTotalPick(ages, ks - {b}, a);
      CountTotalPick(ages, ks - {a}, b);
      assert ks - {b} - {a} == ks - {a} - {b};
    }
  }

  /** Two histograms that agree on ks have the same total over ks. */
  lemma {:induction false} CountTotalAgree(x: map<int, nat>, y: map<int, nat>, ks: set<int>)
    requires ks <= x.Keys && ks <= y.Keys
    requires forall a :: a in ks ==> x[a] == y[a]
    ensures CountTotal(x, ks) == CountTotal(y, ks)
    decreases |ks|
  {
    if ks != {} {
      Inhabited(ks);
      var a :| a in ks;
      CountTotalPick(x, ks, a);
      CountTotalPick(y, ks, a);
      CountTotalAgree(x, y, ks - {a});
    }
  }

  /** Counting one more vault at an age already present adds one to the total. */
  lemma CountTotalBump(ages: map<int, nat>, a: int)
    requires a in ages
    ensures ages[a := ages[a] + 1].Keys == ages.Keys
    ensures CountTotal(ages[a := ages[a] + 1], ages[a := ages[a] + 1].Keys) == CountTotal(ages, ages.Keys) + 1
  {
    var bumped := ages[a := ages[a] + 1];
    assert bumped.Keys == ages.Keys;
    CountTotalPick(ages, ages.Keys, a);
    CountTotalPick(bumped, bumped.Keys, a);
    CountTotalAgree(ages, bumped, ages.Keys - {a});
  }

  /** Filing a new age with count zero leaves the total as it was. */
  lemma CountTotalNew(ages: map<int, nat>, a: int)
    requires a !in ages
    ensures ages[a := 0].Keys == ages.Keys + {a}
    ensures CountTotal(ages[a := 0], ages[a := 0].Keys) == CountTotal(ages, ages.Keys)
  {
    var filed := ages[a := 0];
    assert filed.Keys == ages.Keys + {a};
    CountTotalPick(filed, ages.Keys + {a}, a);
    assert ages.Keys + {a} - {a} == ages.Keys;
    CountTotalAgree(ages, filed, ages.Keys);
  }

  /** The count filed under age a, zero when a is not filed. */
  function CountAt(ages: map<int, nat>, a: int): nat
  {
    if a in ages then ages[a] else 0
  }

  /** One more vault of age a counted: the age is filed with count zero if it is new, then its count goes up by one. */
  function Counted(ages: map<int, nat>, a: int): map<int, nat>
  {
    var filed := if a in ages then ages else ages[a := 0];
    filed[a := filed[a] + 1]
  }

  /** Counting a vault files its age, keeps every count positive and adds one to the total. */
  lemma CountedFacts(ages: map<int, nat>, a: int)
    requires forall b :: b in ages ==> ages[b] > 0
    ensures Counted(ages, a).Keys == ages.Keys + {a}
    ensures forall b :: b in Counted(ages, a) ==> Counted(ages, a)[b] > 0
    ensures CountTotal(Counted(ages, a), Counted(ages, a).Keys) == CountTotal(ages, ages.Keys) + 1
  {
    var filed := if a in ages then ages else ages[a := 0];
    if a !in ages {
      CountTotalNew(ages, a);
    }
    CountTotalBump(filed, a);
  }

  /**
   * A histogram that started as base and has since counted the ages in
   * seen: keys lists its ages once each, every count is positive, its ages
   * are base's and seen's, and its total grew by one per age counted.
   */
  ghost predicate Tallies(ages: map<int, nat>, keys: seq<int>, base: map<int, nat>, seen: seq<int>)
  {
    ages.Keys == Elements(keys) && NoDup(keys)
    && (forall a :: a in ages ==> ages[a] > 0)
    && ages.Keys == base.Keys + Elements(seen)
    && CountTotal(ages, ages.Keys) == CountTotal(base, base.Keys) + |seen|
  }

  /** A histogram that started as base and has since counted the ages in seen holds, at each age, base's count plus the times seen lists it. */
  ghost predicate PerAge(ages: map<int, nat>, base: map<int, nat>, seen: seq<int>)
  {
    forall a {:trigger CountAt(ages, a)} :: CountAt(ages, a) == CountAt(base, a) + multiset(seen)[a]
  }

  /** Counting xs and then ys counts xs + ys. */
  lemma PerAgeJoin(base: map<int, nat>, mid: map<int, nat>, ages: map<int, nat>, xs: seq<int>, ys: seq<int>)
    requires PerAge(mid, base, xs) && PerAge(ages, mid, ys)
    ensures PerAge(ages, base, xs + ys)
  {
    forall a ensures CountAt(ages, a) == CountAt(base, a) + multiset(xs + ys)[a] {
      assert CountAt(mid, a) == CountAt(base, a) + multiset(xs)[a];
      assert multiset(xs + ys) == multiset(xs) + multiset(ys);
    }
  }

  /** Counting one more age raises its count, and only its count, by one. */
  lemma PerAgeStep(ages: map<int, nat>, base: map<int, nat>, seen: seq<int>, x: int)
    requires PerAge(ages, base, seen)
    ensures PerAge(Counted(ages, x), base, seen + [x])
  {
    forall a ensures CountAt(Counted(ages, x), a) == CountAt(base, a) + multiset(seen + [x])[a] {
      assert multiset(seen + [x]) == multiset(seen) + multiset{x};
    }
  }

  /** Listing an age only when it is new keeps the list of ages without repeats. */
  lemma ListedStep(ages: map<int, nat>, keys: seq<int>, a: int)
    requires ages.Keys == Elements(keys) && NoDup(keys)
    ensures var keys' := if a in ages then keys else keys + [a];
      ages.Keys + {a} == Elements(keys') && NoDup(keys')
  {
    if a !in ages {
      ElementsAppend(keys, a);
      NoDupAppend(keys, a);
    }
  }

  /** Counting one more age, and listing it if it is new, keeps the histogram tallying. */
  lemma CountStep(ages: map<int, nat>, keys: seq<int>, base: map<int, nat>, seen: seq<int>, a: int)
    requires Tallies(ages, keys, base, seen)
    ensures Tallies(Counted(ages, a), if a in ages then keys else keys + [a], base, seen + [a])
  {
    CountedFacts(ages, a);
    ListedStep(ages, keys, a);
    ElementsAppend(seen, a);
  }

  /** Non-decreasing order. */
  predicate Ascending(s: seq<int>)
  {
    forall i, j :: 0 <= i < j < |s| ==> s[i] <= s[j]
  }

  /** Strictly increasing order: ascending and without repeats. */
  predicate Increasing(s: seq<int>)
  {
    forall i, j :: 0 <= i < j < |s| ==> s[i] < s[j]
  }

  /** x put in its place in an ascending list. */
  function Insert(s: seq<int>, x: int): (r: seq<int>)
    requires Ascending(s)
    ensures multiset(r) == multiset(s) + multiset{x}
    ensures Ascending(r)
    decreases |s|
  {
    if s == [] || x <= s[0] then [x] + s
    else
      var t := Insert(s[1..], x);
      HeadBelow(s, x, t);
      [s[0]] + t
  }

  /** The head of an ascending list is no larger than anything inserted behind it. */
  lemma HeadBelow(s: seq<int>, x: int, t: seq<int>)
    requires Ascending(s) && s != [] && s[0] < x
    requires multiset(t) == multiset(s[1..]) + multiset{x}
    ensures multiset(s) == multiset{s[0]} + multiset(s[1..])
    ensures forall k :: 0 <= k < |t| ==> s[0] <= t[k]
  {
    assert s == [s[0]] + s[1..];
    forall k | 0 <= k < |t| ensures s[0] <= t[k] {
      assert t[k] in multiset(t);
      assert t[k] == x || t[k] in multiset(s[1..]);
    }
  }

  /** `sort.Sort(sort.IntSlice(...))` on the age list: the same ages, ascending. */
  function SortAges(keys: seq<int>): (s: seq<int>)
    ensures Ascending(s) && multiset(s) == multiset(keys)
  {
    if keys == [] then []
    else
      var n := |keys| - 1;
      assert keys == keys[..n] + [keys[n]];
      Insert(SortAges(keys[..n]), keys[n])
  }

  /** An ascending list without repeats is increasing. */
  lemma AscendingDistinct(s: seq<int>)
    requires Ascending(s) && NoDup(s)
    ensures Increasing(s)
  {
    NoDupIndices(s);
  }

  /** A list without repeats holds each element at most once. */
  lemma {:induction false} AtMostOnce(t: seq<int>)
    requires NoDup(t)
    ensures forall x :: multiset(t)[x] <= 1
  {
    if |t| > 1 {
      var n := |t| - 1;
      AtMostOnce(t[..n]);
      assert t == t[..n] + [t[n]];
    }
  }

  /** A list with the same elements, counted with multiplicity, as one without repeats has none either. */
  lemma SameMultisetDistinct(s: seq<int>, t: seq<int>)
    requires multiset(s) == multiset(t) && NoDup(t)
    ensures NoDup(s) && Elements(s) == Elements(t)
  {
    AtMostOnce(t);
    forall i, j | 0 <= i < j < |s| ensures s[i] != s[j] {
      assert s == s[..j] + [s[j]] + s[j + 1..];
      assert s[i] in s[..j];
      assert multiset(s)[s[j]] == multiset(s[..j])[s[j]] + 1 + multiset(s[j + 1..])[s[j]];
      assert multiset(s[..j])[s[i]] >= 1;
    }
    NoDupIndices(s);
    forall x ensures x in s <==> x in t {
      assert x in s <==> x in multiset(s);
      assert x in t <==> x in multiset(t);
    }
  }
}
