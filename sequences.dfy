/**
 * Sequence helpers shared by both components: first-occurrence lookup and the
 * order-preserving de-duplication that `[...new Set(xs)]` and
 * `Array.from(new Set(xs))` perform in JavaScript (a Set iterates in
 * insertion order, and inserting a value already present changes nothing).
 */
module Sequences {

  /** No element occurs twice. */
  ghost predicate NoDuplicates<T>(s: seq<T>)
  {
    forall i, j :: 0 <= i < j < |s| ==> s[i] != s[j]
  }

  /** Dropping the last element keeps a sequence free of duplicates, and the last element is not in the rest. */
  lemma NoDuplicatesFront<T>(s: seq<T>)
    requires |s| > 0 && NoDuplicates(s)
    ensures NoDuplicates(s[..|s| - 1]) && s[|s| - 1] !in s[..|s| - 1]
  {
  }

  lemma AppendAssociative<T>(a: seq<T>, b: seq<T>, c: seq<T>)
    ensures (a + b) + c == a + (b + c)
  {
  }

  /** An element of a non-empty sequence is in its front or is its last element. */
  lemma InFrontOrLast<T>(s: seq<T>, x: T)
    requires |s| > 0
    ensures x in s <==> x in s[..|s| - 1] || x == s[|s| - 1]
  {
    assert s == s[..|s| - 1] + [s[|s| - 1]];
  }

  /** The position of the first occurrence of `x` in `s`. */
  function IndexOf<T(==)>(s: seq<T>, x: T): (i: nat)
    requires x in s
    ensures i < |s| && s[i] == x
    ensures forall j :: 0 <= j < i ==> s[j] != x
  {
    if s[0] == x then 0 else 1 + IndexOf(s[1..], x)
  }

  /**
   * The elements of `s`, each once, in the order in which they are first seen:
   * the elements are inserted into a Set one by one, from the front.
   */
  function Distinct<T(==)>(s: seq<T>): (r: seq<T>)
    ensures NoDuplicates(r)
    ensures forall i :: 0 <= i < |r| ==> r[i] in s
    ensures forall i :: 0 <= i < |s| ==> s[i] in r
    ensures |r| <= |s|
  {
    if |s| == 0 then []
    else
      var d := Distinct(s[..|s| - 1]);
      assert s == s[..|s| - 1] + [s[|s| - 1]];
      if s[|s| - 1] in d then d else d + [s[|s| - 1]]
  }

  /** Appending an element does not move the first occurrence of anything already present. */
  lemma IndexOfAppend<T>(s: seq<T>, x: T, y: T)
    requires y in s
    ensures IndexOf(s + [x], y) == IndexOf(s, y)
  {
    var k, k' := IndexOf(s + [x], y), IndexOf(s, y);
    assert (s + [x])[k'] == y;
  }

  /** Appending an element not yet present puts its first occurrence at the end. */
  lemma IndexOfAppendNew<T>(s: seq<T>, x: T)
    requires x !in s
    ensures IndexOf(s + [x], x) == |s|
  {
  }

  /** `Distinct(s)` lists the elements by increasing position of their first occurrence in `s`. */
  lemma {:induction false} DistinctFirstSeenOrder<T>(s: seq<T>, i: nat, j: nat)
    requires i < j < |Distinct(s)|
    ensures IndexOf(s, Distinct(s)[i]) < IndexOf(s, Distinct(s)[j])
  {
    var n := |s|;
    var p, x := s[..n - 1], s[n - 1];
    assert s == p + [x];
    var d := Distinct(p);
    assert d[i] in p;
    IndexOfAppend(p, x, d[i]);
    if x in d || j < |d| {
      assert d[j] in p;
      IndexOfAppend(p, x, d[j]);
      DistinctFirstSeenOrder(p, i, j);
    } else {
      IndexOfAppendNew(p, x);
    }
  }

  /** The elements of `s`, each once, by increasing position of first occurrence. */
  ghost predicate FirstSeenListing<T>(s: seq<T>, r: seq<T>)
  {
    && NoDuplicates(r)
    && (forall i :: 0 <= i < |r| ==> r[i] in s)
    && (forall i :: 0 <= i < |s| ==> s[i] in r)
    && forall i, j :: 0 <= i < j < |r| ==> IndexOf(s, r[i]) < IndexOf(s, r[j])
  }

  /** A listing for `p + [x]` with `x` already in `p` is a listing for `p`. */
  lemma ListingOfRepeated<T>(p: seq<T>, x: T, r: seq<T>)
    requires x in p && FirstSeenListing(p + [x], r)
    ensures FirstSeenListing(p, r)
  {
    var s := p + [x];
    forall i | 0 <= i < |r|
      ensures r[i] in p && IndexOf(s, r[i]) == IndexOf(p, r[i])
    {
      assert r[i] in s;
      IndexOfAppend(p, x, r[i]);
    }
    forall i | 0 <= i < |p|
      ensures p[i] in r
    {
      assert p[i] == s[i];
    }
  }

  /** A listing for `p + [x]` with `x` new ends with `x`, and what precedes it is a listing for `p`. */
  lemma ListingOfNew<T>(p: seq<T>, x: T, r: seq<T>)
    requires x !in p && FirstSeenListing(p + [x], r)
    ensures |r| > 0 && r[|r| - 1] == x && FirstSeenListing(p, r[..|r| - 1])
  {
    var s := p + [x];
    assert s[|p|] == x;
    var k :| 0 <= k < |r| && r[k] == x;
    IndexOfAppendNew(p, x);
    var next := if k + 1 < |r| then k + 1 else k;
    assert IndexOf(s, r[k]) <= IndexOf(s, r[next]) < |s|;
    assert k == |r| - 1;
    var r' := r[..|r| - 1];
    forall i | 0 <= i < |r'|
      ensures r'[i] in p && IndexOf(s, r'[i]) == IndexOf(p, r'[i])
    {
      assert r'[i] == r[i] && r[i] in s && r[i] != x;
      IndexOfAppend(p, x, r'[i]);
    }
    forall i | 0 <= i < |p|
      ensures p[i] in r'
    {
      assert p[i] == s[i] && p[i] != x && p[i] in r;
    }
  }

  /** An element is among the distinct elements exactly when it is in the sequence. */
  lemma DistinctMembership<T>(s: seq<T>, x: T)
    ensures x in Distinct(s) <==> x in s
  {
    var d := Distinct(s);
    if x in d {
      var i :| 0 <= i < |d| && d[i] == x;
    }
    if x in s {
      var i :| 0 <= i < |s| && s[i] == x;
    }
  }

  /** How `Distinct` treats one more element. */
  lemma DistinctAppend<T>(p: seq<T>, x: T)
    ensures Distinct(p + [x]) == if x in p then Distinct(p) else Distinct(p) + [x]
  {
    assert (p + [x])[..|p|] == p;
    DistinctMembership(p, x);
  }

  /** Those three properties determine `Distinct(s)`: it is the only such listing. */
  lemma {:induction false} DistinctIsTheFirstSeenListing<T>(s: seq<T>, r: seq<T>)
    requires FirstSeenListing(s, r)
    ensures r == Distinct(s)
    decreases |s|
  {
    if |s| == 0 {
      assert |r| == 0;
    } else {
      var p, x := s[..|s| - 1], s[|s| - 1];
      assert s == p + [x];
      DistinctAppend(p, x);
      if x in p {
        ListingOfRepeated(p, x, r);
        DistinctIsTheFirstSeenListing(p, r);
      } else {
        ListingOfNew(p, x, r);
        DistinctIsTheFirstSeenListing(p, r[..|r| - 1]);
        assert r == r[..|r| - 1] + [x];
      }
    }
  }

  /** `Distinct(s)` is such a listing. */
  lemma DistinctIsFirstSeenListing<T>(s: seq<T>)
    ensures FirstSeenListing(s, Distinct(s))
  {
    forall i, j | 0 <= i < j < |Distinct(s)|
      ensures IndexOf(s, Distinct(s)[i]) < IndexOf(s, Distinct(s)[j])
    {
      DistinctFirstSeenOrder(s, i, j);
    }
  }
}
