/** Small shared vocabulary: optional values and a few facts about sequences. */
module Basics {

  datatype Option<+T> = None | Some(value: T)

  /** Truth of an optional string in Python and JavaScript: present and not empty. */
  predicate Truthy(s: Option<string>) {
    s.Some? && s.value != ""
  }

  ghost predicate Distinct<T>(s: seq<T>) {
    forall i, j :: 0 <= i < j < |s| ==> s[i] != s[j]
  }

  /** Pigeonhole: a duplicate-free sequence drawn from a finite set is no longer than the set. */
  lemma {:induction false} DistinctFits<T>(s: seq<T>, universe: set<T>)
    requires Distinct(s)
    requires forall x :: x in s ==> x in universe
    ensures |s| <= |universe|
  {
    if s != [] {
      var last := s[|s| - 1];
      assert last in s;
      DistinctFits(s[..|s| - 1], universe - {last});
    }
  }

  /** A value at two positions has multiplicity at least two. */
  lemma TwiceInMultiset<T>(s: seq<T>, i: nat, j: nat)
    requires i < j < |s|
    requires s[i] == s[j]
    ensures multiset(s)[s[i]] >= 2
  {
    assert s == s[..j] + s[j..];
    assert s[i] in s[..j];
    assert s[j] in s[j..];
  }

  /** A value found once, at a known position, has multiplicity one. */
  lemma OnceInMultiset<T>(s: seq<T>, i: nat)
    requires i < |s|
    requires forall j :: 0 <= j < |s| && j != i ==> s[j] != s[i]
    ensures multiset(s)[s[i]] == 1
  {
    assert s == s[..i] + [s[i]] + s[i + 1..];
    assert s[i] !in s[..i];
    assert s[i] !in s[i + 1..];
  }

  function Without<T>(es: seq<T>, d: nat): seq<T>
    requires d < |es|
  {
    es[..d] + es[d + 1..]
  }

  lemma WithoutIsSmaller<T>(es: seq<T>, d: nat)
    requires d < |es|
    ensures multiset(Without(es, d)) <= multiset(es)
  {
    assert es == es[..d] + [es[d]] + es[d + 1..];
  }

  lemma Assoc<T>(a: seq<T>, b: seq<T>, c: seq<T>)
    ensures (a + b) + c == a + (b + c)
  {
  }
}
