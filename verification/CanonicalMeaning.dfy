/**
 Dictionary order never shows in the canonical text: documents that are equal up to
 the order of their keys are written out the same.
 */
module CanonicalMeaning {
  import opened Basics
  import opened CanonicalJson

  // ---------- Sorting by key ----------

  lemma {:induction false} LessTransitive(a: PyStr, b: PyStr, c: PyStr)
    requires Less(a, b) && Less(b, c)
    ensures Less(a, c)
  {
    if a != [] && a[0] == b[0] && b[0] == c[0] {
      LessTransitive(a[1..], b[1..], c[1..]);
    }
  }

  lemma {:induction false} LessIrreflexive(a: PyStr)
    ensures !Less(a, a)
  {
    if a != [] {
      LessIrreflexive(a[1..]);
    }
  }

  lemma {:induction false} LessTotal(a: PyStr, b: PyStr)
    ensures a == b || Less(a, b) || Less(b, a)
  {
    if a != [] && b != [] && a[0] == b[0] {
      LessTotal(a[1..], b[1..]);
      assert a == [a[0]] + a[1..] && b == [b[0]] + b[1..];
    }
  }

  ghost predicate StrictlySorted(ks: seq<Keyed>) {
    forall i, j :: 0 <= i < j < |ks| ==> Less(ks[i].key, ks[j].key)
  }

  ghost predicate KeysDiffer(ks: seq<Keyed>) {
    forall i, j :: 0 <= i < j < |ks| ==> ks[i].key != ks[j].key
  }

  lemma {:induction false} InsertKeepsSorted(k: Keyed, ks: seq<Keyed>)
    requires StrictlySorted(ks)
    requires forall i :: 0 <= i < |ks| ==> ks[i].key != k.key
    ensures StrictlySorted(Insert(k, ks))
    ensures forall x :: x in Insert(k, ks) <==> x == k || x in ks
  {
    if ks == [] {
    } else if Less(k.key, ks[0].key) {
      forall i | 0 < i < |ks| ensures Less(k.key, ks[i].key) {
        LessTransitive(k.key, ks[0].key, ks[i].key);
      }
    } else {
      LessTotal(k.key, ks[0].key);
      InsertKeepsSorted(k, ks[1..]);
      var rest := Insert(k, ks[1..]);
      assert forall i :: 0 <= i < |rest| ==> rest[i] in rest;
      assert ks == [ks[0]] + ks[1..];
    }
  }

  /** Sorting distinct keys gives the same members in strictly increasing order. */
  lemma {:induction false} SortIsSorted(ks: seq<Keyed>)
    requires KeysDiffer(ks)
    ensures StrictlySorted(SortByKey(ks))
    ensures forall x :: x in SortByKey(ks) <==> x in ks
  {
    if ks != [] {
      SortIsSorted(ks[1..]);
      var rest := SortByKey(ks[1..]);
      forall i | 0 <= i < |rest| ensures rest[i].key != ks[0].key {
        assert rest[i] in rest;
      }
      InsertKeepsSorted(ks[0], rest);
      assert ks == [ks[0]] + ks[1..];
    }
  }

  /** A strictly sorted sequence is determined by its members. */
  lemma {:induction false} SortedUnique(ps: seq<Keyed>, qs: seq<Keyed>)
    requires StrictlySorted(ps) && StrictlySorted(qs)
    requires forall x :: x in ps <==> x in qs
    ensures ps == qs
  {
    assert ps != [] ==> ps[0] in ps;
    assert qs != [] ==> qs[0] in qs;
    if ps != [] {
      SameLeast(ps, qs);
      forall x ensures x in ps[1..] <==> x in qs[1..] {
        OnlyFirst(ps, x);
        OnlyFirst(qs, x);
      }
      SortedUnique(ps[1..], qs[1..]);
      assert ps == [ps[0]] + ps[1..] && qs == [qs[0]] + qs[1..];
    }
  }

  lemma OnlyFirst(ps: seq<Keyed>, x: Keyed)
    requires ps != [] && StrictlySorted(ps)
    ensures x in ps[1..] <==> x in ps && x != ps[0]
  {
    LessIrreflexive(ps[0].key);
    assert ps == [ps[0]] + ps[1..];
  }

  lemma SameLeast(ps: seq<Keyed>, qs: seq<Keyed>)
    requires ps != [] && qs != []
    requires StrictlySorted(ps) && StrictlySorted(qs)
    requires forall x :: x in ps <==> x in qs
    ensures ps[0] == qs[0]
  {
    assert ps[0] in qs && qs[0] in ps;
    var i :| 0 <= i < |qs| && qs[i] == ps[0];
    var j :| 0 <= j < |ps| && ps[j] == qs[0];
    if i > 0 && j > 0 {
      LessTransitive(ps[0].key, ps[j].key, ps[0].key);
      LessIrreflexive(ps[0].key);
    }
  }

  /** Where an element of one sequence sits in another with the same elements. */
  lemma Counterpart(ps: seq<Keyed>, qs: seq<Keyed>, i: nat) returns (j: nat)
    requires forall x :: x in ps <==> x in qs
    requires i < |ps|
    ensures j < |qs| && qs[j] == ps[i]
  {
    assert ps[i] in qs;
    j :| 0 <= j < |qs| && qs[j] == ps[i];
  }

  // ---------- Equal values have equal texts ----------

  lemma {:induction false} MembersMeaningAt(ms: seq<Member>)
    requires DistinctKeys(ms)
    ensures forall i :: 0 <= i < |ms| ==> ms[i].key in MembersMeaning(ms) && MembersMeaning(ms)[ms[i].key] == Meaning(ms[i].value)
    ensures forall k :: k in MembersMeaning(ms) ==> exists i :: 0 <= i < |ms| && ms[i].key == k
  {
    if ms != [] {
      MembersMeaningAt(ms[1..]);
      assert forall i :: 0 < i < |ms| ==> ms[i] == ms[1..][i - 1];
      forall k | k in MembersMeaning(ms) ensures exists i :: 0 <= i < |ms| && ms[i].key == k {
        if k != ms[0].key {
          var i :| 0 <= i < |ms[1..]| && ms[1..][i].key == k;
          assert ms[i + 1].key == k;
        }
      }
    }
  }

  /** Some member of `ns` has the key and the value of member `i` of `ms`. */
  ghost predicate Matched(ms: seq<Member>, i: int, ns: seq<Member>)
    requires 0 <= i < |ms|
  {
    exists j :: 0 <= j < |ns| && ns[j].key == ms[i].key && Meaning(ns[j].value) == Meaning(ms[i].value)
  }

  lemma MatchedMeaning(ms: seq<Member>, ns: seq<Member>, k: PyStr)
    requires DistinctKeys(ms) && DistinctKeys(ns)
    requires forall i :: 0 <= i < |ms| ==> Matched(ms, i, ns)
    requires k in MembersMeaning(ms)
    ensures k in MembersMeaning(ns) && MembersMeaning(ns)[k] == MembersMeaning(ms)[k]
  {
    MembersMeaningAt(ms);
    MembersMeaningAt(ns);
    var i :| 0 <= i < |ms| && ms[i].key == k;
    assert Matched(ms, i, ns);
    var j :| 0 <= j < |ns| && ns[j].key == ms[i].key && Meaning(ns[j].value) == Meaning(ms[i].value);
  }

  /** Dictionaries whose members match in both directions are equal. */
  lemma SameMembers(ms: seq<Member>, ns: seq<Member>)
    requires DistinctKeys(ms) && DistinctKeys(ns)
    requires forall i :: 0 <= i < |ms| ==> Matched(ms, i, ns)
    requires forall j :: 0 <= j < |ns| ==> Matched(ns, j, ms)
    ensures MembersMeaning(ms) == MembersMeaning(ns)
  {
    var m, n := MembersMeaning(ms), MembersMeaning(ns);
    forall k | k in m ensures k in n && n[k] == m[k] {
      MatchedMeaning(ms, ns, k);
    }
    forall k | k in n ensures k in m {
      MatchedMeaning(ns, ms, k);
    }
  }

  /** Dictionaries with the same keys in the same places are equal when their values are, place by place. */
  lemma SamePlacesMeaning(ms: seq<Member>, ns: seq<Member>)
    requires DistinctKeys(ms) && DistinctKeys(ns)
    requires |ms| == |ns| && forall i :: 0 <= i < |ms| ==> ms[i].key == ns[i].key
    ensures MembersMeaning(ms) == MembersMeaning(ns) <==>
      forall i :: 0 <= i < |ms| ==> Meaning(ms[i].value) == Meaning(ns[i].value)
  {
    if MembersMeaning(ms) == MembersMeaning(ns) {
      MembersMeaningAt(ms);
      MembersMeaningAt(ns);
    }
    if forall i :: 0 <= i < |ms| ==> Meaning(ms[i].value) == Meaning(ns[i].value) {
      SameMembers(ms, ns);
    }
  }

  /** Where a key of one dictionary sits in an equal dictionary. */
  lemma MatchingMember(ms: seq<Member>, ns: seq<Member>, i: nat) returns (j: nat)
    requires DistinctKeys(ms) && DistinctKeys(ns)
    requires MembersMeaning(ms) == MembersMeaning(ns)
    requires i < |ms|
    ensures j < |ns| && ns[j].key == ms[i].key && Meaning(ns[j].value) == Meaning(ms[i].value)
  {
    MembersMeaningAt(ms);
    MembersMeaningAt(ns);
    j :| 0 <= j < |ns| && ns[j].key == ms[i].key;
  }

  /** Documents that are equal up to key order have equal wire documents. */
  lemma {:induction false} MeaningFixesWire(a: Json, b: Json)
    requires WellFormed(a) && WellFormed(b)
    requires Meaning(a) == Meaning(b)
    ensures ToWire(a) == ToWire(b)
    decreases a
  {
    match a
    case Arr(items) =>
      forall i | 0 <= i < |items| ensures ToWire(items[i]) == ToWire(b.items[i]) {
        assert Meaning(items[i]) == ItemsMeaning(items)[i];
        MeaningFixesWire(items[i], b.items[i]);
      }
      assert ItemsToWire(items) == ItemsToWire(b.items);
    case Obj(ms) =>
      var ps, qs := MembersToWire(ms), MembersToWire(b.members);
      forall i | 0 <= i < |ms| ensures ps[i] in qs {
        var j := MatchingMember(ms, b.members, i);
        MeaningFixesWire(ms[i].value, b.members[j].value);
        assert ps[i] == qs[j];
      }
      forall j | 0 <= j < |b.members| ensures qs[j] in ps {
        var i := MatchingMember(b.members, ms, j);
        MeaningFixesWire(ms[i].value, b.members[j].value);
        assert qs[j] == ps[i];
      }
      SortIsSorted(ps);
      SortIsSorted(qs);
      SortedUnique(SortByKey(ps), SortByKey(qs));
    case _ =>
  }

  /** Key order never shows in the text. */
  lemma EqualValuesHaveEqualTexts(a: Json, b: Json)
    requires WellFormed(a) && WellFormed(b)
    requires Meaning(a) == Meaning(b)
    ensures Dumps(a) == Dumps(b)
  {
    MeaningFixesWire(a, b);
  }
}
