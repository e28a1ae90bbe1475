/**
 Which documents share their canonical text with another one. The text is read
 back up to spelling: escapes work on UTF-16 code units, so an astral code point
 and the two surrogates that spell it are written the same. A document's text is
 its own exactly when no string of it can be respelled in place.
 */
module CanonicalSpelling {
  import opened Basics
  import opened CanonicalJson
  import opened CanonicalReading
  import opened CanonicalMeaning

  // ---------- Strings ----------

  /** A Python string with an astral code point, or with a surrogate pair spelled as two code points. */
  predicate Ambiguous(s: PyStr) {
    exists i :: 0 <= i < |s| && AmbiguousAt(s, i)
  }

  predicate AmbiguousAt(s: PyStr, i: int)
    requires 0 <= i < |s|
  {
    s[i] >= 0x10000 || (i + 1 < |s| && IsHigh(s[i]) && IsLow(s[i + 1]))
  }

  lemma {:induction false} UnitsConcat(s: PyStr, t: PyStr)
    ensures Units(s + t) == Units(s) + Units(t)
  {
    if s == [] {
      assert s + t == t;
    } else {
      UnitsConcat(s[1..], t);
      assert (s + t)[1..] == s[1..] + t;
      Assoc(UnitsOf(s[0]), Units(s[1..]), Units(t));
    }
  }

  lemma {:induction false} UnitsOfPlain(s: PyStr)
    requires forall i :: 0 <= i < |s| ==> s[i] < 0x10000
    ensures |Units(s)| == |s|
    ensures forall i :: 0 <= i < |s| ==> Units(s)[i] == s[i]
  {
    if s != [] {
      UnitsOfPlain(s[1..]);
    }
  }

  /** Respelling a piece of a string with the same code units, but another length, gives another string. */
  lemma Respelled(s: PyStr, i: nat, j: nat, q: PyStr) returns (t: PyStr)
    requires i <= j <= |s|
    requires Units(q) == Units(s[i..j]) && |q| != j - i
    ensures t != s && Units(t) == Units(s)
  {
    t := s[..i] + q + s[j..];
    UnitsOfThree(s[..i], q, s[j..]);
    UnitsOfThree(s[..i], s[i..j], s[j..]);
    assert s == s[..i] + s[i..j] + s[j..];
    assert |t| == |s| - (j - i) + |q|;
  }

  lemma UnitsOfThree(a: PyStr, b: PyStr, c: PyStr)
    ensures Units(a + b + c) == Units(a) + Units(b) + Units(c)
  {
    UnitsConcat(a + b, c);
    UnitsConcat(a, b);
  }

  lemma PairUnits(h: CodePoint, l: CodePoint, c: CodePoint)
    requires IsHigh(h) && IsLow(l)
    requires c == 0x10000 + 0x400 * (h - 0xD800) + (l - 0xDC00)
    ensures Units([h, l]) == [h, l] == Units([c])
  {
    UnitsOfPlain([h, l]);
    assert Units([c]) == UnitsOf(c);
  }

  lemma PairOf(c: CodePoint) returns (h: CodePoint, l: CodePoint)
    requires c >= 0x10000
    ensures IsHigh(h) && IsLow(l) && c == 0x10000 + 0x400 * (h - 0xD800) + (l - 0xDC00)
  {
    h, l := 0xD800 + (c - 0x10000) / 0x400, 0xDC00 + (c - 0x10000) % 0x400;
  }

  /** An ambiguous string shares its code units with another string. */
  lemma AmbiguousTwin(s: PyStr, i: nat) returns (t: PyStr)
    requires i < |s| && AmbiguousAt(s, i)
    ensures t != s && Units(t) == Units(s)
  {
    if s[i] >= 0x10000 {
      var h, l := PairOf(s[i]);
      PairUnits(h, l, s[i]);
      assert s[i..i + 1] == [s[i]];
      t := Respelled(s, i, i + 1, [h, l]);
    } else {
      var c: CodePoint := 0x10000 + 0x400 * (s[i] - 0xD800) + (s[i + 1] - 0xDC00);
      PairUnits(s[i], s[i + 1], c);
      assert s[i..i + 2] == [s[i], s[i + 1]];
      t := Respelled(s, i, i + 2, [c]);
    }
  }

  /** An astral code point leaves an adjacent surrogate pair in the units. */
  lemma AstralLeavesPair(t: PyStr, i: nat) returns (k: nat)
    requires i < |t| && t[i] >= 0x10000
    ensures k + 1 < |Units(t)| && IsHigh(Units(t)[k]) && IsLow(Units(t)[k + 1])
  {
    k := |Units(t[..i])|;
    assert t == t[..i] + t[i..];
    UnitsConcat(t[..i], t[i..]);
    assert Units(t[i..]) == UnitsOf(t[i]) + Units(t[i..][1..]);
  }

  /**
   The text of a string is the text of another string exactly when the string
   holds an astral code point or a surrogate pair spelled as two code points.
   */
  lemma StringTextShared(s: PyStr)
    ensures (exists t: PyStr :: t != s && Dumps(Str(t)) == Dumps(Str(s))) <==> Ambiguous(s)
  {
    if Ambiguous(s) {
      var i :| 0 <= i < |s| && AmbiguousAt(s, i);
      var t := AmbiguousTwin(s, i);
      assert Dumps(Str(t)) == Dumps(Str(s));
    } else {
      forall t: PyStr | Dumps(Str(t)) == Dumps(Str(s)) ensures t == s {
        PrintInjective(ToWire(Str(t)), ToWire(Str(s)));
        UnitsFixPlainString(s, t);
      }
    }
  }

  /** Two different Python strings with one canonical text: a surrogate pair and the code point it spells. */
  lemma SurrogatePairCollides()
    ensures var pair, smile := [0xD83D, 0xDE00], [0x1F600];
      pair != smile && Dumps(Str(pair)) == Dumps(Str(smile)) && Meaning(Str(pair)) != Meaning(Str(smile))
  {
    PairUnits(0xD83D, 0xDE00, 0x1F600);
  }

  // ---------- Documents ----------

  ghost predicate OtherSpelling(s: PyStr, t: PyStr) {
    t != s && Units(t) == Units(s)
  }

  /** Spelled as `t`, the key of member `k` compares with every other key as it did before. */
  ghost predicate KeepsPlace(ms: seq<Member>, k: nat, t: PyStr)
    requires k < |ms|
  {
    forall i :: 0 <= i < |ms| && i != k ==>
      (Less(ms[i].key, t) <==> Less(ms[i].key, ms[k].key)) && (Less(t, ms[i].key) <==> Less(ms[k].key, ms[i].key))
  }

  ghost predicate KeyRespellable(ms: seq<Member>, k: nat)
    requires k < |ms|
  {
    exists t :: OtherSpelling(ms[k].key, t) && KeepsPlace(ms, k, t)
  }

  /** Some string of the document has another spelling; a key, one that does not move it among its neighbours. */
  ghost predicate Respellable(j: Json) {
    match j
    case Str(s) => Ambiguous(s)
    case Arr(items) => exists i :: 0 <= i < |items| && Respellable(items[i])
    case Obj(ms) => exists i :: 0 <= i < |ms| && (Respellable(ms[i].value) || KeyRespellable(ms, i))
    case _ => false
  }

  /** An unambiguous string has one spelling. */
  lemma UnitsFixPlainString(s: PyStr, t: PyStr)
    requires !Ambiguous(s) && Units(t) == Units(s)
    ensures t == s
  {
    forall i | 0 <= i < |s| ensures s[i] < 0x10000 {
      assert !AmbiguousAt(s, i);
    }
    UnitsOfPlain(s);
    forall i | 0 <= i < |t| ensures t[i] < 0x10000 {
      if t[i] >= 0x10000 {
        var k := AstralLeavesPair(t, i);
        assert AmbiguousAt(s, k);
      }
    }
    UnitsOfPlain(t);
  }

  // ---------- A document that cannot be respelled has its text to itself ----------

  /** Two sorted lists of keys with the same code units, place by place. */
  ghost predicate SameUnits(ps: seq<Keyed>, qs: seq<Keyed>) {
    |ps| == |qs| && forall i :: 0 <= i < |ps| ==> Units(ps[i].key) == Units(qs[i].key)
  }

  /** Key `m` of a sorted list can be spelled as `t` between its neighbours. */
  ghost predicate Fits(ps: seq<Keyed>, m: nat, t: PyStr)
    requires m < |ps|
  {
    && OtherSpelling(ps[m].key, t)
    && (forall i :: 0 <= i < m ==> Less(ps[i].key, t))
    && (forall i :: m < i < |ps| ==> Less(t, ps[i].key))
  }

  lemma {:induction false} LastRaised(ps: seq<Keyed>, qs: seq<Keyed>, k: nat) returns (m: nat)
    requires |ps| == |qs| && k < |ps| && Less(ps[k].key, qs[k].key)
    ensures m < |ps| && Less(ps[m].key, qs[m].key)
    ensures m + 1 < |ps| ==> !Less(ps[m + 1].key, qs[m + 1].key)
    decreases |ps| - k
  {
    if k + 1 < |ps| && Less(ps[k + 1].key, qs[k + 1].key) {
      m := LastRaised(ps, qs, k + 1);
    } else {
      m := k;
    }
  }

  lemma {:induction false} FirstLowered(ps: seq<Keyed>, qs: seq<Keyed>, k: nat) returns (m: nat)
    requires |ps| == |qs| && k < |ps| && Less(qs[k].key, ps[k].key)
    ensures m < |ps| && Less(qs[m].key, ps[m].key)
    ensures m > 0 ==> !Less(qs[m - 1].key, ps[m - 1].key)
    decreases k
  {
    if k > 0 && Less(qs[k - 1].key, ps[k - 1].key) {
      m := FirstLowered(ps, qs, k - 1);
    } else {
      m := k;
    }
  }

  /** Raising the last key that another sorted respelling raises keeps it below its successor. */
  lemma RaisedFits(ps: seq<Keyed>, qs: seq<Keyed>, m: nat)
    requires StrictlySorted(ps) && StrictlySorted(qs) && SameUnits(ps, qs)
    requires m < |ps| && Less(ps[m].key, qs[m].key)
    requires m + 1 < |ps| ==> !Less(ps[m + 1].key, qs[m + 1].key)
    ensures Fits(ps, m, qs[m].key)
  {
    var t := qs[m].key;
    LessIrreflexive(t);
    forall i | 0 <= i < m ensures Less(ps[i].key, t) {
      LessTransitive(ps[i].key, ps[m].key, t);
    }
    forall i | m < i < |ps| ensures Less(t, ps[i].key) {
      LessTotal(ps[m + 1].key, qs[m + 1].key);
      if qs[m + 1].key != ps[m + 1].key {
        LessTransitive(t, qs[m + 1].key, ps[m + 1].key);
      }
      if i > m + 1 {
        LessTransitive(t, ps[m + 1].key, ps[i].key);
      }
    }
  }

  /** Lowering the first key that another sorted respelling lowers keeps it above its predecessor. */
  lemma LoweredFits(ps: seq<Keyed>, qs: seq<Keyed>, m: nat)
    requires StrictlySorted(ps) && StrictlySorted(qs) && SameUnits(ps, qs)
    requires m < |ps| && Less(qs[m].key, ps[m].key)
    requires m > 0 ==> !Less(qs[m - 1].key, ps[m - 1].key)
    ensures Fits(ps, m, qs[m].key)
  {
    var t := qs[m].key;
    LessIrreflexive(t);
    forall i | m < i < |ps| ensures Less(t, ps[i].key) {
      LessTransitive(t, ps[m].key, ps[i].key);
    }
    forall i | 0 <= i < m ensures Less(ps[i].key, t) {
      LessTotal(ps[m - 1].key, qs[m - 1].key);
      if qs[m - 1].key != ps[m - 1].key {
        LessTransitive(ps[m - 1].key, qs[m - 1].key, t);
      }
      if i < m - 1 {
        LessTransitive(ps[i].key, ps[m - 1].key, t);
      }
    }
  }

  /** If a sorted list of keys can be respelled at all and stay sorted, one of its keys can be respelled alone. */
  lemma OneKeySuffices(ps: seq<Keyed>, qs: seq<Keyed>, k: nat) returns (m: nat)
    requires StrictlySorted(ps) && StrictlySorted(qs) && SameUnits(ps, qs)
    requires k < |ps| && ps[k].key != qs[k].key
    ensures m < |ps| && Fits(ps, m, qs[m].key)
  {
    LessTotal(ps[k].key, qs[k].key);
    if Less(ps[k].key, qs[k].key) {
      m := LastRaised(ps, qs, k);
      RaisedFits(ps, qs, m);
    } else {
      m := FirstLowered(ps, qs, k);
      LoweredFits(ps, qs, m);
    }
  }

  lemma LessAsymmetric(a: PyStr, b: PyStr)
    requires Less(a, b)
    ensures !Less(b, a)
  {
    if Less(b, a) {
      LessTransitive(a, b, a);
      LessIrreflexive(a);
    }
  }

  lemma FitsCompares(ks: seq<Keyed>, m: nat, t: PyStr, j: nat)
    requires StrictlySorted(ks) && m < |ks| && Fits(ks, m, t) && j < |ks| && j != m
    ensures Less(ks[j].key, t) <==> Less(ks[j].key, ks[m].key)
    ensures Less(t, ks[j].key) <==> Less(ks[m].key, ks[j].key)
  {
    if j < m {
      LessAsymmetric(ks[j].key, t);
      LessAsymmetric(ks[j].key, ks[m].key);
    } else {
      LessAsymmetric(t, ks[j].key);
      LessAsymmetric(ks[m].key, ks[j].key);
    }
  }

  /** What fits between the neighbours in sorted order keeps its place in the dictionary. */
  // Default induction over the dictionary gets in the way in the next two lemmas.
  lemma {:induction false} FitsKeepsPlace(ms: seq<Member>, k: nat, m: nat, t: PyStr)
    requires DistinctKeys(ms) && k < |ms|
    requires var ks := SortByKey(MembersToWire(ms)); m < |ks| && ks[m].key == ms[k].key && Fits(ks, m, t)
    ensures KeyRespellable(ms, k)
  {
    var ps := MembersToWire(ms);
    var ks := SortByKey(ps);
    SortIsSorted(ps);
    forall i | 0 <= i < |ms| && i != k
      ensures Less(ms[i].key, t) <==> Less(ms[i].key, ms[k].key)
      ensures Less(t, ms[i].key) <==> Less(ms[k].key, ms[i].key)
    {
      var j := Counterpart(ps, ks, i);
      FitsCompares(ks, m, t, j);
    }
    assert OtherSpelling(ms[k].key, t) && KeepsPlace(ms, k, t);
  }

  /** Dictionaries with one wire form have the same sorted members, or a key of the first can be respelled. */
  lemma {:induction false} SameSortedMembers(ms: seq<Member>, ns: seq<Member>)
    requires DistinctKeys(ms) && DistinctKeys(ns)
    requires WireMembers(SortByKey(MembersToWire(ms))) == WireMembers(SortByKey(MembersToWire(ns)))
    requires forall k :: 0 <= k < |ms| ==> !KeyRespellable(ms, k)
    ensures SortByKey(MembersToWire(ms)) == SortByKey(MembersToWire(ns))
  {
    var ps := MembersToWire(ms);
    var ks, ls := SortByKey(ps), SortByKey(MembersToWire(ns));
    SortIsSorted(ps);
    SortIsSorted(MembersToWire(ns));
    forall i | 0 <= i < |ks| ensures Units(ks[i].key) == Units(ls[i].key) && ks[i].value == ls[i].value {
      assert WireMembers(ks)[i] == WireMembers(ls)[i];
    }
    forall i | 0 <= i < |ks| ensures ks[i] == ls[i] {
      if ks[i].key != ls[i].key {
        var m := OneKeySuffices(ks, ls, i);
        var k := Counterpart(ks, ps, m);
        FitsKeepsPlace(ms, k, m, ls[m].key);
      }
    }
  }

  /** A document that cannot be respelled is determined, up to key order, by its wire form. */
  lemma {:induction false} WireFixesMeaning(a: Json, b: Json)
    requires WellFormed(a) && WellFormed(b)
    requires !Respellable(a)
    requires ToWire(a) == ToWire(b)
    ensures Meaning(a) == Meaning(b)
    decreases a
  {
    match a
    case Str(s) => UnitsFixPlainString(s, b.s);
    case Arr(items) =>
      forall i | 0 <= i < |items| ensures Meaning(items[i]) == Meaning(b.items[i]) {
        assert ToWire(items[i]) == ItemsToWire(items)[i];
        WireFixesMeaning(items[i], b.items[i]);
      }
      assert ItemsMeaning(items) == ItemsMeaning(b.items);
    case Obj(ms) =>
      var ns := b.members;
      var ps, qs := MembersToWire(ms), MembersToWire(ns);
      SameSortedMembers(ms, ns);
      SortIsSorted(ps);
      SortIsSorted(qs);
      forall i | 0 <= i < |ms| ensures Matched(ms, i, ns) {
        var j := Counterpart(ps, qs, i);
        WireFixesMeaning(ms[i].value, ns[j].value);
      }
      forall j | 0 <= j < |ns| ensures Matched(ns, j, ms) {
        var i := Counterpart(qs, ps, j);
        WireFixesMeaning(ms[i].value, ns[j].value);
      }
      SameMembers(ms, ns);
    case _ =>
  }

  // ---------- A document that can be respelled shares its text ----------

  lemma RespellValue(ms: seq<Member>, k: nat, v: Json)
    requires WellFormed(Obj(ms)) && k < |ms| && WellFormed(v)
    requires ToWire(v) == ToWire(ms[k].value) && Meaning(v) != Meaning(ms[k].value)
    ensures var ns := ms[k := Member(ms[k].key, v)];
      WellFormed(Obj(ns)) && ToWire(Obj(ns)) == ToWire(Obj(ms)) && Meaning(Obj(ns)) != Meaning(Obj(ms))
  {
    var ns := ms[k := Member(ms[k].key, v)];
    assert MembersToWire(ns) == MembersToWire(ms);
    SamePlacesMeaning(ns, ms);
    assert Meaning(ns[k].value) != Meaning(ms[k].value);
  }

  /** Key `k` of a list can be replaced by `t` without moving among the other keys. */
  ghost predicate Stays(ps: seq<Keyed>, k: nat, t: PyStr)
    requires k < |ps|
  {
    forall i :: 0 <= i < |ps| && i != k ==>
      (Less(ps[i].key, t) <==> Less(ps[i].key, ps[k].key)) && (Less(t, ps[i].key) <==> Less(ps[k].key, ps[i].key))
  }

  lemma StayingKeysDiffer(ps: seq<Keyed>, k: nat, x: Keyed)
    requires KeysDiffer(ps) && k < |ps| && Stays(ps, k, x.key)
    ensures KeysDiffer(ps[k := x])
  {
    LessIrreflexive(x.key);
    forall i | 0 <= i < |ps| && i != k ensures ps[i].key != x.key {
      LessTotal(ps[i].key, ps[k].key);
    }
  }

  /** The replaced key stands in sorted order where the old one stood. */
  lemma ReplacedStaysSorted(ps: seq<Keyed>, ks: seq<Keyed>, k: nat, m: nat, x: Keyed, qs: seq<Keyed>, ls: seq<Keyed>)
    requires KeysDiffer(ps) && k < |ps| && Stays(ps, k, x.key)
    requires StrictlySorted(ks) && (forall y :: y in ks <==> y in ps) && m < |ks| && ks[m] == ps[k]
    requires qs == ps[k := x] && ls == ks[m := x]
    ensures StrictlySorted(ls) && forall y :: y in ls <==> y in qs
  {
    LessIrreflexive(ps[k].key);
    assert qs[k] == x && ls[m] == x;
    forall j | 0 <= j < |ks| && j != m
      ensures ls[j] in qs && (j < m ==> Less(ls[j].key, x.key)) && (m < j ==> Less(x.key, ls[j].key))
    {
      var i := Counterpart(ks, ps, j);
      assert i != k;
      assert qs[i] == ls[j];
    }
    forall i | 0 <= i < |ps| && i != k ensures qs[i] in ls {
      var j := Counterpart(ps, ks, i);
      assert j != m;
      assert ls[j] == qs[i];
    }
  }

  lemma ReplacedSort(ps: seq<Keyed>, k: nat, x: Keyed)
    requires KeysDiffer(ps) && k < |ps| && Stays(ps, k, x.key)
    requires x.value == ps[k].value && Units(x.key) == Units(ps[k].key)
    ensures KeysDiffer(ps[k := x]) && WireMembers(SortByKey(ps[k := x])) == WireMembers(SortByKey(ps))
  {
    var ks := SortByKey(ps);
    StayingKeysDiffer(ps, k, x);
    SortIsSorted(ps);
    SortIsSorted(ps[k := x]);
    var m := Counterpart(ps, ks, k);
    ReplacedStaysSorted(ps, ks, k, m, x, ps[k := x], ks[m := x]);
    SortedUnique(SortByKey(ps[k := x]), ks[m := x]);
    assert WireMembers(ks[m := x]) == WireMembers(ks);
  }

  lemma RespellKey(ms: seq<Member>, k: nat, t: PyStr)
    requires WellFormed(Obj(ms)) && k < |ms|
    requires OtherSpelling(ms[k].key, t) && KeepsPlace(ms, k, t)
    ensures var ns := ms[k := Member(t, ms[k].value)];
      WellFormed(Obj(ns)) && ToWire(Obj(ns)) == ToWire(Obj(ms)) && Meaning(Obj(ns)) != Meaning(Obj(ms))
  {
    var ns := ms[k := Member(t, ms[k].value)];
    var ps, x := MembersToWire(ms), Keyed(t, ToWire(ms[k].value));
    assert MembersToWire(ns) == ps[k := x];
    ReplacedSort(ps, k, x);
    forall i | 0 <= i < |ms| ensures ms[i].key != t {
      if i != k {
        LessTotal(ms[i].key, ms[k].key);
        LessIrreflexive(t);
      }
    }
    NewKeyMeansOther(ms, k, t);
  }

  lemma NewKeyMeansOther(ms: seq<Member>, k: nat, t: PyStr)
    requires DistinctKeys(ms) && k < |ms|
    requires forall i :: 0 <= i < |ms| ==> ms[i].key != t
    ensures var ns := ms[k := Member(t, ms[k].value)];
      DistinctKeys(ns) && MembersMeaning(ns) != MembersMeaning(ms)
  {
    var ns := ms[k := Member(t, ms[k].value)];
    MembersMeaningAt(ms);
    MembersMeaningAt(ns);
    assert ns[k].key in MembersMeaning(ns) && t !in MembersMeaning(ms);
  }

  /** Another document with the same wire form. */
  lemma {:induction false} Respell(a: Json) returns (b: Json)
    requires WellFormed(a) && Respellable(a)
    ensures WellFormed(b) && ToWire(b) == ToWire(a) && Meaning(b) != Meaning(a)
    decreases a
  {
    match a
    case Str(s) =>
      var i :| 0 <= i < |s| && AmbiguousAt(s, i);
      var t := AmbiguousTwin(s, i);
      b := Str(t);
    case Arr(items) =>
      var i :| 0 <= i < |items| && Respellable(items[i]);
      var v := Respell(items[i]);
      b := Arr(items[i := v]);
    case Obj(ms) =>
      var k :| 0 <= k < |ms| && (Respellable(ms[k].value) || KeyRespellable(ms, k));
      if Respellable(ms[k].value) {
        var v := Respell(ms[k].value);
        RespellValue(ms, k, v);
        b := Obj(ms[k := Member(ms[k].key, v)]);
      } else {
        b := RespellSomeKey(ms, k);
      }
  }

  lemma RespellSomeKey(ms: seq<Member>, k: nat) returns (b: Json)
    requires WellFormed(Obj(ms)) && k < |ms| && KeyRespellable(ms, k)
    ensures WellFormed(b) && ToWire(b) == ToWire(Obj(ms)) && Meaning(b) != Meaning(Obj(ms))
  {
    var t :| OtherSpelling(ms[k].key, t) && KeepsPlace(ms, k, t);
    RespellKey(ms, k, t);
    b := Obj(ms[k := Member(t, ms[k].value)]);
  }

  // ---------- Main results ----------

  ghost predicate SharesText(a: Json, b: Json) {
    WellFormed(b) && Meaning(b) != Meaning(a) && Dumps(b) == Dumps(a)
  }

  /** A document shares its text with a different one exactly when it can be respelled. */
  lemma TextSharedIffRespellable(a: Json)
    requires WellFormed(a)
    ensures (exists b :: SharesText(a, b)) <==> Respellable(a)
  {
    if Respellable(a) {
      var b := Respell(a);
      assert SharesText(a, b);
    } else {
      forall b ensures !SharesText(a, b) {
        if SharesText(a, b) {
          CanonicalTextIdentifiesValue(a, b);
        }
      }
    }
  }

  /** The text of a document that cannot be respelled determines it up to key order, among all documents. */
  lemma {:induction false} CanonicalTextIdentifiesValue(a: Json, b: Json)
    requires WellFormed(a) && WellFormed(b)
    requires !Respellable(a)
    ensures Dumps(a) == Dumps(b) <==> Meaning(a) == Meaning(b)
  {
    if Dumps(a) == Dumps(b) {
      PrintInjective(ToWire(a), ToWire(b));
      WireFixesMeaning(a, b);
    }
    if Meaning(a) == Meaning(b) {
      MeaningFixesWire(a, b);
    }
  }

  /** No string of the document, key or value, is ambiguous. */
  ghost predicate Plain(j: Json) {
    match j
    case Str(s) => !Ambiguous(s)
    case Arr(items) => forall i :: 0 <= i < |items| ==> Plain(items[i])
    case Obj(ms) => forall i :: 0 <= i < |ms| ==> Plain(ms[i].value) && !Ambiguous(ms[i].key)
    case _ => true
  }

  /** A document without ambiguous strings cannot be respelled. */
  lemma {:induction false} PlainIsNotRespellable(j: Json)
    requires Plain(j)
    ensures !Respellable(j)
  {
    match j
    case Arr(items) =>
      forall i | 0 <= i < |items| ensures !Respellable(items[i]) {
        PlainIsNotRespellable(items[i]);
      }
    case Obj(ms) =>
      forall i | 0 <= i < |ms| ensures !Respellable(ms[i].value) && !KeyRespellable(ms, i) {
        PlainIsNotRespellable(ms[i].value);
        PlainKeyStays(ms, i);
      }
    case _ =>
  }

  lemma PlainKeyStays(ms: seq<Member>, k: nat)
    requires k < |ms| && !Ambiguous(ms[k].key)
    ensures !KeyRespellable(ms, k)
  {
    forall t ensures !OtherSpelling(ms[k].key, t) {
      if Units(t) == Units(ms[k].key) {
        UnitsFixPlainString(ms[k].key, t);
      }
    }
  }
}
