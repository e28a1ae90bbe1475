/**
 The hash-linked audit log (backend/app/kernel/audit.py): entries, the hash that
 seals them, and what it means for a snapshot of the log to be intact.

 SHA-256 is a parameter. Results that rest on its strength do not assume that it
 has no collisions: they exhibit the collision a forger would have needed.
 */
module AuditChain {
  import opened Basics
  import opened CanonicalJson
  import opened JsonReader
  import opened CanonicalReading
  import opened CanonicalMeaning
  import opened CanonicalSpelling

  type Digest = string -> PyStr

  /** `"0" * 64`. */
  const GENESIS_HASH: PyStr := Zeros(64)

  function Zeros(n: nat): PyStr {
    seq(n, (i: nat) => 0x30)
  }

  /** Lowercase hexadecimal digits. */
  predicate IsHex(c: CodePoint) {
    0x30 <= c <= 0x39 || 0x61 <= c <= 0x66
  }

  predicate AllHex(s: PyStr) {
    forall i :: 0 <= i < |s| ==> IsHex(s[i])
  }

  datatype AuditEntry = AuditEntry(
    entryId: PyStr,
    action: PyStr,
    resourceType: PyStr,
    resourceId: Option<PyStr>,
    decision: Option<PyStr>,
    principalId: PyStr,
    payload: PyDict,
    createdAt: PyStr,
    prevHash: PyStr,
    hash: PyStr)

  // ---------- The hash of an entry ----------

  function Point(c: char): CodePoint {
    c as int
  }

  function Ascii(s: string): (r: PyStr)
    ensures |r| == |s|
    ensures forall i :: 0 <= i < |s| ==> r[i] == s[i] as int
  {
    seq(|s|, (i: nat) requires i < |s| => Point(s[i]))
  }

  function Optional(o: Option<PyStr>): Json {
    if o.Some? then Str(o.value) else Null
  }

  /** The hashed fields, in the order in which `_compute_hash` lists them. */
  function FieldNames(): seq<PyStr> {
    [Ascii("entry_id"), Ascii("action"), Ascii("resource_type"), Ascii("resource_id"), Ascii("decision"),
     Ascii("principal_id"), Ascii("payload"), Ascii("created_at"), Ascii("prev_hash")]
  }

  function FieldValues(e: AuditEntry): seq<Json> {
    [Str(e.entryId), Str(e.action), Str(e.resourceType), Optional(e.resourceId), Optional(e.decision),
     Str(e.principalId), Obj(e.payload), Str(e.createdAt), Str(e.prevHash)]
  }

  function Labelled(names: seq<PyStr>, values: seq<Json>): (ms: seq<Member>)
    requires |names| == |values|
    ensures |ms| == |names|
    ensures forall i :: 0 <= i < |names| ==> ms[i] == Member(names[i], values[i])
  {
    if names == [] then [] else [Member(names[0], values[0])] + Labelled(names[1..], values[1..])
  }

  /** The document that is hashed: every field but the hash itself. */
  function HashedDocument(e: AuditEntry): Json {
    Obj(Labelled(FieldNames(), FieldValues(e)))
  }

  function RecomputeHash(digest: Digest, e: AuditEntry): PyStr {
    digest(Dumps(HashedDocument(e)))
  }

  /** Two entries agree on everything the hash covers; payloads may list their keys in another order. */
  ghost predicate SameContent(e: AuditEntry, f: AuditEntry) {
    && e.entryId == f.entryId
    && e.action == f.action
    && e.resourceType == f.resourceType
    && e.resourceId == f.resourceId
    && e.decision == f.decision
    && e.principalId == f.principalId
    && Meaning(Obj(e.payload)) == Meaning(Obj(f.payload))
    && e.createdAt == f.createdAt
    && e.prevHash == f.prevHash
  }

  /** Some hashed field can be respelled: a string with another spelling, or a payload that holds one. */
  ghost predicate Respells(e: AuditEntry) {
    exists i :: 0 <= i < 9 && Respellable(FieldValues(e)[i])
  }

  lemma FieldNamesDiffer()
    ensures Distinct(FieldNames())
  {
    assert Ascii("entry_id")[0] == 'e' as int;
    assert Ascii("decision")[0] == 'd' as int;
  }

  lemma DocumentWellFormed(e: AuditEntry)
    ensures WellFormed(HashedDocument(e))
  {
    FieldNamesDiffer();
    forall i | 0 <= i < 9 ensures WellFormed(FieldValues(e)[i]) {
      FieldIsWellFormed(e, i);
    }
  }

  /** Equal documents have equal fields, and conversely. */
  lemma DocumentMeaning(e: AuditEntry, f: AuditEntry)
    ensures Meaning(HashedDocument(e)) == Meaning(HashedDocument(f)) <==> SameContent(e, f)
  {
    var ms, ns := Labelled(FieldNames(), FieldValues(e)), Labelled(FieldNames(), FieldValues(f));
    FieldNamesDiffer();
    SamePlacesMeaning(ms, ns);
    SameContentIffSameValues(e, f);
    assert SameValues(e, f) <==> forall i :: 0 <= i < |ms| ==> Meaning(ms[i].value) == Meaning(ns[i].value);
  }

  function OptionalValue(o: Option<PyStr>): Value {
    match o
    case Some(s) => VStr(s)
    case None => VNull
  }

  /** The nine fields under their names, as Python would have them in a dictionary. */
  function EntryValue(e: AuditEntry): Value {
    VObj(map[
      Ascii("entry_id") := VStr(e.entryId),
      Ascii("action") := VStr(e.action),
      Ascii("resource_type") := VStr(e.resourceType),
      Ascii("resource_id") := OptionalValue(e.resourceId),
      Ascii("decision") := OptionalValue(e.decision),
      Ascii("principal_id") := VStr(e.principalId),
      Ascii("payload") := Meaning(Obj(e.payload)),
      Ascii("created_at") := VStr(e.createdAt),
      Ascii("prev_hash") := VStr(e.prevHash)])
  }

  function Nine(names: seq<PyStr>, vs: seq<Value>): map<PyStr, Value>
    requires |names| == |vs| == 9
  {
    map[names[0] := vs[0], names[1] := vs[1], names[2] := vs[2], names[3] := vs[3], names[4] := vs[4],
        names[5] := vs[5], names[6] := vs[6], names[7] := vs[7], names[8] := vs[8]]
  }

  lemma NineHas(names: seq<PyStr>, vs: seq<Value>, i: nat)
    requires |names| == |vs| == 9 && Distinct(names) && i < 9
    ensures names[i] in Nine(names, vs) && Nine(names, vs)[names[i]] == vs[i]
  {
  }

  lemma DocumentValue(e: AuditEntry)
    ensures Meaning(HashedDocument(e)) == EntryValue(e)
  {
    var ms, names := Labelled(FieldNames(), FieldValues(e)), FieldNames();
    var vs := [VStr(e.entryId), VStr(e.action), VStr(e.resourceType), OptionalValue(e.resourceId), OptionalValue(e.decision),
               VStr(e.principalId), Meaning(Obj(e.payload)), VStr(e.createdAt), VStr(e.prevHash)];
    FieldNamesDiffer();
    assert EntryValue(e).members == Nine(names, vs);
    forall i | 0 <= i < 9 ensures ms[i].key in Nine(names, vs) && Nine(names, vs)[ms[i].key] == Meaning(ms[i].value) {
      NineHas(names, vs, i);
    }
    forall key | key in Nine(names, vs) ensures exists i :: 0 <= i < 9 && ms[i].key == key {
      var i :| 0 <= i < 9 && names[i] == key;
      assert ms[i].key == key;
    }
    IsMembersMeaning(ms, Nine(names, vs));
  }

  /**
   What is hashed: a text without whitespace which any JSON reader reads as the nine
   fields under their names, with ascending keys, unless some astral character in
   them is spelled as two surrogates.
   */
  lemma HashedTextReads(digest: Digest, e: AuditEntry)
    requires SplitFree(EntryValue(e))
    ensures exists text ::
      && RecomputeHash(digest, e) == digest(text)
      && Loads(text) == Some(EntryValue(e)) && KeysAscend(ReadValue(text).value.value)
  {
    DocumentWellFormed(e);
    DocumentValue(e);
    CanonicalTextReads(HashedDocument(e));
    assert RecomputeHash(digest, e) == digest(Dumps(HashedDocument(e)));
  }

  /** Sixty-four zero digits. */
  lemma GenesisIsZeros()
    ensures |GENESIS_HASH| == 64 && forall i :: 0 <= i < 64 ==> GENESIS_HASH[i] == '0' as int
  {
  }

  ghost predicate SameValues(e: AuditEntry, f: AuditEntry) {
    forall i :: 0 <= i < 9 ==> Meaning(FieldValues(e)[i]) == Meaning(FieldValues(f)[i])
  }

  lemma SameContentIffSameValues(e: AuditEntry, f: AuditEntry)
    ensures SameValues(e, f) <==> SameContent(e, f)
  {
    var a, b := FieldValues(e), FieldValues(f);
    assert SameValues(e, f) <==>
      (Meaning(a[0]) == Meaning(b[0]) && Meaning(a[1]) == Meaning(b[1]) && Meaning(a[2]) == Meaning(b[2]) &&
       Meaning(a[3]) == Meaning(b[3]) && Meaning(a[4]) == Meaning(b[4]) && Meaning(a[5]) == Meaning(b[5]) &&
       Meaning(a[6]) == Meaning(b[6]) && Meaning(a[7]) == Meaning(b[7]) && Meaning(a[8]) == Meaning(b[8]));
  }

  /** Entries with the same hashed content have the same hash, under any digest. */
  lemma SameContentSameHash(digest: Digest, e: AuditEntry, f: AuditEntry)
    requires SameContent(e, f)
    ensures RecomputeHash(digest, e) == RecomputeHash(digest, f)
  {
    DocumentWellFormed(e);
    DocumentWellFormed(f);
    DocumentMeaning(e, f);
    EqualValuesHaveEqualTexts(HashedDocument(e), HashedDocument(f));
  }

  /** Two different texts with one digest. */
  ghost predicate Collision(digest: Digest, x: string, y: string) {
    x != y && digest(x) == digest(y)
  }

  ghost predicate SameFieldWires(e: AuditEntry, f: AuditEntry) {
    forall i :: 0 <= i < 9 ==> ToWire(FieldValues(e)[i]) == ToWire(FieldValues(f)[i])
  }

  lemma FieldNamesArePlain(i: nat)
    requires i < 9
    ensures !Ambiguous(FieldNames()[i])
  {
    var name := FieldNames()[i];
    forall j | 0 <= j < |name| ensures name[j] < 0x80 {}
  }

  /** Dictionaries with the same plain keys in the same places are written out the same only if their values are. */
  lemma SamePlacesWire(ms: seq<Member>, ns: seq<Member>, i: nat)
    requires DistinctKeys(ms) && DistinctKeys(ns)
    requires |ms| == |ns| && forall k :: 0 <= k < |ms| ==> ms[k].key == ns[k].key && !Ambiguous(ms[k].key)
    requires ToWire(Obj(ms)) == ToWire(Obj(ns)) && i < |ms|
    ensures ToWire(ms[i].value) == ToWire(ns[i].value)
  {
    var ps, qs := MembersToWire(ms), MembersToWire(ns);
    forall k | 0 <= k < |ms| ensures !KeyRespellable(ms, k) {
      PlainKeyStays(ms, k);
    }
    SameSortedMembers(ms, ns);
    SortIsSorted(ps);
    SortIsSorted(qs);
    var j := Counterpart(ps, qs, i);
    assert ns[j].key == ns[i].key;
  }

  /** Two entries have the same canonical text exactly when each field is written the same. */
  lemma SameTextIffSameFieldWires(e: AuditEntry, f: AuditEntry)
    ensures Dumps(HashedDocument(e)) == Dumps(HashedDocument(f)) <==> SameFieldWires(e, f)
  {
    var ms, ns := Labelled(FieldNames(), FieldValues(e)), Labelled(FieldNames(), FieldValues(f));
    FieldNamesDiffer();
    if Dumps(HashedDocument(e)) == Dumps(HashedDocument(f)) {
      PrintInjective(ToWire(Obj(ms)), ToWire(Obj(ns)));
      forall i | 0 <= i < 9 ensures !Ambiguous(ms[i].key) {
        FieldNamesArePlain(i);
      }
      forall i | 0 <= i < 9 ensures ToWire(FieldValues(e)[i]) == ToWire(FieldValues(f)[i]) {
        SamePlacesWire(ms, ns, i);
      }
    }
    if SameFieldWires(e, f) {
      assert MembersToWire(ms) == MembersToWire(ns);
    }
  }

  lemma FieldIsWellFormed(e: AuditEntry, i: nat)
    requires i < 9
    ensures WellFormed(FieldValues(e)[i])
  {
    assert WellFormed(Obj(e.payload));
  }

  lemma DifferingField(e: AuditEntry, f: AuditEntry) returns (i: nat)
    requires !SameContent(e, f)
    ensures i < 9 && Meaning(FieldValues(e)[i]) != Meaning(FieldValues(f)[i])
  {
    SameContentIffSameValues(e, f);
    i :| 0 <= i < 9 && Meaning(FieldValues(e)[i]) != Meaning(FieldValues(f)[i]);
  }

  lemma WrittenAlikeIsRespellable(a: Json, b: Json)
    requires WellFormed(a) && WellFormed(b)
    requires ToWire(a) == ToWire(b) && Meaning(a) != Meaning(b)
    ensures Respellable(a)
  {
    if !Respellable(a) {
      WireFixesMeaning(a, b);
    }
  }

  /** Entries that have the same text but not the same content differ in the spelling of some field. */
  lemma SameTextOtherContent(e: AuditEntry, f: AuditEntry)
    requires Dumps(HashedDocument(e)) == Dumps(HashedDocument(f)) && !SameContent(e, f)
    ensures Respells(e)
  {
    SameTextIffSameFieldWires(e, f);
    var i := DifferingField(e, f);
    FieldIsWellFormed(e, i);
    FieldIsWellFormed(f, i);
    WrittenAlikeIsRespellable(FieldValues(e)[i], FieldValues(f)[i]);
  }

  /**
   An entry of which nothing can be respelled has its hash to itself: any entry with
   different content has a different hash, or the digest has collided on the two.
   */
  lemma DifferentContentCollides(digest: Digest, e: AuditEntry, f: AuditEntry)
    requires !Respells(e) && !SameContent(e, f)
    requires RecomputeHash(digest, e) == RecomputeHash(digest, f)
    ensures Collision(digest, Dumps(HashedDocument(f)), Dumps(HashedDocument(e)))
  {
    if Dumps(HashedDocument(e)) == Dumps(HashedDocument(f)) {
      SameTextOtherContent(e, f);
    }
  }

  /** Field `k` of an entry replaced by a document: a dictionary for the payload, a string for any other. */
  function WithField(e: AuditEntry, k: nat, v: Json): AuditEntry
    requires k < 9 && WellFormed(v) && if k == 6 then v.Obj? else v.Str?
  {
    match k
    case 0 => e.(entryId := v.s)
    case 1 => e.(action := v.s)
    case 2 => e.(resourceType := v.s)
    case 3 => e.(resourceId := Some(v.s))
    case 4 => e.(decision := Some(v.s))
    case 5 => e.(principalId := v.s)
    case 6 => e.(payload := v.members)
    case 7 => e.(createdAt := v.s)
    case 8 => e.(prevHash := v.s)
  }

  lemma RespelledKind(e: AuditEntry, k: nat, v: Json)
    requires k < 9 && Respellable(FieldValues(e)[k]) && ToWire(v) == ToWire(FieldValues(e)[k])
    ensures if k == 6 then v.Obj? else v.Str?
  {
    var field := FieldValues(e)[k];
    assert if k == 6 then field.Obj? else field.Str? || field.Null?;
  }

  lemma WithFieldValues(e: AuditEntry, k: nat, v: Json)
    requires k < 9 && WellFormed(v) && if k == 6 then v.Obj? else v.Str?
    ensures FieldValues(WithField(e, k, v)) == FieldValues(e)[k := v]
    ensures WithField(e, k, v).hash == e.hash && (k != 8 ==> WithField(e, k, v).prevHash == e.prevHash)
  {
    var f := WithField(e, k, v);
    assert FieldValues(f)[k] == v;
    forall i | 0 <= i < 9 && i != k ensures FieldValues(f)[i] == FieldValues(e)[i] {}
  }

  lemma RespelledField(e: AuditEntry, k: nat, v: Json)
    requires k < 9 && WellFormed(v) && if k == 6 then v.Obj? else v.Str?
    requires ToWire(v) == ToWire(FieldValues(e)[k])
    requires Meaning(v) != Meaning(FieldValues(e)[k])
    ensures var f := WithField(e, k, v);
      !SameContent(f, e) && Dumps(HashedDocument(f)) == Dumps(HashedDocument(e))
  {
    var f := WithField(e, k, v);
    WithFieldValues(e, k, v);
    assert SameFieldWires(f, e);
    SameTextIffSameFieldWires(f, e);
    assert Meaning(FieldValues(f)[k]) != Meaning(FieldValues(e)[k]);
    SameContentIffSameValues(f, e);
  }

  // ---------- An intact snapshot ----------

  ghost predicate HashesDistinct(es: seq<AuditEntry>) {
    forall i, j :: 0 <= i < j < |es| ==> es[i].hash != es[j].hash
  }

  ghost predicate HasHash(es: seq<AuditEntry>, h: PyStr) {
    exists i :: 0 <= i < |es| && es[i].hash == h
  }

  /** From `h`, at most `n` steps to predecessors inside the snapshot lead to genesis. */
  ghost predicate ReachesWithin(es: seq<AuditEntry>, h: PyStr, n: nat)
    decreases n
  {
    h == GENESIS_HASH ||
    (n > 0 && exists i :: 0 <= i < |es| && es[i].hash == h && ReachesWithin(es, es[i].prevHash, n - 1))
  }

  /** The predecessor chain of `h` ends at genesis inside the snapshot. */
  ghost predicate Reaches(es: seq<AuditEntry>, h: PyStr) {
    exists n: nat :: ReachesWithin(es, h, n)
  }

  /**
   The verifier's specification: hashes are pairwise distinct, every entry
   recomputes to its stored hash, and every predecessor chain ends at genesis.
   */
  ghost predicate Intact(digest: Digest, es: seq<AuditEntry>) {
    HashesDistinct(es) && AllSealed(digest, es) && AllReach(es)
  }

  ghost predicate AllSealed(digest: Digest, es: seq<AuditEntry>) {
    forall i :: 0 <= i < |es| ==> RecomputeHash(digest, es[i]) == es[i].hash
  }

  ghost predicate AllReach(es: seq<AuditEntry>) {
    forall i :: 0 <= i < |es| ==> Reaches(es, es[i].hash)
  }

  // ---------- Sub-snapshots ----------

  /**
   Every entry's predecessor is genesis or present. An entry that itself carries
   the genesis hash is exempt: walks stop there.
   */
  ghost predicate PredecessorClosed(es: seq<AuditEntry>) {
    forall i :: 0 <= i < |es| ==>
      es[i].hash == GENESIS_HASH || es[i].prevHash == GENESIS_HASH || HasHash(es, es[i].prevHash)
  }

  lemma {:induction false} ReachesMonotone(es: seq<AuditEntry>, h: PyStr, n: nat, m: nat)
    requires n <= m && ReachesWithin(es, h, n)
    ensures ReachesWithin(es, h, m)
    decreases n
  {
    if h != GENESIS_HASH {
      var i :| 0 <= i < |es| && es[i].hash == h && ReachesWithin(es, es[i].prevHash, n - 1);
      ReachesMonotone(es, es[i].prevHash, n - 1, m - 1);
    }
  }

  lemma SubsetIndex(sub: seq<AuditEntry>, es: seq<AuditEntry>, i: nat) returns (j: nat)
    requires multiset(sub) <= multiset(es)
    requires i < |sub|
    ensures j < |es| && es[j] == sub[i]
  {
    assert sub[i] in multiset(sub);
    assert sub[i] in es;
    j :| 0 <= j < |es| && es[j] == sub[i];
  }

  lemma SubsetDistinct(sub: seq<AuditEntry>, es: seq<AuditEntry>)
    requires HashesDistinct(es)
    requires multiset(sub) <= multiset(es)
    ensures HashesDistinct(sub)
  {
    forall i, j | 0 <= i < j < |sub| ensures sub[i].hash != sub[j].hash {
      if sub[i].hash == sub[j].hash {
        var k := SubsetIndex(sub, es, i);
        var l := SubsetIndex(sub, es, j);
        assert k == l;
        TwiceInMultiset(sub, i, j);
        OnceInMultiset(es, k);
      }
    }
  }

  /** Inside a closed sub-snapshot every chain of the whole snapshot can be followed. */
  lemma {:induction false} ClosedReaches(sub: seq<AuditEntry>, es: seq<AuditEntry>, i: nat, n: nat)
    requires HashesDistinct(es) && multiset(sub) <= multiset(es)
    requires PredecessorClosed(sub)
    requires i < |sub| && ReachesWithin(es, sub[i].hash, n)
    ensures ReachesWithin(sub, sub[i].hash, n)
    decreases n
  {
    var h := sub[i].hash;
    if h != GENESIS_HASH {
      var j :| 0 <= j < |es| && es[j].hash == h && ReachesWithin(es, es[j].prevHash, n - 1);
      var k := SubsetIndex(sub, es, i);
      assert j == k;
      if sub[i].prevHash != GENESIS_HASH {
        var p :| 0 <= p < |sub| && sub[p].hash == sub[i].prevHash;
        ClosedReaches(sub, es, p, n - 1);
      }
    }
  }

  lemma ReachingIsClosed(es: seq<AuditEntry>)
    requires HashesDistinct(es)
    requires AllReach(es)
    ensures PredecessorClosed(es)
  {
    forall i | 0 <= i < |es| && es[i].hash != GENESIS_HASH && es[i].prevHash != GENESIS_HASH
      ensures HasHash(es, es[i].prevHash)
    {
      var n: nat :| ReachesWithin(es, es[i].hash, n);
      var j :| 0 <= j < |es| && es[j].hash == es[i].hash && ReachesWithin(es, es[j].prevHash, n - 1);
      assert i == j;
    }
  }

  lemma SubsetSealed(digest: Digest, es: seq<AuditEntry>, sub: seq<AuditEntry>)
    requires AllSealed(digest, es)
    requires multiset(sub) <= multiset(es)
    ensures AllSealed(digest, sub)
  {
    forall i | 0 <= i < |sub| ensures RecomputeHash(digest, sub[i]) == sub[i].hash {
      var j := SubsetIndex(sub, es, i);
    }
  }

  lemma SubsetReaches(es: seq<AuditEntry>, sub: seq<AuditEntry>)
    requires HashesDistinct(es) && AllReach(es)
    requires multiset(sub) <= multiset(es)
    requires PredecessorClosed(sub)
    ensures AllReach(sub)
  {
    forall i | 0 <= i < |sub| ensures Reaches(sub, sub[i].hash) {
      var j := SubsetIndex(sub, es, i);
      var n: nat :| ReachesWithin(es, es[j].hash, n);
      ClosedReaches(sub, es, i, n);
    }
  }

  /** A sub-snapshot of an intact snapshot, in any order, is intact exactly when it is predecessor-closed. */
  lemma SubSnapshotIntactIffClosed(digest: Digest, es: seq<AuditEntry>, sub: seq<AuditEntry>)
    requires Intact(digest, es)
    requires multiset(sub) <= multiset(es)
    ensures Intact(digest, sub) <==> PredecessorClosed(sub)
  {
    SubsetDistinct(sub, es);
    SubsetSealed(digest, es, sub);
    if AllReach(sub) {
      ReachingIsClosed(sub);
    }
    if PredecessorClosed(sub) {
      SubsetReaches(es, sub);
    }
  }

  lemma ClosedUpToOrder(es: seq<AuditEntry>, fs: seq<AuditEntry>)
    requires multiset(es) == multiset(fs)
    requires PredecessorClosed(es)
    ensures PredecessorClosed(fs)
  {
    forall i | 0 <= i < |fs| && fs[i].hash != GENESIS_HASH && fs[i].prevHash != GENESIS_HASH
      ensures HasHash(fs, fs[i].prevHash)
    {
      var j := SubsetIndex(fs, es, i);
      var p :| 0 <= p < |es| && es[p].hash == es[j].prevHash;
      var q := SubsetIndex(es, fs, p);
      assert fs[q].hash == fs[i].prevHash;
    }
  }

  /** The verdict does not depend on the order of the entries. */
  lemma OrderIsIrrelevant(digest: Digest, es: seq<AuditEntry>, fs: seq<AuditEntry>)
    requires multiset(es) == multiset(fs)
    ensures Intact(digest, es) <==> Intact(digest, fs)
  {
    if Intact(digest, es) {
      ReachingIsClosed(es);
      ClosedUpToOrder(es, fs);
      SubSnapshotIntactIffClosed(digest, es, fs);
    }
    if Intact(digest, fs) {
      ReachingIsClosed(fs);
      ClosedUpToOrder(fs, es);
      SubSnapshotIntactIffClosed(digest, fs, es);
    }
  }

  /** Every other entry with a real predecessor points elsewhere than at entry `d`. */
  ghost predicate Unreferenced(es: seq<AuditEntry>, d: nat)
    requires d < |es|
  {
    forall i :: 0 <= i < |es| && i != d ==> es[i].hash == GENESIS_HASH || es[i].prevHash != es[d].hash
  }

  lemma RestIsOpen(es: seq<AuditEntry>, d: nat, i: nat)
    requires HashesDistinct(es)
    requires d < |es| && i < |es| && i != d
    requires es[d].hash != GENESIS_HASH && es[i].hash != GENESIS_HASH
    requires es[i].prevHash == es[d].hash
    ensures !PredecessorClosed(Without(es, d))
  {
    var rest := Without(es, d);
    var r := if i < d then i else i - 1;
    assert rest[r] == es[i];
    forall q | 0 <= q < |rest| ensures rest[q].hash != es[d].hash {
      assert rest[q] == es[if q < d then q else q + 1];
    }
    assert !HasHash(rest, rest[r].prevHash);
  }

  lemma RestIsClosed(es: seq<AuditEntry>, d: nat)
    requires HashesDistinct(es) && PredecessorClosed(es)
    requires d < |es|
    requires es[d].hash == GENESIS_HASH || Unreferenced(es, d)
    ensures PredecessorClosed(Without(es, d))
  {
    var rest := Without(es, d);
    forall r | 0 <= r < |rest| && rest[r].hash != GENESIS_HASH && rest[r].prevHash != GENESIS_HASH
      ensures HasHash(rest, rest[r].prevHash)
    {
      var i := if r < d then r else r + 1;
      assert rest[r] == es[i];
      assert HasHash(es, es[i].prevHash);
      var p :| 0 <= p < |es| && es[p].hash == es[i].prevHash;
      assert p != d;
      assert rest[if p < d then p else p - 1] == es[p];
    }
  }

  /**
   Deleting one entry from an intact snapshot goes unnoticed exactly when no
   other entry's walk still needs it: leaves vanish silently, referenced entries do not.
   */
  lemma DeletionDetectedIffReferenced(digest: Digest, es: seq<AuditEntry>, d: nat)
    requires Intact(digest, es)
    requires d < |es|
    ensures Intact(digest, Without(es, d)) <==> es[d].hash == GENESIS_HASH || Unreferenced(es, d)
  {
    WithoutIsSmaller(es, d);
    SubSnapshotIntactIffClosed(digest, es, Without(es, d));
    ReachingIsClosed(es);
    if es[d].hash == GENESIS_HASH || Unreferenced(es, d) {
      RestIsClosed(es, d);
    } else {
      var i :| 0 <= i < |es| && i != d && es[i].hash != GENESIS_HASH && es[i].prevHash == es[d].hash;
      RestIsOpen(es, d, i);
    }
  }

  // ---------- Tampering ----------

  /** `hexdigest` yields hexadecimal digits. */
  ghost predicate HexDigest(digest: Digest) {
    forall text :: AllHex(digest(text))
  }

  /** Entry `i` is replaced by one with other content under the same stored hash, and the verifier, without a collision to blame, accepts. */
  ghost predicate GoesUnnoticed(digest: Digest, es: seq<AuditEntry>, i: nat, forged: AuditEntry)
    requires i < |es|
  {
    && forged.hash == es[i].hash && !SameContent(forged, es[i])
    && Intact(digest, es[i := forged])
    && !Collision(digest, Dumps(HashedDocument(forged)), Dumps(HashedDocument(es[i])))
  }

  /**
   Altering any hashed field of an entry of an intact snapshot in any way, while
   keeping its stored hash, breaks the snapshot unless the digest has collided, for
   every entry of which nothing can be respelled.
   */
  lemma TamperingIsDetected(digest: Digest, es: seq<AuditEntry>, i: nat, forged: AuditEntry)
    requires Intact(digest, es) && i < |es|
    requires forged.hash == es[i].hash && !SameContent(forged, es[i])
    requires !Respells(es[i])
    ensures !Intact(digest, es[i := forged]) ||
      Collision(digest, Dumps(HashedDocument(forged)), Dumps(HashedDocument(es[i])))
  {
    if Intact(digest, es[i := forged]) {
      assert RecomputeHash(digest, es[i := forged][i]) == forged.hash;
      DifferentContentCollides(digest, es[i], forged);
    }
  }

  /** The snapshots agree on hashes and, but for entries with the genesis hash, on predecessors. */
  ghost predicate SameLinks(es: seq<AuditEntry>, fs: seq<AuditEntry>) {
    |es| == |fs| && forall k :: 0 <= k < |es| ==>
      fs[k].hash == es[k].hash && (es[k].hash == GENESIS_HASH || fs[k].prevHash == es[k].prevHash)
  }

  lemma {:induction false} SameLinksReach(es: seq<AuditEntry>, fs: seq<AuditEntry>, h: PyStr, n: nat)
    requires SameLinks(es, fs) && ReachesWithin(es, h, n)
    ensures ReachesWithin(fs, h, n)
    decreases n
  {
    if h != GENESIS_HASH {
      var k :| 0 <= k < |es| && es[k].hash == h && ReachesWithin(es, es[k].prevHash, n - 1);
      SameLinksReach(es, fs, es[k].prevHash, n - 1);
      assert fs[k].hash == h && ReachesWithin(fs, fs[k].prevHash, n - 1);
    }
  }

  /** In an intact snapshot the predecessor of an entry, unless the entry carries the genesis hash, is a hash. */
  lemma PredecessorIsHex(digest: Digest, es: seq<AuditEntry>, i: nat)
    requires Intact(digest, es) && HexDigest(digest) && i < |es|
    ensures es[i].hash == GENESIS_HASH || !Ambiguous(es[i].prevHash)
  {
    ReachingIsClosed(es);
    if es[i].hash != GENESIS_HASH && es[i].prevHash != GENESIS_HASH {
      var p :| 0 <= p < |es| && es[p].hash == es[i].prevHash;
      assert AllHex(RecomputeHash(digest, es[p]));
    }
  }

  lemma RespelledStaysIntact(digest: Digest, es: seq<AuditEntry>, i: nat, forged: AuditEntry)
    requires Intact(digest, es) && i < |es|
    requires forged.hash == es[i].hash && (es[i].hash == GENESIS_HASH || forged.prevHash == es[i].prevHash)
    requires Dumps(HashedDocument(forged)) == Dumps(HashedDocument(es[i]))
    ensures Intact(digest, es[i := forged])
  {
    var fs := es[i := forged];
    assert SameLinks(es, fs);
    forall k | 0 <= k < |fs| ensures Reaches(fs, fs[k].hash) && RecomputeHash(digest, fs[k]) == fs[k].hash {
      assert Reaches(es, es[k].hash) && RecomputeHash(digest, es[k]) == es[k].hash;
      var n: nat :| ReachesWithin(es, es[k].hash, n);
      SameLinksReach(es, fs, es[k].hash, n);
    }
  }

  /**
   Exactly which entries can be forged: an entry of an intact snapshot can be replaced
   unnoticed, without a collision, if and only if some hashed field of it can be
   respelled.
   */
  lemma UndetectedForgeryIff(digest: Digest, es: seq<AuditEntry>, i: nat)
    requires Intact(digest, es) && HexDigest(digest) && i < |es|
    ensures (exists forged :: GoesUnnoticed(digest, es, i, forged)) <==> Respells(es[i])
  {
    if Respells(es[i]) {
      var k :| 0 <= k < 9 && Respellable(FieldValues(es[i])[k]);
      FieldIsWellFormed(es[i], k);
      var v := Respell(FieldValues(es[i])[k]);
      RespelledKind(es[i], k, v);
      WithFieldValues(es[i], k, v);
      RespelledField(es[i], k, v);
      PredecessorIsHex(digest, es, i);
      RespelledStaysIntact(digest, es, i, WithField(es[i], k, v));
      assert GoesUnnoticed(digest, es, i, WithField(es[i], k, v));
    }
    forall forged | GoesUnnoticed(digest, es, i, forged) ensures Respells(es[i]) {
      if !Respells(es[i]) {
        TamperingIsDetected(digest, es, i, forged);
      }
    }
  }
}
