/**
 How an audit entry is written to its table and read back
 (backend/app/kernel/audit_postgres.py, `_to_record` and `all_entries`).

 The id column is a 128-bit UUID, printed as 32 lowercase hexadecimal digits;
 the payload column may list a dictionary's keys in another order.
 */
module AuditStorage {
  import opened Basics
  import opened CanonicalJson
  import opened CanonicalSpelling
  import opened AuditChain

  // ---------- UUIDs ----------

  function HexValue(c: CodePoint): nat
    requires IsHex(c)
  {
    if c <= 0x39 then c - 0x30 else c - 0x61 + 10
  }

  function HexPoint(d: nat): CodePoint
    requires d < 16
  {
    if d < 10 then 0x30 + d else 0x61 + (d - 10)
  }

  /** 32 lowercase hexadecimal digits: what `uuid4().hex` yields. */
  predicate IsHex32(s: PyStr) {
    |s| == 32 && AllHex(s)
  }

  function FromHex(s: PyStr): nat
    requires AllHex(s)
  {
    if s == [] then 0 else 16 * FromHex(s[..|s| - 1]) + HexValue(s[|s| - 1])
  }

  /** The last `width` hexadecimal digits of a number, most significant first. */
  function ToHex(n: nat, width: nat): PyStr {
    if width == 0 then [] else ToHex(n / 16, width - 1) + [HexPoint(n % 16)]
  }

  function Pow16(width: nat): nat {
    if width == 0 then 1 else 16 * Pow16(width - 1)
  }

  lemma {:induction false} ToHexIsHex(n: nat, width: nat)
    ensures |ToHex(n, width)| == width && AllHex(ToHex(n, width))
  {
    if width > 0 {
      ToHexIsHex(n / 16, width - 1);
    }
  }

  /** Parsing a digit string and printing it again is the identity. */
  lemma {:induction false} HexRoundTrip(s: PyStr)
    requires AllHex(s)
    ensures ToHex(FromHex(s), |s|) == s
    ensures FromHex(s) < Pow16(|s|)
  {
    if s != [] {
      var front, last := s[..|s| - 1], s[|s| - 1];
      HexRoundTrip(front);
      assert FromHex(s) / 16 == FromHex(front) && FromHex(s) % 16 == HexValue(last);
      assert s == front + [last];
    }
  }

  /** Printing a number that fits and parsing it again is the identity. */
  lemma {:induction false} NumberRoundTrip(n: nat, width: nat)
    requires n < Pow16(width)
    ensures AllHex(ToHex(n, width)) && FromHex(ToHex(n, width)) == n
  {
    ToHexIsHex(n, width);
    if width > 0 {
      NumberRoundTrip(n / 16, width - 1);
      assert ToHex(n, width)[..width - 1] == ToHex(n / 16, width - 1);
    }
  }

  // ---------- Records ----------

  datatype AuditRecord = AuditRecord(
    id: nat,
    action: PyStr,
    resourceType: PyStr,
    resourceId: Option<PyStr>,
    decision: Option<PyStr>,
    principalId: PyStr,
    payload: PyDict,
    prevHash: PyStr,
    hash: PyStr,
    createdAt: PyStr)

  /**
   `_to_record`. `otherId` is what the id column gets when the entry id is not
   32 lowercase hexadecimal digits: the value of another spelling that UUID
   parsing accepts, or a fresh random UUID. `stored` is the payload as the
   JSONB column keeps it.
   */
  function ToRecord(e: AuditEntry, otherId: nat, stored: PyDict): AuditRecord {
    AuditRecord(
      if IsHex32(e.entryId) then FromHex(e.entryId) else otherId,
      e.action, e.resourceType, e.resourceId, e.decision, e.principalId, stored, e.prevHash, e.hash, e.createdAt)
  }

  /** One element of the list comprehension in `all_entries`. */
  function FromRecord(r: AuditRecord): AuditEntry {
    AuditEntry(
      ToHex(r.id, 32),
      r.action, r.resourceType, r.resourceId, r.decision, r.principalId, r.payload, r.createdAt, r.prevHash, r.hash)
  }

  predicate SamePayload(p: PyDict, q: PyDict) {
    Meaning(Obj(p)) == Meaning(Obj(q))
  }

  /**
   An entry survives being written and read back exactly when its id is 32
   lowercase hexadecimal digits, whatever UUID the column falls back to.
   */
  lemma EntrySurvivesIffHexId(e: AuditEntry, otherId: nat, stored: PyDict)
    requires SamePayload(e.payload, stored)
    ensures var back := FromRecord(ToRecord(e, otherId, stored));
      (SameContent(e, back) <==> IsHex32(e.entryId)) && back.hash == e.hash
  {
    ToHexIsHex(ToRecord(e, otherId, stored).id, 32);
    if IsHex32(e.entryId) {
      HexRoundTrip(e.entryId);
    }
  }

  /** An entry whose id reads as hexadecimal digits has another text than one whose id does not. */
  lemma HexIdShowsInText(e: AuditEntry, f: AuditEntry)
    requires IsHex32(f.entryId) && !IsHex32(e.entryId)
    ensures Dumps(HashedDocument(e)) != Dumps(HashedDocument(f))
  {
    SameTextIffSameFieldWires(e, f);
    if SameFieldWires(e, f) {
      assert ToWire(FieldValues(e)[0]) == ToWire(FieldValues(f)[0]);
      UnitsFixPlainString(f.entryId, e.entryId);
    }
  }

  /**
   A sealed entry still recomputes to its stored hash after the round trip when
   its id is 32 lowercase hexadecimal digits; with any other id it does not,
   unless the digest has collided.
   */
  lemma SealSurvivesIffHexId(digest: Digest, e: AuditEntry, otherId: nat, stored: PyDict)
    requires SamePayload(e.payload, stored)
    requires RecomputeHash(digest, e) == e.hash
    ensures var back := FromRecord(ToRecord(e, otherId, stored));
      && (IsHex32(e.entryId) ==> RecomputeHash(digest, back) == back.hash)
      && (!IsHex32(e.entryId) && RecomputeHash(digest, back) == back.hash ==>
            Collision(digest, Dumps(HashedDocument(e)), Dumps(HashedDocument(back))))
  {
    var back := FromRecord(ToRecord(e, otherId, stored));
    EntrySurvivesIffHexId(e, otherId, stored);
    if IsHex32(e.entryId) {
      SameContentSameHash(digest, e, back);
    } else {
      ToHexIsHex(ToRecord(e, otherId, stored).id, 32);
      HexIdShowsInText(e, back);
    }
  }
}
