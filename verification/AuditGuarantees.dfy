/**
 When the committed audit log verifies, in every run of any number of requests.
 */
module AuditGuarantees {
  import opened Basics
  import opened CanonicalJson
  import opened AuditChain
  import opened AuditStorage
  import opened AuditProtocol
  import opened AuditLinks

  /** `all_entries` on these rows, before ordering. */
  function ReadBack(rows: seq<Row>): (es: seq<AuditEntry>)
    ensures |es| == |rows|
    ensures forall i :: 0 <= i < |rows| ==> es[i] == FromRecord(rows[i].record)
  {
    if rows == [] then [] else ReadBack(rows[..|rows| - 1]) + [FromRecord(rows[|rows| - 1].record)]
  }

  /** The row was sealed under this digest and written by `_to_record`. */
  ghost predicate Genuine(digest: Digest, row: Row) {
    && RecomputeHash(digest, row.entry) == row.entry.hash
    && exists otherId, stored :: SamePayload(row.entry.payload, stored) && row.record == ToRecord(row.entry, otherId, stored)
  }

  ghost predicate AllGenuine(digest: Digest, rows: seq<Row>) {
    forall i :: 0 <= i < |rows| ==> Genuine(digest, rows[i])
  }

  /** The row is committed, or pending in some open session. */
  ghost predicate Holds(w: World, row: Row) {
    row in w.log || exists sid :: sid in w.open && row in w.open[sid].rows
  }

  /** The protocol's hash is the digest of the canonical text. */
  ghost predicate Hashes(env: Env, digest: Digest) {
    forall e :: env.rehash(e) == RecomputeHash(digest, e)
  }

  ghost predicate EverythingGenuine(digest: Digest, w: World) {
    forall row :: Holds(w, row) ==> Genuine(digest, row)
  }

  /** The row that a step makes, if it makes one. */
  ghost function MadeBy(env: Env, w: World, ev: Event): seq<Row>
    requires Enabled(env, w, ev)
  {
    match ev
    case Stage(sid, call, otherId, stored) => [NewRow(env, Request(sid), call, w.open[sid].read.value, otherId, stored)]
    case AppendHere(sid, call, otherId, stored) => [NewRow(env, Request(sid), call, w.open[sid].read.value, otherId, stored)]
    case EagerAppend(task, call, otherId, stored) => [NewRow(env, Eager, call, w.pending[task], otherId, stored)]
    case _ => []
  }

  /** Rows come from nowhere but the steps that make them. */
  lemma NoRowFromNowhere(env: Env, w: World, ev: Event, row: Row)
    requires Enabled(env, w, ev)
    requires Holds(After(env, w, ev), row)
    ensures Holds(w, row) || row in MadeBy(env, w, ev)
  {
    var v, made := After(env, w, ev), MadeBy(env, w, ev);
    match ev
    case AppendHere(sid, _, _, _) =>
      var s := Flushed(w.open[sid], made[0]);
      var u := w.(open := w.open[sid := s]);
      assert Holds(u, row) by { assert s == u.open[sid]; }
    case _ =>
  }

  lemma StepKeepsGenuine(env: Env, digest: Digest, w: World, ev: Event)
    requires Hashes(env, digest) && EverythingGenuine(digest, w) && Enabled(env, w, ev)
    ensures EverythingGenuine(digest, After(env, w, ev))
  {
    forall row | Holds(After(env, w, ev), row) ensures Genuine(digest, row) {
      NoRowFromNowhere(env, w, ev, row);
    }
  }

  lemma {:induction false} RunKeepsGenuine(env: Env, digest: Digest, evs: seq<Event>)
    requires Hashes(env, digest)
    requires Exec(env, EMPTY_WORLD, evs).Some?
    ensures EverythingGenuine(digest, Exec(env, EMPTY_WORLD, evs).value)
  {
    if evs != [] {
      RunKeepsGenuine(env, digest, evs[..|evs| - 1]);
      StepKeepsGenuine(env, digest, Exec(env, EMPTY_WORLD, evs[..|evs| - 1]).value, evs[|evs| - 1]);
    }
  }

  ghost predicate HexIds(rows: seq<Row>) {
    forall i :: 0 <= i < |rows| ==> IsHex32(rows[i].entry.entryId)
  }

  /** The row's id keeps its spelling, or the digest has collided on the entry and what is read back for it. */
  ghost predicate SealSurvives(digest: Digest, row: Row) {
    IsHex32(row.entry.entryId) ||
    Collision(digest, Dumps(HashedDocument(row.entry)), Dumps(HashedDocument(FromRecord(row.record))))
  }

  ghost predicate AllSealsSurvive(digest: Digest, rows: seq<Row>) {
    forall i :: 0 <= i < |rows| ==> SealSurvives(digest, rows[i])
  }

  lemma GenuineReadsBack(digest: Digest, row: Row)
    requires Genuine(digest, row)
    ensures var back := FromRecord(row.record);
      && back.hash == row.entry.hash && back.prevHash == row.entry.prevHash
      && (RecomputeHash(digest, back) == back.hash <==> SealSurvives(digest, row))
  {
    var otherId, stored :| SamePayload(row.entry.payload, stored) && row.record == ToRecord(row.entry, otherId, stored);
    SealSurvivesIffHexId(digest, row.entry, otherId, stored);
  }

  /** Following predecessors through a tidy log, row by row, ends at genesis. */
  lemma {:induction false} TidyReaches(rows: seq<Row>, es: seq<AuditEntry>, i: nat)
    requires Tidy(rows) && |es| == |rows|
    requires forall k :: 0 <= k < |rows| ==> es[k].hash == rows[k].entry.hash && es[k].prevHash == rows[k].entry.prevHash
    requires i < |rows|
    ensures ReachesWithin(es, es[i].hash, i + 1)
  {
    var prev := rows[i].entry.prevHash;
    assert Known(rows[..i], prev);
    if prev == GENESIS_HASH {
      assert ReachesWithin(es, prev, i);
    } else {
      var j :| 0 <= j < i && rows[..i][j].entry.hash == prev;
      TidyReaches(rows, es, j);
      ReachesMonotone(es, prev, j + 1, i);
    }
    assert es[i].hash == es[i].hash && ReachesWithin(es, es[i].prevHash, (i + 1) - 1);
  }

  lemma TidyLogIsIntact(digest: Digest, rows: seq<Row>)
    requires Tidy(rows) && AllGenuine(digest, rows)
    ensures Intact(digest, ReadBack(rows)) <==> AllSealsSurvive(digest, rows)
  {
    var es := ReadBack(rows);
    forall i | 0 <= i < |rows|
      ensures es[i].hash == rows[i].entry.hash && es[i].prevHash == rows[i].entry.prevHash
      ensures RecomputeHash(digest, es[i]) == es[i].hash <==> SealSurvives(digest, rows[i])
    {
      GenuineReadsBack(digest, rows[i]);
    }
    forall i | 0 <= i < |rows| ensures Reaches(es, es[i].hash) {
      TidyReaches(rows, es, i);
    }
    assert HashesDistinct(es) && AllReach(es);
  }

  /** What `all_entries` may return at this moment, in whatever order. */
  ghost predicate SnapshotOf(w: World, es: seq<AuditEntry>) {
    multiset(es) == multiset(ReadBack(w.log))
  }

  /**
   Over every interleaving, whatever requests are staged, committed, rolled back or
   appended eagerly: the committed log, read back in any order, passes the verifier
   exactly if each entry id is 32 lowercase hexadecimal digits, or the digest has
   collided on an entry whose id is not.
   */
  lemma CommittedLogVerifiesIff(env: Env, digest: Digest, evs: seq<Event>, w: World, snapshot: seq<AuditEntry>)
    requires Hashes(env, digest)
    requires Reached(env, evs, w) && SnapshotOf(w, snapshot)
    ensures Intact(digest, snapshot) <==> AllSealsSurvive(digest, w.log)
  {
    RunKeepsLinked(env, evs);
    RunKeepsGenuine(env, digest, evs);
    forall i | 0 <= i < |w.log| ensures Genuine(digest, w.log[i]) {
      assert Holds(w, w.log[i]);
    }
    TidyLogIsIntact(digest, w.log);
    OrderIsIrrelevant(digest, ReadBack(w.log), snapshot);
  }

  /** Safety: given ids of 32 lowercase hexadecimal digits, every committed snapshot of every run verifies. */
  lemma CommittedLogAlwaysVerifies(env: Env, digest: Digest, evs: seq<Event>, w: World, snapshot: seq<AuditEntry>)
    requires Hashes(env, digest)
    requires Reached(env, evs, w) && SnapshotOf(w, snapshot)
    requires HexIds(w.log)
    ensures Intact(digest, snapshot)
  {
    CommittedLogVerifiesIff(env, digest, evs, w, snapshot);
  }

  /** Any other id in the committed log makes the verifier fail, in every run, or the digest collides on that very entry. */
  lemma OtherIdsBreakTheLog(env: Env, digest: Digest, evs: seq<Event>, w: World, snapshot: seq<AuditEntry>, row: Row)
    requires Hashes(env, digest)
    requires Reached(env, evs, w) && SnapshotOf(w, snapshot)
    requires row in w.log && !IsHex32(row.entry.entryId)
    ensures !Intact(digest, snapshot) ||
      Collision(digest, Dumps(HashedDocument(row.entry)), Dumps(HashedDocument(FromRecord(row.record))))
  {
    CommittedLogVerifiesIff(env, digest, evs, w, snapshot);
    var i :| 0 <= i < |w.log| && w.log[i] == row;
    assert AllSealsSurvive(digest, w.log) ==> SealSurvives(digest, w.log[i]);
  }

  /** One eager audit on the empty log, with the entry id that its caller gave. */
  function OneAudit(call: AuditCall, otherId: nat): seq<Event> {
    [EagerRead(0, GENESIS_HASH), EagerAppend(0, call, otherId, call.payload)]
  }

  /** Every entry id can get into the committed log: `audit` takes it as it is. */
  lemma AnyIdCanBeCommitted(env: Env, call: AuditCall, otherId: nat)
    ensures Exec(env, EMPTY_WORLD, OneAudit(call, otherId)).Some?
    ensures var log := Exec(env, EMPTY_WORLD, OneAudit(call, otherId)).value.log;
      |log| == 1 && log[0].entry.entryId == call.entryId && (HexIds(log) <==> IsHex32(call.entryId))
  {
    var evs := OneAudit(call, otherId);
    assert evs[..2] == evs && evs[..1] == [EagerRead(0, GENESIS_HASH)] && evs[..1][..0] == [];
    assert Exec(env, EMPTY_WORLD, evs[..1]) == Some(EMPTY_WORLD.(pending := map[0 := GENESIS_HASH]));
  }

  /** The hyphenated spelling that `str` gives a UUID. */
  const HYPHENATED: PyStr := Ascii("00000000-0000-4000-8000-000000000000")

  /** An id on which the log stops verifying with its first entry, short of a digest collision on it. */
  lemma HyphenatedIdBreaksTheLog(env: Env, digest: Digest, call: AuditCall, otherId: nat)
    requires Hashes(env, digest) && call.entryId == HYPHENATED
    ensures Exec(env, EMPTY_WORLD, OneAudit(call, otherId)).Some?
    ensures var log := Exec(env, EMPTY_WORLD, OneAudit(call, otherId)).value.log;
      log != [] &&
      (!Intact(digest, ReadBack(log)) ||
       Collision(digest, Dumps(HashedDocument(log[0].entry)), Dumps(HashedDocument(FromRecord(log[0].record)))))
  {
    AnyIdCanBeCommitted(env, call, otherId);
    var w := Exec(env, EMPTY_WORLD, OneAudit(call, otherId)).value;
    assert |HYPHENATED| == 36;
    assert w.log[0] in w.log;
    OtherIdsBreakTheLog(env, digest, OneAudit(call, otherId), w, ReadBack(w.log), w.log[0]);
  }
}
