/**
 The stored trust score of a parcel (artifacts/api-server/src/routes/parcels.ts,
 artifacts/api-server/src/routes/evidence.ts): a cached column that six handlers
 maintain, through two formulas written out separately.
 */
module TrustScore {
  import opened Basics

  datatype Parcel = Parcel(status: string, trustScore: int)

  datatype Evidence = Evidence(parcel: nat, status: string)

  datatype Store = Store(parcels: map<nat, Parcel>, evidence: map<nat, Evidence>)

  // ---------- The score ----------

  function Min(a: int, b: int): int { if a < b then a else b }
  function Max(a: int, b: int): int { if a > b then a else b }

  /** The score as a closed form: a base by status, and twelve points for each verified item up to fifty. */
  function Score(status: string, verified: nat): int {
    (if status == "registered" then 50 else if status == "disputed" then 0 else 10) + Min(12 * verified, 50)
  }

  lemma ScoreInRange(status: string, verified: nat)
    ensures 0 <= Score(status, verified) <= 100
  {
  }

  /** More verified evidence never lowers the score, and raises it until the fifth item. */
  lemma ScoreIsMonotone(status: string, fewer: nat, more: nat)
    requires fewer < more
    ensures Score(status, fewer) <= Score(status, more)
    ensures Score(status, fewer) == Score(status, more) <==> fewer >= 5
  {
  }

  /** A pending parcel starts at 10; registration is worth 40 more, a dispute costs 10, and any other status counts as pending. */
  lemma ScoresByStatus(status: string, verified: nat)
    ensures Score("pending", 0) == 10
    ensures Score("registered", verified) == Score("pending", verified) + 40
    ensures Score("disputed", verified) == Score("pending", verified) - 10
    ensures status != "registered" && status != "disputed" ==> Score(status, verified) == Score("pending", verified)
    ensures verified < 4 ==> Score(status, verified + 1) == Score(status, verified) + 12
    ensures verified >= 5 ==> Score(status, verified) == Score(status, 0) + 50
  {
  }

  function VerifiedItems(evidence: map<nat, Evidence>, parcel: nat): set<nat> {
    set e | e in evidence && evidence[e].parcel == parcel && evidence[e].status == "verified"
  }

  /** `SELECT count(*)` of a parcel's verified evidence. */
  function VerifiedCount(evidence: map<nat, Evidence>, parcel: nat): nat {
    |VerifiedItems(evidence, parcel)|
  }

  /** The stored score is the formula on the current status and a recount. */
  predicate Agrees(s: Store, parcel: nat)
    requires parcel in s.parcels
  {
    s.parcels[parcel].trustScore == Score(s.parcels[parcel].status, VerifiedCount(s.evidence, parcel))
  }

  /** Every evidence row belongs to a parcel, and every stored score agrees. */
  ghost predicate Consistent(s: Store) {
    && (forall e :: e in s.evidence ==> s.evidence[e].parcel in s.parcels)
    && (forall p :: p in s.parcels ==> Agrees(s, p))
  }

  // ---------- Requests ----------

  /** Ids of new rows are the database's. An absent status leaves the column alone; `others` says whether another field is set. */
  datatype Request =
    | PostParcel(id: nat)
    | PatchParcel(id: nat, status: Option<string>, others: bool)
    | DeleteParcel(id: nat)
    | PostEvidence(id: nat, parcel: nat)
    | PatchEvidence(id: nat, status: Option<string>, others: bool)
    | DeleteEvidence(id: nat)

  /** `recalcTrustScore`. */
  function Recalculated(s: Store, parcel: nat): Store {
    if parcel !in s.parcels then s
    else
      var p := s.parcels[parcel];
      s.(parcels := s.parcels[parcel := p.(trustScore := Score(p.status, VerifiedCount(s.evidence, parcel)))])
  }

  function Handle(s: Store, req: Request): Store {
    match req
    case PostParcel(id) =>
      if id in s.parcels then s else s.(parcels := s.parcels[id := Parcel("pending", 10)])
    case PatchParcel(id, status, others) =>
      if id !in s.parcels || status.None? then s
      else
        var p := s.parcels[id];
        var score := if Truthy(status) then Score(status.value, VerifiedCount(s.evidence, id)) else p.trustScore;
        s.(parcels := s.parcels[id := Parcel(status.value, score)])
    case DeleteParcel(id) =>
      if id !in s.parcels then s
      else Store(s.parcels - {id}, map e | e in s.evidence && s.evidence[e].parcel != id :: s.evidence[e])
    case PostEvidence(id, parcel) =>
      if parcel !in s.parcels || id in s.evidence then s
      else s.(evidence := s.evidence[id := Evidence(parcel, "pending_review")])
    case PatchEvidence(id, status, others) =>
      if id !in s.evidence || status.None? then s
      else
        var e := s.evidence[id];
        var patched := s.(evidence := s.evidence[id := e.(status := status.value)]);
        if Truthy(status) then Recalculated(patched, e.parcel) else patched
    case DeleteEvidence(id) =>
      if id !in s.evidence then s
      else Recalculated(s.(evidence := s.evidence - {id}), s.evidence[id].parcel)
  }

  /**
   The requests that make a stored score stale: an empty status, which is written
   but not acted on, where the old status counted for something.
   */
  predicate MakesStale(s: Store, req: Request) {
    match req
    case PatchParcel(id, status, _) =>
      status == Some("") && id in s.parcels && (s.parcels[id].status == "registered" || s.parcels[id].status == "disputed")
    case PatchEvidence(id, status, _) =>
      status == Some("") && id in s.evidence && s.evidence[id].status == "verified" &&
      VerifiedCount(s.evidence, s.evidence[id].parcel) <= 5
    case _ => false
  }

  // ---------- Counting ----------

  /** Changing one evidence row only matters to the count of its parcel. */
  lemma CountElsewhere(s: Store, id: nat, e: Evidence, parcel: nat)
    requires parcel != e.parcel && (id in s.evidence ==> s.evidence[id].parcel == e.parcel)
    ensures VerifiedCount(s.evidence[id := e], parcel) == VerifiedCount(s.evidence, parcel)
  {
    assert VerifiedItems(s.evidence[id := e], parcel) == VerifiedItems(s.evidence, parcel);
  }

  lemma CountAfterDelete(s: Store, id: nat, parcel: nat)
    requires id in s.evidence && s.evidence[id].parcel != parcel
    ensures VerifiedCount(s.evidence - {id}, parcel) == VerifiedCount(s.evidence, parcel)
  {
    assert VerifiedItems(s.evidence - {id}, parcel) == VerifiedItems(s.evidence, parcel);
  }

  lemma PatchParcelIff(s: Store, id: nat, status: Option<string>, others: bool)
    requires Consistent(s)
    ensures Consistent(Handle(s, PatchParcel(id, status, others))) <==> !MakesStale(s, PatchParcel(id, status, others))
  {
    var req := PatchParcel(id, status, others);
    var t := Handle(s, req);
    if id in s.parcels && status.Some? {
      assert Agrees(s, id);
      forall p | p in t.parcels && p != id ensures Agrees(t, p) {
        assert Agrees(s, p);
      }
      assert Agrees(t, id) <==> !MakesStale(s, req);
    }
  }

  lemma DeleteParcelIsConsistent(s: Store, id: nat)
    requires Consistent(s)
    ensures Consistent(Handle(s, DeleteParcel(id)))
  {
    var t := Handle(s, DeleteParcel(id));
    if id in s.parcels {
      forall p | p in t.parcels ensures Agrees(t, p) {
        assert Agrees(s, p);
        assert VerifiedItems(t.evidence, p) == VerifiedItems(s.evidence, p);
      }
    }
  }

  lemma PostEvidenceIsConsistent(s: Store, id: nat, parcel: nat)
    requires Consistent(s)
    ensures Consistent(Handle(s, PostEvidence(id, parcel)))
  {
    var t := Handle(s, PostEvidence(id, parcel));
    if parcel in s.parcels && id !in s.evidence {
      forall p | p in t.parcels ensures Agrees(t, p) {
        assert Agrees(s, p);
        assert VerifiedItems(t.evidence, p) == VerifiedItems(s.evidence, p);
      }
    }
  }

  /** Writing an empty status over an evidence row takes it out of the count if it was verified. */
  lemma EmptiedCount(s: Store, id: nat)
    requires id in s.evidence
    ensures var e := s.evidence[id]; var after := s.evidence[id := e.(status := "")];
      VerifiedCount(after, e.parcel) == VerifiedCount(s.evidence, e.parcel) - if e.status == "verified" then 1 else 0
  {
    var e := s.evidence[id];
    var before, after := VerifiedItems(s.evidence, e.parcel), VerifiedItems(s.evidence[id := e.(status := "")], e.parcel);
    assert after == before - {id};
    assert id in before <==> e.status == "verified";
  }

  lemma PatchEvidenceIff(s: Store, id: nat, status: Option<string>, others: bool)
    requires Consistent(s)
    ensures Consistent(Handle(s, PatchEvidence(id, status, others))) <==> !MakesStale(s, PatchEvidence(id, status, others))
  {
    var req := PatchEvidence(id, status, others);
    if id in s.evidence && status.Some? {
      var e := s.evidence[id];
      var patched := s.(evidence := s.evidence[id := e.(status := status.value)]);
      forall p | p in s.parcels && p != e.parcel ensures Agrees(patched, p) {
        assert Agrees(s, p);
        CountElsewhere(s, id, e.(status := status.value), p);
      }
      if !Truthy(status) {
        assert Agrees(s, e.parcel);
        EmptiedCount(s, id);
        assert Agrees(patched, e.parcel) <==> !MakesStale(s, req);
      }
    }
  }

  lemma DeleteEvidenceIsConsistent(s: Store, id: nat)
    requires Consistent(s)
    ensures Consistent(Handle(s, DeleteEvidence(id)))
  {
    if id in s.evidence {
      var parcel := s.evidence[id].parcel;
      var removed := s.(evidence := s.evidence - {id});
      forall p | p in s.parcels && p != parcel ensures Agrees(removed, p) {
        assert Agrees(s, p);
        CountAfterDelete(s, id, p);
      }
    }
  }

  /** One request keeps every stored score right exactly when it is not one of the stale-making ones. */
  lemma RequestKeepsConsistentIff(s: Store, req: Request)
    requires Consistent(s)
    ensures Consistent(Handle(s, req)) <==> !MakesStale(s, req)
  {
    match req
    case PostParcel(id) =>
    case PatchParcel(id, status, others) => PatchParcelIff(s, id, status, others);
    case DeleteParcel(id) => DeleteParcelIsConsistent(s, id);
    case PostEvidence(id, parcel) => PostEvidenceIsConsistent(s, id, parcel);
    case PatchEvidence(id, status, others) => PatchEvidenceIff(s, id, status, others);
    case DeleteEvidence(id) => DeleteEvidenceIsConsistent(s, id);
  }

  ghost predicate SameParcelsBut(s: Store, t: Store, id: nat) {
    forall p :: p != id ==> (p in t.parcels <==> p in s.parcels) && (p in s.parcels ==> t.parcels[p] == s.parcels[p])
  }

  ghost predicate SameEvidenceBut(s: Store, t: Store, id: nat) {
    forall e :: e != id ==> (e in t.evidence <==> e in s.evidence) && (e in s.evidence ==> t.evidence[e] == s.evidence[e])
  }

  /** The parcels are there as before, with the status they had. */
  ghost predicate SameStatuses(s: Store, t: Store) {
    t.parcels.Keys == s.parcels.Keys && forall p :: p in s.parcels ==> t.parcels[p].status == s.parcels[p].status
  }

  /** What each request does to the rows, besides the scores. A request for a missing row does nothing. */
  lemma RequestChangesRows(s: Store, req: Request)
    ensures var t := Handle(s, req);
      match req
      case PostParcel(id) =>
        t.evidence == s.evidence && SameParcelsBut(s, t, id) && id in t.parcels &&
        (id !in s.parcels ==> t.parcels[id].status == "pending")
      case PatchParcel(id, status, _) =>
        t.evidence == s.evidence && SameParcelsBut(s, t, id) && (id in t.parcels <==> id in s.parcels) &&
        (id in s.parcels ==> t.parcels[id].status == if status.Some? then status.value else s.parcels[id].status)
      case DeleteParcel(id) =>
        SameParcelsBut(s, t, id) && id !in t.parcels &&
        (forall e :: e in t.evidence <==> e in s.evidence && (id !in s.parcels || s.evidence[e].parcel != id)) &&
        (forall e :: e in t.evidence ==> t.evidence[e] == s.evidence[e])
      case PostEvidence(id, parcel) =>
        t.parcels == s.parcels && SameEvidenceBut(s, t, id) &&
        (parcel in s.parcels && id !in s.evidence ==> id in t.evidence && t.evidence[id] == Evidence(parcel, "pending_review")) &&
        (parcel !in s.parcels ==> t == s)
      case PatchEvidence(id, status, _) =>
        SameStatuses(s, t) && SameEvidenceBut(s, t, id) && (id in t.evidence <==> id in s.evidence) &&
        (id in s.evidence ==>
           t.evidence[id] == Evidence(s.evidence[id].parcel, if status.Some? then status.value else s.evidence[id].status))
      case DeleteEvidence(id) =>
        SameStatuses(s, t) && SameEvidenceBut(s, t, id) && id !in t.evidence
  {
  }

  function HandleAll(reqs: seq<Request>): Store {
    if reqs == [] then Store(map[], map[]) else Handle(HandleAll(reqs[..|reqs| - 1]), reqs[|reqs| - 1])
  }

  predicate NoEmptyStatus(req: Request) {
    match req
    case PatchParcel(_, status, _) => status != Some("")
    case PatchEvidence(_, status, _) => status != Some("")
    case _ => true
  }

  /** After any sequence of requests with non-empty statuses, every stored score is what a recount gives. */
  lemma {:induction false} ScoresAlwaysAgree(reqs: seq<Request>)
    requires forall i :: 0 <= i < |reqs| ==> NoEmptyStatus(reqs[i])
    ensures Consistent(HandleAll(reqs))
  {
    if reqs != [] {
      ScoresAlwaysAgree(reqs[..|reqs| - 1]);
      RequestKeepsConsistentIff(HandleAll(reqs[..|reqs| - 1]), reqs[|reqs| - 1]);
    }
  }

  // ---------- The handlers ----------

  datatype Reply = Created | Ok | NoContent | NotFound | Failed

  class Api {
    var parcels: map<nat, Parcel>
    var evidence: map<nat, Evidence>

    function State(): Store
      reads this
    {
      Store(parcels, evidence)
    }

    constructor ()
      ensures State() == HandleAll([])
    {
      parcels, evidence := map[], map[];
    }

    /** `computeTrustScore`: neither clamp ever binds. */
    static method ComputeTrustScore(status: string, evidenceCount: nat) returns (trustScore: int)
      ensures trustScore == Score(status, evidenceCount)
    {
      var score := 10;
      if status == "registered" {
        score := score + 40;
      }
      if status == "disputed" {
        score := score - 10;
      }
      score := score + Min(evidenceCount * 12, 50);
      trustScore := Min(100, Max(0, score));
    }

    /** `recalcTrustScore`: the same formula, written out again. */
    method RecalcTrustScore(parcelId: nat)
      modifies this`parcels
      ensures State() == Recalculated(old(State()), parcelId)
    {
      if parcelId !in parcels {
        return;
      }
      var parcel := parcels[parcelId];
      var evCount := VerifiedCount(evidence, parcelId);
      var score := 10;
      if parcel.status == "registered" {
        score := score + 40;
      }
      if parcel.status == "disputed" {
        score := score - 10;
      }
      score := score + Min(evCount * 12, 50);
      var trustScore := Min(100, Max(0, score));
      parcels := parcels[parcelId := parcel.(trustScore := trustScore)];
    }

    method CreateParcel(id: nat) returns (r: Reply)
      modifies this
      ensures State() == Handle(old(State()), PostParcel(id))
      ensures r == if id in old(parcels) then Failed else Created
    {
      if id in parcels {
        return Failed;
      }
      parcels := parcels[id := Parcel("pending", 10)];
      return Created;
    }

    method UpdateParcel(id: nat, status: Option<string>, others: bool) returns (r: Reply)
      modifies this
      ensures State() == Handle(old(State()), PatchParcel(id, status, others))
      ensures r == if id in old(parcels) then Ok else NotFound
    {
      if status.None? && !others {
        return if id in parcels then Ok else NotFound;
      }
      var score := None;
      if Truthy(status) {
        var computed := ComputeTrustScore(status.value, VerifiedCount(evidence, id));
        score := Some(computed);
      }
      if id !in parcels {
        return NotFound;
      }
      var p := parcels[id];
      if status.Some? {
        p := p.(status := status.value);
      }
      if score.Some? {
        p := p.(trustScore := score.value);
      }
      parcels := parcels[id := p];
      return Ok;
    }

    /** Deleting a parcel cascades to its evidence. */
    method DeleteParcelById(id: nat) returns (r: Reply)
      modifies this
      ensures State() == Handle(old(State()), DeleteParcel(id))
      ensures r == if id in old(parcels) then NoContent else NotFound
    {
      if id !in parcels {
        return NotFound;
      }
      parcels := parcels - {id};
      evidence := map e | e in evidence && evidence[e].parcel != id :: evidence[e];
      return NoContent;
    }

    method AddEvidence(id: nat, parcelId: nat) returns (r: Reply)
      modifies this
      ensures State() == Handle(old(State()), PostEvidence(id, parcelId))
      ensures r == if parcelId !in old(parcels) then NotFound else if id in old(evidence) then Failed else Created
    {
      if parcelId !in parcels {
        return NotFound;
      }
      if id in evidence {
        return Failed;
      }
      evidence := evidence[id := Evidence(parcelId, "pending_review")];
      return Created;
    }

    /** An update without any field makes the query builder throw. */
    method UpdateEvidence(id: nat, status: Option<string>, others: bool) returns (r: Reply)
      modifies this
      ensures State() == Handle(old(State()), PatchEvidence(id, status, others))
      ensures r == if status.None? && !others then Failed else if id in old(evidence) then Ok else NotFound
    {
      if status.None? && !others {
        return Failed;
      }
      if id !in evidence {
        return NotFound;
      }
      var updated := evidence[id];
      if status.Some? {
        updated := updated.(status := status.value);
      }
      evidence := evidence[id := updated];
      if Truthy(status) {
        RecalcTrustScore(updated.parcel);
      }
      return Ok;
    }

    method DeleteEvidenceById(id: nat) returns (r: Reply)
      modifies this
      ensures State() == Handle(old(State()), DeleteEvidence(id))
      ensures r == if id in old(evidence) then NoContent else NotFound
    {
      if id !in evidence {
        return NotFound;
      }
      var deleted := evidence[id];
      evidence := evidence - {id};
      RecalcTrustScore(deleted.parcel);
      return NoContent;
    }
  }
}
