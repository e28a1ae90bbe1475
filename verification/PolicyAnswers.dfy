/**
 What `authorize` answers (backend/app/kernel/authorization/pdp.py), and what the
 default policies permit (backend/app/kernel/authorization/policies.py).
 */
module PolicyAnswers {
  import opened Basics
  import opened RequestContext
  import opened Policies
  import opened TenantGuarantees

  // ---------- First decision wins, undecided is denied ----------

  ghost predicate AllDefer(ps: seq<Policy>, req: Request) {
    forall i :: 0 <= i < |ps| ==> ps[i].fn(req) == Defers
  }

  /** Policy `k` does not defer, and every policy before it does. */
  ghost predicate FirstWord(ps: seq<Policy>, req: Request, k: nat) {
    k < |ps| && ps[k].fn(req) != Defers && AllDefer(ps[..k], req)
  }

  lemma {:induction false} SomeFirstWord(ps: seq<Policy>, req: Request) returns (k: nat)
    requires !AllDefer(ps, req)
    ensures FirstWord(ps, req, k)
  {
    if ps[0].fn(req) != Defers {
      k := 0;
    } else {
      assert forall i :: 0 < i < |ps| ==> ps[i] == ps[1..][i - 1];
      k := SomeFirstWord(ps[1..], req);
      assert ps[..k + 1] == [ps[0]] + ps[1..][..k];
      k := k + 1;
    }
  }

  lemma {:induction false} UndecidedIsDenied(ps: seq<Policy>, req: Request)
    requires AllDefer(ps, req)
    ensures Decide(ps, req).Deny?
  {
    if ps != [] {
      assert forall i :: 0 < i < |ps| ==> ps[i] == ps[1..][i - 1];
      UndecidedIsDenied(ps[1..], req);
    }
  }

  lemma {:induction false} FirstWordCounts(ps: seq<Policy>, req: Request, k: nat)
    requires FirstWord(ps, req, k)
    ensures match ps[k].fn(req)
      case Decides(d) => Decide(ps, req) == d
      case Crashes => Decide(ps, req).Deny?
      case Defers => false
  {
    if k > 0 {
      assert ps[..k][0] == ps[0];
      assert forall i :: 0 < i < k ==> ps[..k][i] == ps[1..][..k - 1][i - 1];
      FirstWordCounts(ps[1..], req, k - 1);
    }
  }

  /** A denial if every policy defers; otherwise the decision of the first that does not, or a denial if it crashes. */
  ghost predicate Answers(ps: seq<Policy>, req: Request, answer: Decision) {
    && (AllDefer(ps, req) ==> answer.Deny?)
    && (forall k: nat :: FirstWord(ps, req, k) ==>
          match ps[k].fn(req)
          case Decides(d) => answer == d
          case Crashes => answer.Deny?
          case Defers => false)
  }

  lemma DecideAnswers(ps: seq<Policy>, req: Request)
    ensures Answers(ps, req, Decide(ps, req))
  {
    if AllDefer(ps, req) {
      UndecidedIsDenied(ps, req);
    }
    forall k: nat | FirstWord(ps, req, k)
      ensures match ps[k].fn(req)
        case Decides(d) => Decide(ps, req) == d
        case Crashes => Decide(ps, req).Deny?
        case Defers => false
    {
      FirstWordCounts(ps, req, k);
    }
  }

  /** The policies that are asked, in order, once the defaults are registered. */
  function Asked(ops: seq<Operation>): seq<Policy> {
    RegisterDefaults(PerformAll(ops)).1.policies
  }

  /**
   The answer to any request after any history: a denial if every policy defers;
   otherwise the decision of the first policy that does not defer, or a denial if
   that policy crashes.
   */
  lemma AnswerIsTheFirstWord(ops: seq<Operation>, req: Request)
    requires Authorize(PerformAll(ops), req).Some?
    ensures Answers(Asked(ops), req, Authorize(PerformAll(ops), req).value)
  {
    DecideAnswers(Asked(ops), req);
  }

  /** Nothing is permitted unless some policy has permitted it, and every policy before it deferred. */
  lemma PermitsComeFromPolicies(ops: seq<Operation>, req: Request) returns (k: nat)
    requires Authorize(PerformAll(ops), req).Some? && Authorize(PerformAll(ops), req).value.Permit?
    ensures FirstWord(Asked(ops), req, k)
    ensures Asked(ops)[k].fn(req) == Decides(Authorize(PerformAll(ops), req).value)
  {
    AnswerIsTheFirstWord(ops, req);
    k := SomeFirstWord(Asked(ops), req);
    FirstWordCounts(Asked(ops), req, k);
  }

  // ---------- The default policies ----------

  lemma {:induction false} RegisteredInOrder(ps: seq<Policy>, more: seq<Policy>)
    requires ByPriority(ps + more) && UniqueIds(ps + more)
    ensures RegisterAll(ps, more) == (true, ps + more)
    decreases more
  {
    if more == [] {
      assert ps + more == ps;
    } else {
      assert ps + more == (ps + [more[0]]) + more[1..];
      forall i | 0 <= i < |ps| ensures ps[i].priority <= more[0].priority && ps[i].id != more[0].id {
        assert (ps + more)[i] == ps[i] && (ps + more)[|ps|] == more[0];
      }
      InsertBack(more[0], ps, []);
      assert ps + [] == ps && Insert(more[0], []) == [more[0]];
      assert !HasId(ps, more[0].id);
      assert Register(ps, more[0]) == Some(ps + [more[0]]);
      RegisteredInOrder(ps + [more[0]], more[1..]);
    }
  }

  lemma DefaultsRegister()
    ensures RegisterDefaults(Registry([], false)) == (true, Registry(Defaults(), true))
  {
    DefaultsAreDistinct();
    assert ByPriority(Defaults());
    assert [] + Defaults() == Defaults();
    RegisteredInOrder([], Defaults());
  }

  /** With no policy but the defaults, the defaults are what is asked, by ascending priority. */
  lemma {:induction false} OnlyDefaultsAsked(ops: seq<Operation>)
    requires forall i :: 0 <= i < |ops| ==> !ops[i].RegisterExtra?
    ensures PerformAll(ops) == Registry([], false) || PerformAll(ops) == Registry(Defaults(), true)
    ensures RegisterDefaults(PerformAll(ops)) == (true, Registry(Defaults(), true))
  {
    DefaultsRegister();
    if ops != [] {
      OnlyDefaultsAsked(ops[..|ops| - 1]);
    }
  }

  /** What an anonymous caller may do: the public actions and the identity bootstrap. */
  predicate PublicAction(action: string) {
    "platform.public." <= action || action == "identity.register" || action == "identity.login" || action == "identity.refresh"
  }

  /** What any caller may do to its own record. */
  predicate OwnAction(req: Request) {
    req.action == "identity.self.read" || req.action == "identity.self.logout" ||
    (req.action == "identity.user.read" && req.resource.userId == Some(req.ctx.principalId))
  }

  /** The request names another tenant, or another country, than the caller's own; an empty name is none. */
  predicate Elsewhere(target: Option<string>, own: Option<string>) {
    match (target, own)
    case (Some(t), Some(o)) => t != "" && o != "" && t != o
    case _ => false
  }

  lemma DefaultVerdicts(req: Request)
    ensures TenantIsolation(req).Decides? <==>
      !IsAnonymous(req.ctx) && !IsSuperAdmin(req.ctx) && Elsewhere(req.resource.tenantId, req.ctx.tenantId)
    ensures CountryIsolation(req).Decides? <==>
      !IsAnonymous(req.ctx) && !IsSuperAdmin(req.ctx) && Elsewhere(req.resource.country, req.ctx.country)
    ensures SuperAdmin(req).Decides? <==> IsSuperAdmin(req.ctx)
    ensures AnonymousPublic(req).Decides? <==> IsAnonymous(req.ctx)
    ensures AnonymousPublic(req).Decides? ==> (AnonymousPublic(req).decision.Permit? <==> PublicAction(req.action))
    ensures SelfActions(req).Decides? <==> !IsAnonymous(req.ctx) && OwnAction(req)
  {
  }

  /** One policy after the other: the two isolations deny, the super admin's permits, and the last two answer for the rest. */
  lemma AskedInTurn(req: Request)
    ensures Decide(Defaults(), req).Permit? <==>
      && !TenantIsolation(req).Decides? && !CountryIsolation(req).Decides?
      && (SuperAdmin(req).Decides? || (AnonymousPublic(req).Decides? && AnonymousPublic(req).decision.Permit?) ||
          (!AnonymousPublic(req).Decides? && SelfActions(req).Decides?))
  {
    var d := Defaults();
    Unroll(d, req);
    Unroll(d[1..], req);
    Unroll(d[1..][1..], req);
    Unroll(d[1..][1..][1..], req);
    Unroll(d[1..][1..][1..][1..], req);
  }

  lemma Unroll(ps: seq<Policy>, req: Request)
    requires ps != []
    ensures Decide(ps, req) ==
      match ps[0].fn(req)
      case Defers => Decide(ps[1..], req)
      case Decides(d) => d
      case Crashes => Deny(ps[0].id)
  {
  }

  /**
   What is permitted under the default policies alone, by whoever asks: everything to
   a super admin; the public actions to anyone anonymous; its own record's actions to
   anyone else, unless the request names another tenant or country.
   */
  lemma DefaultsPermitIff(ops: seq<Operation>, req: Request)
    requires forall i :: 0 <= i < |ops| ==> !ops[i].RegisterExtra?
    ensures var answer := Authorize(PerformAll(ops), req);
      answer.Some? &&
      (answer.value.Permit? <==>
        || "super_admin" in req.ctx.roles
        || (req.ctx.principalId == "anonymous" && PublicAction(req.action))
        || (req.ctx.principalId != "anonymous" && OwnAction(req) &&
            !Elsewhere(req.resource.tenantId, req.ctx.tenantId) && !Elsewhere(req.resource.country, req.ctx.country)))
  {
    OnlyDefaultsAsked(ops);
    DefaultVerdicts(req);
    AskedInTurn(req);
  }
}
