/**
 What tenant isolation is worth in a registry that anyone may extend
 (backend/app/kernel/authorization/policies.py, backend/app/kernel/authorization/pdp.py):
 when `authorize` raises, and exactly what it answers to an explicit cross-tenant
 request after any history of registrations, requests and resets.
 */
module TenantGuarantees {
  import opened Basics
  import opened RequestContext
  import opened Policies

  datatype Operation = RegisterExtra(policy: Policy) | Ask(request: Request) | Reset

  function Perform(r: Registry, op: Operation): Registry {
    match op
    case RegisterExtra(p) =>
      var next := Register(r.policies, p);
      if next.Some? then r.(policies := next.value) else r
    case Ask(_) => RegisterDefaults(r).1
    case Reset => Registry([], false)
  }

  function PerformAll(ops: seq<Operation>): Registry {
    if ops == [] then Registry([], false) else Perform(PerformAll(ops[..|ops| - 1]), ops[|ops| - 1])
  }

  // ---------- When authorization raises ----------

  /** No policy has taken the id of a default one. */
  predicate DefaultsFit(ps: seq<Policy>) {
    forall i :: 0 <= i < |Defaults()| ==> !HasId(ps, Defaults()[i].id)
  }

  lemma DefaultsAreDistinct()
    ensures UniqueIds(Defaults())
  {
    var d := Defaults();
    assert d[0].id[9] == 't' && d[1].id[9] == 'c' && d[2].id[9] == 's' && d[3].id[9] == 'a' && d[4].id[9] == 's';
    assert d[2].id[0] == 'p' && d[4].id[0] == 'i';
  }

  lemma {:induction false} InsertIds(p: Policy, ps: seq<Policy>, id: string)
    ensures HasId(Insert(p, ps), id) <==> id == p.id || HasId(ps, id)
  {
    if ps == [] || p.priority < ps[0].priority {
      assert [p][0] == p;
      SplitIds([p], ps, id);
    } else {
      InsertIds(p, ps[1..], id);
      SplitIds([ps[0]], Insert(p, ps[1..]), id);
      SplitIds([ps[0]], ps[1..], id);
      assert ps == [ps[0]] + ps[1..];
    }
  }

  lemma SplitIds(a: seq<Policy>, b: seq<Policy>, id: string)
    ensures HasId(a + b, id) <==> HasId(a, id) || HasId(b, id)
  {
    if i :| 0 <= i < |a| && a[i].id == id {
      assert (a + b)[i].id == id;
    }
    if i :| 0 <= i < |b| && b[i].id == id {
      assert (a + b)[|a| + i].id == id;
    }
  }

  /** Policies with ids of their own can all be registered exactly when none of the ids is taken. */
  lemma {:induction false} AllRegisterIff(ps: seq<Policy>, more: seq<Policy>)
    requires UniqueIds(more)
    ensures RegisterAll(ps, more).0 <==> forall i :: 0 <= i < |more| ==> !HasId(ps, more[i].id)
    decreases more
  {
    if more != [] && !HasId(ps, more[0].id) {
      AllRegisterIff(Insert(more[0], ps), more[1..]);
      forall i | 0 < i < |more| ensures HasId(Insert(more[0], ps), more[1..][i - 1].id) <==> HasId(ps, more[i].id) {
        InsertIds(more[0], ps, more[i].id);
      }
      assert forall i :: 0 < i < |more| ==> more[i] == more[1..][i - 1];
    }
  }

  lemma {:induction false} IdsStay(ps: seq<Policy>, more: seq<Policy>, id: string)
    requires HasId(ps, id)
    ensures HasId(RegisterAll(ps, more).1, id)
    decreases more
  {
    if more != [] && !HasId(ps, more[0].id) {
      InsertIds(more[0], ps, id);
      IdsStay(Insert(more[0], ps), more[1..], id);
    }
  }

  /** `authorize` raises exactly when the defaults are yet to be registered and a default id is taken. */
  lemma AuthorizeRaisesIff(r: Registry, req: Request)
    ensures Authorize(r, req).None? <==> !r.defaultsRegistered && !DefaultsFit(r.policies)
  {
    DefaultsAreDistinct();
    AllRegisterIff(r.policies, Defaults());
  }

  lemma StillUnfit(r: Registry)
    requires !r.defaultsRegistered && !DefaultsFit(r.policies)
    ensures !RegisterDefaults(r).1.defaultsRegistered && !DefaultsFit(RegisterDefaults(r).1.policies)
  {
    var i :| 0 <= i < |Defaults()| && HasId(r.policies, Defaults()[i].id);
    IdsStay(r.policies, Defaults(), Defaults()[i].id);
    DefaultsAreDistinct();
    AllRegisterIff(r.policies, Defaults());
  }

  /** Once it has raised it raises again on every further request, until the registry is reset. */
  lemma RaisingPersists(r: Registry, first: Request, next: Request)
    requires Authorize(r, first).None?
    ensures Authorize(Perform(r, Ask(first)), next).None?
  {
    AuthorizeRaisesIff(r, first);
    StillUnfit(r);
    AuthorizeRaisesIff(RegisterDefaults(r).1, next);
  }

  /** Registering any policy under a default id before the first request makes every request raise. */
  lemma TakenIdRaises(p: Policy, k: nat, req: Request)
    requires k < |Defaults()| && p.id == Defaults()[k].id
    ensures Authorize(PerformAll([RegisterExtra(p)]), req).None?
  {
    assert PerformAll([RegisterExtra(p)]) == Registry([p], false);
    assert [p][0].id == Defaults()[k].id;
    AuthorizeRaisesIff(Registry([p], false), req);
  }

  /** One such input: a policy that never decides anything, under the super-admin policy's id. */
  lemma SuperAdminIdTaken(req: Request)
    ensures Authorize(PerformAll([RegisterExtra(Policy("platform.super_admin", 50, _ => Defers))]), req).None?
  {
    TakenIdRaises(Policy("platform.super_admin", 50, _ => Defers), 2, req);
  }

  // ---------- Which policies are asked before the tenant policy ----------

  /** Those of lower priority, and those of its own priority that were registered before it. */
  function Ahead(ops: seq<Operation>): seq<Policy> {
    if ops == [] then []
    else
      var before := ops[..|ops| - 1];
      match ops[|ops| - 1]
      case Reset => []
      case Ask(_) => Ahead(before)
      case RegisterExtra(p) =>
        var r := PerformAll(before);
        if !HasId(r.policies, p.id) && (p.priority < 10 || (p.priority == 10 && !r.defaultsRegistered)) then Insert(p, Ahead(before))
        else Ahead(before)
  }

  ghost predicate AtMost(ps: seq<Policy>, k: int) {
    forall i :: 0 <= i < |ps| ==> ps[i].priority <= k
  }

  ghost predicate AtLeast(ps: seq<Policy>, k: int) {
    forall i :: 0 <= i < |ps| ==> ps[i].priority >= k
  }

  lemma InsertBounds(p: Policy, ps: seq<Policy>, k: int)
    ensures AtMost(ps, k) && p.priority <= k ==> AtMost(Insert(p, ps), k)
    ensures AtLeast(ps, k) && p.priority >= k ==> AtLeast(Insert(p, ps), k)
  {
    InsertMembers(p, ps);
  }

  /** A policy goes into the front part of a list if the back part starts with a greater priority. */
  lemma {:induction false} InsertFront(p: Policy, a: seq<Policy>, b: seq<Policy>)
    requires b != [] ==> p.priority < b[0].priority
    ensures Insert(p, a + b) == Insert(p, a) + b
  {
    if a == [] {
      assert a + b == b;
    } else if p.priority < a[0].priority {
      Assoc([p], a, b);
    } else {
      assert (a + b)[1..] == a[1..] + b;
      InsertFront(p, a[1..], b);
      Assoc([a[0]], Insert(p, a[1..]), b);
    }
  }

  /** It goes into the back part if the front part holds no greater priority. */
  lemma {:induction false} InsertBack(p: Policy, a: seq<Policy>, b: seq<Policy>)
    requires AtMost(a, p.priority)
    ensures Insert(p, a + b) == a + Insert(p, b)
  {
    if a == [] {
      assert a + b == b && a + Insert(p, b) == Insert(p, b);
    } else {
      assert (a + b)[1..] == a[1..] + b;
      InsertBack(p, a[1..], b);
      Assoc([a[0]], a[1..], Insert(p, b));
      assert a == [a[0]] + a[1..];
    }
  }

  /** The registry is `ahead`, then the tenant policy, then the rest. */
  ghost predicate SplitByTenant(ps: seq<Policy>, ahead: seq<Policy>) {
    exists rest :: ps == ahead + ([TENANT_ISOLATION] + rest) && AtMost(ahead, 10) && AtLeast(rest, 10)
  }

  /** Before the defaults are registered: `ahead`, then policies of priority above 10. */
  ghost predicate SplitAtTen(ps: seq<Policy>, ahead: seq<Policy>) {
    exists rest :: ps == ahead + rest && AtMost(ahead, 10) && AtLeast(rest, 11)
  }

  /** `ahead` is right, unless every request raises anyway. */
  ghost predicate Arranged(r: Registry, ahead: seq<Policy>) {
    if r.defaultsRegistered then SplitByTenant(r.policies, ahead)
    else DefaultsFit(r.policies) ==> SplitAtTen(r.policies, ahead)
  }

  lemma ExtraWithDefaults(ps: seq<Policy>, ahead: seq<Policy>, p: Policy)
    requires SplitByTenant(ps, ahead)
    ensures SplitByTenant(Insert(p, ps), if p.priority < 10 then Insert(p, ahead) else ahead)
  {
    var rest :| ps == ahead + ([TENANT_ISOLATION] + rest) && AtMost(ahead, 10) && AtLeast(rest, 10);
    if p.priority < 10 {
      InsertFront(p, ahead, [TENANT_ISOLATION] + rest);
      InsertBounds(p, ahead, 10);
    } else {
      InsertBack(p, ahead, [TENANT_ISOLATION] + rest);
      InsertBack(p, [TENANT_ISOLATION], rest);
      InsertBounds(p, rest, 10);
      assert Insert(p, ps) == ahead + ([TENANT_ISOLATION] + Insert(p, rest));
    }
  }

  lemma ExtraBeforeDefaults(ps: seq<Policy>, ahead: seq<Policy>, p: Policy)
    requires SplitAtTen(ps, ahead)
    ensures SplitAtTen(Insert(p, ps), if p.priority <= 10 then Insert(p, ahead) else ahead)
  {
    var rest :| ps == ahead + rest && AtMost(ahead, 10) && AtLeast(rest, 11);
    if p.priority <= 10 {
      InsertFront(p, ahead, rest);
      InsertBounds(p, ahead, 10);
    } else {
      InsertBack(p, ahead, rest);
      InsertBounds(p, rest, 11);
    }
  }

  lemma {:induction false} MoreWithTenant(ps: seq<Policy>, ahead: seq<Policy>, more: seq<Policy>)
    requires SplitByTenant(ps, ahead) && AtLeast(more, 10)
    ensures SplitByTenant(RegisterAll(ps, more).1, ahead)
    decreases more
  {
    if more != [] && !HasId(ps, more[0].id) {
      ExtraWithDefaults(ps, ahead, more[0]);
      MoreWithTenant(Insert(more[0], ps), ahead, more[1..]);
    }
  }

  /** Registering the defaults puts the tenant policy right behind the policies ahead of it. */
  lemma DefaultsAreArranged(r: Registry, ahead: seq<Policy>)
    requires Arranged(r, ahead)
    ensures Arranged(RegisterDefaults(r).1, ahead)
  {
    DefaultsAreDistinct();
    AllRegisterIff(r.policies, Defaults());
    if !r.defaultsRegistered && DefaultsFit(r.policies) {
      var d := Defaults();
      var rest :| r.policies == ahead + rest && AtMost(ahead, 10) && AtLeast(rest, 11);
      InsertBack(d[0], ahead, rest);
      assert Insert(d[0], rest) == [d[0]] + rest;
      assert SplitByTenant(Insert(d[0], r.policies), ahead);
      assert !HasId(r.policies, d[0].id);
      MoreWithTenant(Insert(d[0], r.policies), ahead, d[1..]);
      assert RegisterAll(r.policies, d) == RegisterAll(Insert(d[0], r.policies), d[1..]);
    } else if !r.defaultsRegistered {
      StillUnfit(r);
    }
  }

  lemma ExtraIsArranged(r: Registry, ahead: seq<Policy>, p: Policy)
    requires Arranged(r, ahead) && !HasId(r.policies, p.id)
    ensures Arranged(r.(policies := Insert(p, r.policies)),
                     if p.priority < 10 || (p.priority == 10 && !r.defaultsRegistered) then Insert(p, ahead) else ahead)
  {
    if r.defaultsRegistered {
      ExtraWithDefaults(r.policies, ahead, p);
    } else if DefaultsFit(r.policies) {
      ExtraBeforeDefaults(r.policies, ahead, p);
    } else {
      var i :| 0 <= i < |Defaults()| && HasId(r.policies, Defaults()[i].id);
      InsertIds(p, r.policies, Defaults()[i].id);
    }
  }

  lemma {:induction false} RunIsArranged(ops: seq<Operation>)
    ensures Arranged(PerformAll(ops), Ahead(ops))
  {
    if ops == [] {
      NothingIsArranged();
    } else {
      var before, op := ops[..|ops| - 1], ops[|ops| - 1];
      var r := PerformAll(before);
      RunIsArranged(before);
      match op
      case RegisterExtra(p) =>
        if !HasId(r.policies, p.id) {
          ExtraIsArranged(r, Ahead(before), p);
        }
      case Ask(_) => DefaultsAreArranged(r, Ahead(before));
      case Reset => NothingIsArranged();
    }
  }

  lemma NothingIsArranged()
    ensures Arranged(Registry([], false), [])
  {
    var none: seq<Policy> := [];
    assert none == none + none && AtMost(none, 10) && AtLeast(none, 11);
  }

  // ---------- What a cross-tenant request is answered ----------

  /** An authenticated caller with a tenant, no super admin, names another tenant. */
  ghost predicate CrossTenant(req: Request) {
    !IsAnonymous(req.ctx) && Crosses(req.resource.tenantId, req.ctx.tenantId) && !IsSuperAdmin(req.ctx)
  }

  /** The decision of the first policy that does not defer. */
  function FirstDecision(ps: seq<Policy>, req: Request): Option<Decision> {
    if ps == [] then None
    else
      match ps[0].fn(req)
      case Defers => FirstDecision(ps[1..], req)
      case Decides(d) => Some(d)
      case Crashes => Some(Deny(ps[0].id))
  }

  lemma {:induction false} NoDecisionIffAllDefer(ps: seq<Policy>, req: Request)
    ensures FirstDecision(ps, req).None? <==> forall i :: 0 <= i < |ps| ==> ps[i].fn(req) == Defers
  {
    if ps != [] {
      NoDecisionIffAllDefer(ps[1..], req);
      assert forall i :: 0 < i < |ps| ==> ps[i] == ps[1..][i - 1];
    }
  }

  lemma {:induction false} DecideInOrder(a: seq<Policy>, b: seq<Policy>, req: Request)
    ensures Decide(a + b, req) == var first := FirstDecision(a, req); if first.Some? then first.value else Decide(b, req)
  {
    if a == [] {
      assert a + b == b;
    } else {
      assert (a + b)[1..] == a[1..] + b;
      DecideInOrder(a[1..], b, req);
    }
  }

  /**
   The answer to an explicit cross-tenant request after any history, whatever policies
   were registered, at whatever priorities, crashing ones included: the first decision
   of a policy ahead of the tenant policy if there is one, and the tenant policy's
   denial otherwise.
   */
  lemma CrossTenantAnswer(ops: seq<Operation>, req: Request)
    requires CrossTenant(req) && Authorize(PerformAll(ops), req).Some?
    ensures var first := FirstDecision(Ahead(ops), req);
      Authorize(PerformAll(ops), req) == Some(if first.Some? then first.value else Deny("platform.tenant_isolation"))
  {
    var r, ahead := PerformAll(ops), Ahead(ops);
    RunIsArranged(ops);
    DefaultsAreArranged(r, ahead);
    AuthorizeRaisesIff(r, req);
    var ps := RegisterDefaults(r).1.policies;
    assert RegisterDefaults(r).1.defaultsRegistered;
    var rest :| ps == ahead + ([TENANT_ISOLATION] + rest) && AtMost(ahead, 10) && AtLeast(rest, 10);
    DecideInOrder(ahead, [TENANT_ISOLATION] + rest, req);
  }

  /** The denial stands if every policy ahead of the tenant policy defers on the request. */
  lemma DenialStands(ops: seq<Operation>, req: Request)
    requires CrossTenant(req) && Authorize(PerformAll(ops), req).Some?
    requires forall i :: 0 <= i < |Ahead(ops)| ==> Ahead(ops)[i].fn(req) == Defers
    ensures Authorize(PerformAll(ops), req) == Some(Deny("platform.tenant_isolation"))
  {
    CrossTenantAnswer(ops, req);
    NoDecisionIffAllDefer(Ahead(ops), req);
  }

  ghost predicate ExtrasAboveTen(ops: seq<Operation>) {
    forall i :: 0 <= i < |ops| && ops[i].RegisterExtra? ==> ops[i].policy.priority > 10
  }

  lemma {:induction false} NothingAhead(ops: seq<Operation>)
    requires ExtrasAboveTen(ops)
    ensures Ahead(ops) == []
  {
    if ops != [] {
      NothingAhead(ops[..|ops| - 1]);
    }
  }

  /**
   With extra policies of priority above 10 only, registered at any time, an explicit
   cross-tenant request is always denied by the tenant policy, except that `authorize`
   raises when a default id was taken before the defaults were registered.
   */
  lemma CrossTenantIsNeverPermitted(ops: seq<Operation>, req: Request)
    requires ExtrasAboveTen(ops) && CrossTenant(req)
    ensures var r := PerformAll(ops);
      Authorize(r, req) ==
        if r.defaultsRegistered || DefaultsFit(r.policies) then Some(Deny("platform.tenant_isolation")) else None
  {
    NothingAhead(ops);
    AuthorizeRaisesIff(PerformAll(ops), req);
    if Authorize(PerformAll(ops), req).Some? {
      CrossTenantAnswer(ops, req);
    }
  }

  /** Policies with new ids and no smaller priority are all registered, behind the first one. */
  lemma {:induction false} HeadStaysFirst(ps: seq<Policy>, more: seq<Policy>)
    requires ps != [] && UniqueIds(more)
    requires forall i :: 0 <= i < |more| ==> !HasId(ps, more[i].id) && ps[0].priority <= more[i].priority
    ensures RegisterAll(ps, more).0 && RegisterAll(ps, more).1 != [] && RegisterAll(ps, more).1[0] == ps[0]
    decreases more
  {
    if more != [] {
      forall i | 0 <= i < |more[1..]| ensures !HasId(Insert(more[0], ps), more[1..][i].id) {
        InsertIds(more[0], ps, more[1..][i].id);
        assert more[1..][i] == more[i + 1];
      }
      HeadStaysFirst(Insert(more[0], ps), more[1..]);
    }
  }

  /** The bound is exact: any policy of priority 10 or less, registered before the defaults, has the first word on every request. */
  lemma PriorityTenComesFirst(p: Policy, req: Request)
    requires p.priority <= 10 && DefaultsFit([p]) && p.fn(req) != Defers
    ensures Authorize(PerformAll([RegisterExtra(p)]), req) == FirstDecision([p], req)
  {
    assert PerformAll([RegisterExtra(p)]) == Registry([p], false);
    DefaultsAreDistinct();
    HeadStaysFirst([p], Defaults());
  }
}
