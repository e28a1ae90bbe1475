/**
 The policy registry and the decision point (backend/app/kernel/authorization/policies.py,
 backend/app/kernel/authorization/pdp.py): policies in priority order, first decision wins.
 */
module Policies {
  import opened Basics
  import opened RequestContext

  /** The keys of the resource dictionary that the default policies read. */
  datatype Resource = Resource(tenantId: Option<string>, country: Option<string>, userId: Option<string>)

  datatype Request = Request(ctx: ExecutionContext, action: string, resource: Resource)

  datatype Decision = Permit(policyId: string) | Deny(policyId: string)

  /** What a policy function does: defer, decide, or raise. */
  datatype Verdict = Defers | Decides(decision: Decision) | Crashes

  datatype Policy = Policy(id: string, priority: int, fn: Request -> Verdict)

  // ---------- The default policies ----------

  /** An explicit target that differs from the caller's own. */
  predicate Crosses(target: Option<string>, own: Option<string>) {
    Truthy(target) && Truthy(own) && target != own
  }

  function TenantIsolation(r: Request): Verdict {
    if !IsAnonymous(r.ctx) && Crosses(r.resource.tenantId, r.ctx.tenantId) && !IsSuperAdmin(r.ctx)
    then Decides(Deny("platform.tenant_isolation")) else Defers
  }

  function CountryIsolation(r: Request): Verdict {
    if !IsAnonymous(r.ctx) && Crosses(r.resource.country, r.ctx.country) && !IsSuperAdmin(r.ctx)
    then Decides(Deny("platform.country_isolation")) else Defers
  }

  function SuperAdmin(r: Request): Verdict {
    if IsSuperAdmin(r.ctx) then Decides(Permit("platform.super_admin")) else Defers
  }

  function AnonymousPublic(r: Request): Verdict {
    if !IsAnonymous(r.ctx) then Defers
    else if "platform.public." <= r.action || r.action in {"identity.register", "identity.login", "identity.refresh"}
    then Decides(Permit("platform.anonymous_public"))
    else Decides(Deny("platform.anonymous_default_deny"))
  }

  function SelfActions(r: Request): Verdict {
    if IsAnonymous(r.ctx) then Defers
    else if r.action in {"identity.self.read", "identity.self.logout"} then Decides(Permit("identity.self"))
    else if r.action == "identity.user.read" && r.resource.userId == Some(r.ctx.principalId)
    then Decides(Permit("identity.self.read"))
    else Defers
  }

  const TENANT_ISOLATION := Policy("platform.tenant_isolation", 10, TenantIsolation)

  /** In the order in which `register_default_policies` registers them. */
  function Defaults(): seq<Policy> {
    [TENANT_ISOLATION,
     Policy("platform.country_isolation", 11, CountryIsolation),
     Policy("platform.super_admin", 20, SuperAdmin),
     Policy("platform.anonymous_public", 30, AnonymousPublic),
     Policy("identity.self", 40, SelfActions)]
  }

  // ---------- The registry ----------

  datatype Registry = Registry(policies: seq<Policy>, defaultsRegistered: bool)

  predicate HasId(ps: seq<Policy>, id: string) {
    exists i :: 0 <= i < |ps| && ps[i].id == id
  }

  /** Append and sort stably, for a list that is sorted already. */
  function Insert(p: Policy, ps: seq<Policy>): seq<Policy> {
    if ps == [] || p.priority < ps[0].priority then [p] + ps else [ps[0]] + Insert(p, ps[1..])
  }

  /** `register_policy`; None is the ValueError for an id that is taken. */
  function Register(ps: seq<Policy>, p: Policy): Option<seq<Policy>> {
    if HasId(ps, p.id) then None else Some(Insert(p, ps))
  }

  /** Register one after the other; the first refusal stops, and what came before it stays. */
  function RegisterAll(ps: seq<Policy>, more: seq<Policy>): (bool, seq<Policy>)
    decreases more
  {
    if more == [] then (true, ps)
    else
      var next := Register(ps, more[0]);
      if next.None? then (false, ps) else RegisterAll(next.value, more[1..])
  }

  /** `register_default_policies`, with whether it came through. */
  function RegisterDefaults(r: Registry): (bool, Registry) {
    if r.defaultsRegistered then (true, r)
    else
      var (ok, ps) := RegisterAll(r.policies, Defaults());
      (ok, Registry(ps, ok))
  }

  /** The loop of `authorize`. */
  function Decide(ps: seq<Policy>, req: Request): Decision {
    if ps == [] then Deny("platform.default_deny")
    else
      match ps[0].fn(req)
      case Defers => Decide(ps[1..], req)
      case Decides(d) => d
      case Crashes => Deny(ps[0].id)
  }

  /** `authorize`; None means that registering the defaults raised. */
  function Authorize(r: Registry, req: Request): Option<Decision> {
    var (ok, after) := RegisterDefaults(r);
    if ok then Some(Decide(after.policies, req)) else None
  }

  // ---------- Sorted, unique and stable ----------

  ghost predicate ByPriority(ps: seq<Policy>) {
    forall i, j :: 0 <= i < j < |ps| ==> ps[i].priority <= ps[j].priority
  }

  ghost predicate UniqueIds(ps: seq<Policy>) {
    forall i, j :: 0 <= i < j < |ps| ==> ps[i].id != ps[j].id
  }

  ghost function WithPriority(ps: seq<Policy>, k: int): seq<Policy> {
    if ps == [] then []
    else (if ps[0].priority == k then [ps[0]] else []) + WithPriority(ps[1..], k)
  }

  lemma {:induction false} InsertMembers(p: Policy, ps: seq<Policy>)
    ensures |Insert(p, ps)| == |ps| + 1
    ensures forall i :: 0 <= i < |Insert(p, ps)| ==> Insert(p, ps)[i] == p || exists j :: 0 <= j < |ps| && Insert(p, ps)[i] == ps[j]
  {
    if ps != [] && !(p.priority < ps[0].priority) {
      InsertMembers(p, ps[1..]);
      var rest := Insert(p, ps[1..]);
      forall i | 0 <= i < |Insert(p, ps)|
        ensures Insert(p, ps)[i] == p || exists j :: 0 <= j < |ps| && Insert(p, ps)[i] == ps[j]
      {
        if i > 0 && rest[i - 1] != p {
          var j :| 0 <= j < |ps[1..]| && rest[i - 1] == ps[1..][j];
          assert Insert(p, ps)[i] == ps[j + 1];
        }
      }
    }
  }

  lemma {:induction false} InsertKeepsOrder(p: Policy, ps: seq<Policy>)
    requires ByPriority(ps)
    ensures ByPriority(Insert(p, ps))
  {
    if ps != [] && !(p.priority < ps[0].priority) {
      InsertKeepsOrder(p, ps[1..]);
      InsertMembers(p, ps[1..]);
    }
  }

  lemma {:induction false} InsertKeepsUnique(p: Policy, ps: seq<Policy>)
    requires UniqueIds(ps) && !HasId(ps, p.id)
    ensures UniqueIds(Insert(p, ps))
  {
    if ps != [] && !(p.priority < ps[0].priority) {
      InsertKeepsUnique(p, ps[1..]);
      InsertMembers(p, ps[1..]);
    }
  }

  /** A new policy goes behind all registered policies of its own priority, and moves none of them. */
  lemma {:induction false} InsertIsStable(p: Policy, ps: seq<Policy>, k: int)
    requires ByPriority(ps)
    ensures WithPriority(Insert(p, ps), k) == WithPriority(ps, k) + if p.priority == k then [p] else []
  {
    if ps == [] {
    } else if p.priority < ps[0].priority {
      NoneBelow(ps, p.priority);
      assert ([p] + ps)[1..] == ps;
    } else {
      InsertIsStable(p, ps[1..], k);
      assert Insert(p, ps)[1..] == Insert(p, ps[1..]);
      Assoc(if ps[0].priority == k then [ps[0]] else [], WithPriority(ps[1..], k), if p.priority == k then [p] else []);
    }
  }

  lemma {:induction false} NoneBelow(ps: seq<Policy>, k: int)
    requires ByPriority(ps) && (ps != [] ==> k < ps[0].priority)
    ensures WithPriority(ps, k) == []
  {
    if ps != [] {
      NoneBelow(ps[1..], k);
    }
  }

  lemma SameTail<T>(a: seq<T>, b: seq<T>, c: seq<T>)
    requires a + b == a + c
    ensures b == c
  {
    assert (a + b)[|a|..] == b && (a + c)[|a|..] == c;
  }

  /** A list sorted by priority is determined by its policies of each priority, in order. */
  lemma {:induction false} SortedIsDetermined(ps: seq<Policy>, qs: seq<Policy>)
    requires ByPriority(ps) && ByPriority(qs)
    requires forall k :: WithPriority(ps, k) == WithPriority(qs, k)
    ensures ps == qs
  {
    if ps != [] {
      assert WithPriority(ps, ps[0].priority) == WithPriority(qs, ps[0].priority);
      LowestIsShared(ps, qs);
    }
    if qs != [] {
      assert WithPriority(qs, qs[0].priority) == WithPriority(ps, qs[0].priority);
      LowestIsShared(qs, ps);
    }
    if ps != [] {
      var k := ps[0].priority;
      assert WithPriority(ps, k)[0] == ps[0] && WithPriority(qs, k)[0] == qs[0];
      forall l ensures WithPriority(ps[1..], l) == WithPriority(qs[1..], l) {
        var first := if k == l then [ps[0]] else [];
        assert first + WithPriority(ps[1..], l) == WithPriority(ps, l) == WithPriority(qs, l) == first + WithPriority(qs[1..], l);
        SameTail(first, WithPriority(ps[1..], l), WithPriority(qs[1..], l));
      }
      SortedIsDetermined(ps[1..], qs[1..]);
      assert ps == [ps[0]] + ps[1..] && qs == [qs[0]] + qs[1..];
    }
  }

  lemma LowestIsShared(ps: seq<Policy>, qs: seq<Policy>)
    requires ps != [] && ByPriority(qs)
    requires WithPriority(ps, ps[0].priority) == WithPriority(qs, ps[0].priority)
    ensures qs != [] && qs[0].priority <= ps[0].priority
  {
    if qs == [] || ps[0].priority < qs[0].priority {
      NoneBelow(qs, ps[0].priority);
    }
  }

  /**
   After any registrations the registry is sorted by priority, holds each id once, and
   keeps policies of one priority in the order in which they were registered: it is
   the stable sort of the registration order.
   */
  lemma {:induction false} RegistryIsStableSort(ps: seq<Policy>, more: seq<Policy>)
    requires ByPriority(ps) && UniqueIds(ps) && RegisterAll(ps, more).0
    ensures var after := RegisterAll(ps, more).1;
      ByPriority(after) && UniqueIds(after) && forall k :: WithPriority(after, k) == WithPriority(ps, k) + WithPriority(more, k)
    decreases more
  {
    if more != [] {
      var next := Insert(more[0], ps);
      InsertKeepsOrder(more[0], ps);
      InsertKeepsUnique(more[0], ps);
      RegistryIsStableSort(next, more[1..]);
      forall k ensures WithPriority(RegisterAll(ps, more).1, k) == WithPriority(ps, k) + WithPriority(more, k) {
        InsertIsStable(more[0], ps, k);
        Assoc(WithPriority(ps, k), if more[0].priority == k then [more[0]] else [], WithPriority(more[1..], k));
      }
    }
  }

  ghost predicate DistinctPriorities(ps: seq<Policy>) {
    forall i, j :: 0 <= i < j < |ps| ==> ps[i].priority != ps[j].priority
  }

  lemma {:induction false} OnlyOneOfPriority(ps: seq<Policy>, k: int)
    requires DistinctPriorities(ps)
    ensures WithPriority(ps, k) == [] ==> forall i :: 0 <= i < |ps| ==> ps[i].priority != k
    ensures WithPriority(ps, k) != [] ==> |WithPriority(ps, k)| == 1 && exists i :: 0 <= i < |ps| && ps[i].priority == k && WithPriority(ps, k) == [ps[i]]
  {
    if ps != [] {
      OnlyOneOfPriority(ps[1..], k);
      assert forall i :: 0 < i < |ps| ==> ps[i] == ps[1..][i - 1];
      if ps[0].priority != k && WithPriority(ps[1..], k) != [] {
        var i :| 0 <= i < |ps[1..]| && ps[1..][i].priority == k && WithPriority(ps[1..], k) == [ps[1..][i]];
        assert ps[i + 1].priority == k;
      }
    }
  }

  /** `ps` lists exactly the policies of `qs`. */
  ghost predicate Within(ps: seq<Policy>, qs: seq<Policy>) {
    forall i :: 0 <= i < |ps| ==> exists j :: 0 <= j < |qs| && qs[j] == ps[i]
  }

  lemma FoundInOther(a: seq<Policy>, b: seq<Policy>, k: int)
    requires DistinctPriorities(a) && DistinctPriorities(b) && Within(a, b)
    ensures WithPriority(a, k) != [] ==> WithPriority(b, k) == WithPriority(a, k)
  {
    OnlyOneOfPriority(a, k);
    OnlyOneOfPriority(b, k);
    if WithPriority(a, k) != [] {
      var i :| 0 <= i < |a| && a[i].priority == k && WithPriority(a, k) == [a[i]];
      var j :| 0 <= j < |b| && b[j] == a[i];
    }
  }

  /** With distinct priorities the order of registration shows in no decision. */
  lemma RegistrationOrderIsIrrelevant(a: seq<Policy>, b: seq<Policy>, req: Request)
    requires DistinctPriorities(a) && DistinctPriorities(b) && Within(a, b) && Within(b, a)
    requires RegisterAll([], a).0 && RegisterAll([], b).0
    ensures Decide(RegisterAll([], a).1, req) == Decide(RegisterAll([], b).1, req)
  {
    var p, q := RegisterAll([], a).1, RegisterAll([], b).1;
    RegistryIsStableSort([], a);
    RegistryIsStableSort([], b);
    forall k ensures WithPriority(p, k) == WithPriority(q, k) {
      FoundInOther(a, b, k);
      FoundInOther(b, a, k);
      assert WithPriority(p, k) == [] + WithPriority(a, k) && WithPriority(q, k) == [] + WithPriority(b, k);
    }
    SortedIsDetermined(p, q);
  }
}
