/**
 The module-level policy list and its flag, as the object that registration changes
 in place (backend/app/kernel/authorization/policies.py), and the decision loop over
 a copy of it (backend/app/kernel/authorization/pdp.py).
 */
module PolicyRegistry {
  import opened Basics
  import opened Policies
  import opened PolicyAnswers

  class PolicyList {
    var policies: seq<Policy>
    var defaultsRegistered: bool

    function State(): Registry
      reads this
    {
      Registry(policies, defaultsRegistered)
    }

    ghost predicate Valid()
      reads this
    {
      ByPriority(policies) && UniqueIds(policies)
    }

    constructor ()
      ensures Valid() && State() == Registry([], false)
    {
      policies, defaultsRegistered := [], false;
    }

    /** `register_policy`: false is the error for an id that is taken. */
    method RegisterPolicy(p: Policy) returns (ok: bool)
      requires Valid()
      modifies this`policies
      ensures Valid()
      ensures ok <==> !HasId(old(policies), p.id)
      ensures Register(old(policies), p) == if ok then Some(policies) else None
      ensures !ok ==> policies == old(policies)
      ensures ok ==> forall k :: WithPriority(policies, k) == WithPriority(old(policies), k) + if p.priority == k then [p] else []
    {
      if HasId(policies, p.id) {
        return false;
      }
      InsertKeepsOrder(p, policies);
      InsertKeepsUnique(p, policies);
      forall k ensures WithPriority(Insert(p, policies), k) == WithPriority(policies, k) + if p.priority == k then [p] else [] {
        InsertIsStable(p, policies, k);
      }
      policies := Insert(p, policies);
      return true;
    }

    /** `reset_policies`. */
    method ResetPolicies()
      modifies this
      ensures Valid() && State() == Registry([], false)
    {
      policies, defaultsRegistered := [], false;
    }

    /** `register_default_policies`: idempotent; a taken id stops it half way. */
    method RegisterDefaultPolicies() returns (ok: bool)
      requires Valid()
      modifies this
      ensures Valid() && (ok, State()) == RegisterDefaults(old(State()))
    {
      if defaultsRegistered {
        return true;
      }
      var defaults := Defaults();
      ghost var before := policies;
      for i := 0 to |defaults|
        invariant Valid() && !defaultsRegistered
        invariant RegisterAll(before, defaults) == RegisterAll(policies, defaults[i..])
      {
        assert defaults[i..][1..] == defaults[i + 1..];
        ok := RegisterPolicy(defaults[i]);
        if !ok {
          return false;
        }
      }
      defaultsRegistered := true;
      return true;
    }

    /** `authorize`: the first policy that does not defer decides, and one that raises denies. */
    method AuthorizeRequest(req: Request) returns (decision: Option<Decision>)
      requires Valid()
      modifies this
      ensures Valid() && State() == RegisterDefaults(old(State())).1
      ensures decision == Authorize(old(State()), req)
      ensures decision.Some? ==> Answers(policies, req, decision.value)
    {
      DecideAnswers(RegisterDefaults(State()).1.policies, req);
      var ok := RegisterDefaultPolicies();
      if !ok {
        return None;
      }
      var copy := policies;
      for i := 0 to |copy|
        invariant Decide(copy, req) == Decide(copy[i..], req)
      {
        assert copy[i..][1..] == copy[i + 1..];
        match copy[i].fn(req)
        case Defers =>
        case Decides(d) => return Some(d);
        case Crashes => return Some(Deny(copy[i].id));
      }
      return Some(Deny("platform.default_deny"));
    }
  }
}
