/**
 The sliding-window rate limiter (backend/app/kernel/security/http_hardening.py).
 Times are real numbers; the clock never goes backwards.
 */
module RateLimiter {
  import opened Basics

  /** A window's length in seconds. */
  type Seconds = w: real | w >= 1.0 witness 1.0

  datatype Limit = Limit(maxRequests: nat, window: Seconds)

  datatype Rule = Rule(prefix: string, limit: Limit)

  const LOGIN := "/v1/auth/login"
  const REGISTER := "/v1/auth/register"
  const REFRESH := "/v1/auth/refresh"
  const ACCEPT := "/v1/auth/invitations/accept"

  /** Path prefixes and their limits, in the order in which they are tried. */
  const RATE_LIMITS: seq<Rule> := [
    Rule(LOGIN, Limit(10, 60.0)),
    Rule(REGISTER, Limit(5, 60.0)),
    Rule(REFRESH, Limit(30, 60.0)),
    Rule(ACCEPT, Limit(5, 60.0))
  ]

  // ---------- Admitted requests over time ----------

  ghost predicate Sorted(ts: seq<real>) {
    forall i, j :: 0 <= i < j < |ts| ==> ts[i] <= ts[j]
  }

  /** The times at or after `cutoff`. */
  function Since(ts: seq<real>, cutoff: real): seq<real> {
    if ts == [] then []
    else Since(ts[..|ts| - 1], cutoff) + if ts[|ts| - 1] >= cutoff then [ts[|ts| - 1]] else []
  }

  /** How many of the times lie in a closed interval. */
  function CountWithin(ts: seq<real>, from: real, to: real): nat {
    if ts == [] then 0
    else CountWithin(ts[..|ts| - 1], from, to) + if from <= ts[|ts| - 1] <= to then 1 else 0
  }

  /** Every admission found fewer than `max` admissions in the window before it. */
  ghost predicate Throttled(history: seq<real>, limit: Limit) {
    forall i {:trigger AdmittedInTime(history[..i], history[i], limit)} ::
      0 <= i < |history| ==> AdmittedInTime(history[..i], history[i], limit)
  }

  predicate AdmittedInTime(before: seq<real>, now: real, limit: Limit) {
    |Since(before, now - limit.window)| < limit.maxRequests
  }

  lemma {:induction false} SinceOfSorted(ts: seq<real>, cutoff: real)
    requires Sorted(ts)
    ensures |Since(ts, cutoff)| <= |ts|
    ensures Since(ts, cutoff) == ts[|ts| - |Since(ts, cutoff)|..]
    ensures forall i :: 0 <= i < |ts| ==> (ts[i] >= cutoff <==> i >= |ts| - |Since(ts, cutoff)|)
  {
    if ts != [] {
      var front, last := ts[..|ts| - 1], ts[|ts| - 1];
      SinceOfSorted(front, cutoff);
      assert ts == front + [last];
      if last < cutoff {
        assert forall i :: 0 <= i < |ts| ==> ts[i] <= last;
        assert Since(front, cutoff) == [] by {
          assert forall i :: 0 <= i < |front| ==> front[i] == ts[i];
        }
      }
    }
  }

  /** Dropping old times twice is dropping them once, by the later cutoff. */
  lemma {:induction false} SinceSince(ts: seq<real>, a: real, b: real)
    requires a <= b
    ensures Since(Since(ts, a), b) == Since(ts, b)
  {
    if ts != [] {
      var front, last := ts[..|ts| - 1], ts[|ts| - 1];
      SinceSince(front, a, b);
      if last >= a {
        assert Since(ts, a)[..|Since(ts, a)| - 1] == Since(front, a);
      } else {
        assert Since(ts, a) == Since(front, a);
      }
    }
  }

  lemma {:induction false} CountAtMostSince(ts: seq<real>, from: real, to: real, cutoff: real)
    requires cutoff <= from
    ensures CountWithin(ts, from, to) <= |Since(ts, cutoff)|
  {
    if ts != [] {
      CountAtMostSince(ts[..|ts| - 1], from, to, cutoff);
    }
  }

  lemma ThrottledFront(history: seq<real>, limit: Limit)
    requires history != [] && Sorted(history) && Throttled(history, limit)
    ensures Sorted(history[..|history| - 1]) && Throttled(history[..|history| - 1], limit)
  {
    var front := history[..|history| - 1];
    forall i | 0 <= i < |front| ensures AdmittedInTime(front[..i], front[i], limit) {
      assert front[..i] == history[..i];
      assert AdmittedInTime(history[..i], history[i], limit);
    }
  }

  lemma ThrottledBefore(history: seq<real>, limit: Limit)
    requires history != [] && Throttled(history, limit)
    ensures AdmittedInTime(history[..|history| - 1], history[|history| - 1], limit)
  {
    var last := |history| - 1;
    assert AdmittedInTime(history[..last], history[last], limit);
  }

  /**
   In any closed interval as long as the window, wherever it starts, at most
   `maxRequests` of a throttled history were admitted.
   */
  lemma {:induction false} AnyWindowIsBounded(history: seq<real>, limit: Limit, from: real)
    requires Sorted(history) && Throttled(history, limit)
    ensures CountWithin(history, from, from + limit.window) <= limit.maxRequests
  {
    if history != [] {
      var front, last := history[..|history| - 1], history[|history| - 1];
      var to := from + limit.window;
      if from <= last <= to {
        ThrottledBefore(history, limit);
        CountAtMostSince(front, from, to, last - limit.window);
      } else {
        ThrottledFront(history, limit);
        AnyWindowIsBounded(front, limit, from);
      }
    }
  }

  // ---------- Retrying ----------

  /** Python's `int`: towards zero. */
  function Truncate(x: real): int {
    if x >= 0.0 then x.Floor else -((-x).Floor)
  }

  /** The Retry-After header of a rejection. */
  function RetryAfter(hits: seq<real>, limit: Limit, now: real): int {
    var remaining := if hits == [] then Truncate(limit.window) else Truncate(limit.window - (now - hits[0]));
    if remaining > 1 then remaining else 1
  }

  /** A request at `now` is turned away: the window before it is full. */
  predicate Full(history: seq<real>, limit: Limit, now: real) {
    |Since(history, now - limit.window)| >= limit.maxRequests
  }

  lemma RetryAfterIsInRange(hits: seq<real>, limit: Limit, now: real)
    requires hits != [] ==> now - limit.window <= hits[0] <= now
    ensures 1 <= RetryAfter(hits, limit, now) && RetryAfter(hits, limit, now) as real <= limit.window
  {
  }

  lemma OldestGone(hits: seq<real>, cutoff: real)
    requires Sorted(hits) && hits != []
    ensures |Since(hits, cutoff)| < |hits| <==> hits[0] < cutoff
  {
    SinceOfSorted(hits, cutoff);
  }

  lemma SinceIsSorted(ts: seq<real>, cutoff: real)
    requires Sorted(ts)
    ensures Sorted(Since(ts, cutoff))
  {
    SinceOfSorted(ts, cutoff);
  }

  /** With no admission in between, a later request passes exactly when the oldest counted one has left the window. */
  lemma LaterPassesIff(history: seq<real>, limit: Limit, now: real, later: real)
    requires Sorted(history) && now <= later
    requires |Since(history, now - limit.window)| == limit.maxRequests > 0
    ensures !Full(history, limit, later) <==> Since(history, now - limit.window)[0] < later - limit.window
  {
    SinceIsSorted(history, now - limit.window);
    SinceSince(history, now - limit.window, later - limit.window);
    OldestGone(Since(history, now - limit.window), later - limit.window);
  }

  /** A retry that waits one second longer than advertised always passes. */
  lemma RetryASecondLaterPasses(history: seq<real>, limit: Limit, now: real, later: real)
    requires Sorted(history) && now <= later
    requires |Since(history, now - limit.window)| == limit.maxRequests > 0
    requires Since(history, now - limit.window)[0] <= now
    requires later >= now + RetryAfter(Since(history, now - limit.window), limit, now) as real + 1.0
    ensures !Full(history, limit, later)
  {
    SinceOfSorted(history, now - limit.window);
    LaterPassesIff(history, limit, now, later);
  }

  /**
   A retry after exactly the advertised time passes only if less than a second of
   the window was left: otherwise truncation, or the closed window, holds it back.
   */
  lemma RetryOnTimePassesIff(history: seq<real>, limit: Limit, now: real)
    requires Sorted(history)
    requires |Since(history, now - limit.window)| == limit.maxRequests > 0
    requires Since(history, now - limit.window)[0] <= now
    ensures var hits := Since(history, now - limit.window);
      !Full(history, limit, now + RetryAfter(hits, limit, now) as real) <==> limit.window - (now - hits[0]) < 1.0
  {
    var hits := Since(history, now - limit.window);
    SinceOfSorted(history, now - limit.window);
    LaterPassesIff(history, limit, now, now + RetryAfter(hits, limit, now) as real);
  }

  /** The advertised time is not too long: unless it is the minimum, one second earlier the window is still full. */
  lemma RetryIsNotLate(history: seq<real>, limit: Limit, now: real)
    requires Sorted(history)
    requires |Since(history, now - limit.window)| == limit.maxRequests > 0
    requires Since(history, now - limit.window)[0] <= now
    ensures var retry := RetryAfter(Since(history, now - limit.window), limit, now);
      retry > 1 ==> Full(history, limit, now + (retry - 1) as real)
  {
    var retry := RetryAfter(Since(history, now - limit.window), limit, now);
    if retry > 1 {
      SinceOfSorted(history, now - limit.window);
      LaterPassesIff(history, limit, now, now + (retry - 1) as real);
    }
  }

  /** The window is full exactly when a count of the admissions in it, its ends included, has reached the limit. */
  lemma {:induction false} FullIsARecount(history: seq<real>, limit: Limit, now: real)
    requires forall i :: 0 <= i < |history| ==> history[i] <= now
    ensures Full(history, limit, now) <==> CountWithin(history, now - limit.window, now) >= limit.maxRequests
  {
    SinceIsACount(history, now - limit.window, now);
  }

  lemma {:induction false} SinceIsACount(ts: seq<real>, cutoff: real, now: real)
    requires forall i :: 0 <= i < |ts| ==> ts[i] <= now
    ensures |Since(ts, cutoff)| == CountWithin(ts, cutoff, now)
  {
    if ts != [] {
      SinceIsACount(ts[..|ts| - 1], cutoff, now);
    }
  }

  // ---------- Buckets and keys ----------

  /** The first rule whose prefix the path starts with. */
  function MatchFrom(rules: seq<Rule>, path: string, i: nat): (r: Option<nat>)
    requires i <= |rules|
    ensures r.Some? ==> i <= r.value < |rules| && rules[r.value].prefix <= path
    ensures r.None? ==> forall j :: i <= j < |rules| ==> !(rules[j].prefix <= path)
    decreases |rules| - i
  {
    if i == |rules| then None
    else if rules[i].prefix <= path then Some(i)
    else MatchFrom(rules, path, i + 1)
  }

  /** `_bucket`. */
  function Bucket(rules: seq<Rule>, path: string): Option<Limit> {
    var m := MatchFrom(rules, path, 0);
    if m.Some? then Some(rules[m.value].limit) else None
  }

  /** `_prefix_for`. */
  function PrefixFor(rules: seq<Rule>, path: string): string {
    var m := MatchFrom(rules, path, 0);
    if m.Some? then rules[m.value].prefix else path
  }

  function Key(client: string, prefix: string): string {
    client + "::" + prefix
  }

  predicate IsSuffix(p: string, q: string) {
    |p| <= |q| && q[|q| - |p|..] == p
  }

  /** Neither starts nor ends with the other. */
  predicate Unrelated(p: string, q: string) {
    !(p <= q) && !(q <= p) && !IsSuffix(p, q) && !IsSuffix(q, p)
  }

  /** No rule's prefix starts or ends with another's. */
  ghost predicate WellFormedRules(rules: seq<Rule>) {
    forall i, j :: 0 <= i < j < |rules| ==> Unrelated(rules[i].prefix, rules[j].prefix)
  }

  /** Two strings that differ at a place of both, and when laid end to end. */
  lemma Differ(p: string, q: string, i: nat, k: nat)
    requires i < |p| && i < |q| && p[i] != q[i]
    requires k < |p| < |q| && q[|q| - |p| + k] != p[k]
    ensures Unrelated(p, q) && Unrelated(q, p)
  {
    assert q[|q| - |p|..][k] == q[|q| - |p| + k];
  }

  lemma LoginUnrelated()
    ensures Unrelated(LOGIN, REGISTER) && Unrelated(LOGIN, REFRESH) && Unrelated(LOGIN, ACCEPT)
  {
    Differ(LOGIN, REGISTER, 9, 1);
    Differ(LOGIN, REFRESH, 9, 0);
    Differ(LOGIN, ACCEPT, 9, 0);
  }

  lemma RegisterUnrelated()
    ensures Unrelated(REGISTER, REFRESH) && Unrelated(REGISTER, ACCEPT)
  {
    Differ(REFRESH, REGISTER, 11, 0);
    Differ(REGISTER, ACCEPT, 9, 0);
  }

  lemma RefreshUnrelated()
    ensures Unrelated(REFRESH, ACCEPT)
  {
    Differ(REFRESH, ACCEPT, 9, 0);
  }

  lemma FourRules(a: string, b: string, c: string, d: string, w: Limit, x: Limit, y: Limit, z: Limit)
    requires Unrelated(a, b) && Unrelated(a, c) && Unrelated(a, d) && Unrelated(b, c) && Unrelated(b, d) && Unrelated(c, d)
    ensures WellFormedRules([Rule(a, w), Rule(b, x), Rule(c, y), Rule(d, z)])
  {
  }

  /** The deployed table: no prefix starts or ends with another. */
  lemma RateLimitsAreWellFormed()
    ensures WellFormedRules(RATE_LIMITS)
  {
    LoginUnrelated();
    RegisterUnrelated();
    RefreshUnrelated();
    FourRules(LOGIN, REGISTER, REFRESH, ACCEPT, Limit(10, 60.0), Limit(5, 60.0), Limit(30, 60.0), Limit(5, 60.0));
  }

  lemma SuffixesOfOne(a: string, p: string, b: string, q: string)
    requires a + p == b + q
    ensures IsSuffix(p, q) || IsSuffix(q, p)
    ensures p == q ==> a == b
  {
    var s := a + p;
    assert s[|s| - |p|..] == p && s[|s| - |q|..] == q;
    assert s[..|s| - |p|] == a && s[..|s| - |q|] == b;
    if |p| <= |q| {
      assert q[|q| - |p|..] == s[|s| - |p|..];
    } else {
      assert p[|p| - |q|..] == s[|s| - |q|..];
    }
  }

  /** At most one rule matches a path, so the order of the table does not matter. */
  lemma OneRuleMatches(rules: seq<Rule>, path: string, i: nat, j: nat)
    requires WellFormedRules(rules) && i < |rules| && j < |rules|
    requires rules[i].prefix <= path && rules[j].prefix <= path
    ensures i == j
  {
  }

  /** A key determines its client and its rule, whatever the client's address looks like. */
  lemma KeysDiffer(rules: seq<Rule>, c: string, d: string, i: nat, j: nat)
    requires WellFormedRules(rules) && i < |rules| && j < |rules|
    requires Key(c, rules[i].prefix) == Key(d, rules[j].prefix)
    ensures i == j && c == d
  {
    SuffixesOfOne(c + "::", rules[i].prefix, d + "::", rules[j].prefix);
    assert (c + "::")[..|c|] == c && (d + "::")[..|d|] == d;
  }

  ghost predicate Limited(path: string, prefix: string, limit: Limit) {
    Bucket(RATE_LIMITS, path) == Some(limit) && PrefixFor(RATE_LIMITS, path) == prefix
  }

  lemma RuleLimits(i: nat, prefix: string, limit: Limit, path: string)
    requires i < |RATE_LIMITS| && RATE_LIMITS[i] == Rule(prefix, limit)
    ensures prefix <= path ==> Limited(path, prefix, limit)
  {
    if prefix <= path {
      RateLimitsAreWellFormed();
      OneRuleMatches(RATE_LIMITS, path, MatchFrom(RATE_LIMITS, path, 0).value, i);
    }
  }

  /** The deployed limits: which paths are limited, and how. */
  lemma DeployedLimits(path: string)
    ensures "/v1/auth/login" <= path ==> Limited(path, "/v1/auth/login", Limit(10, 60.0))
    ensures "/v1/auth/register" <= path ==> Limited(path, "/v1/auth/register", Limit(5, 60.0))
    ensures "/v1/auth/refresh" <= path ==> Limited(path, "/v1/auth/refresh", Limit(30, 60.0))
    ensures "/v1/auth/invitations/accept" <= path ==> Limited(path, "/v1/auth/invitations/accept", Limit(5, 60.0))
  {
    RuleLimits(0, "/v1/auth/login", Limit(10, 60.0), path);
    RuleLimits(1, "/v1/auth/register", Limit(5, 60.0), path);
    RuleLimits(2, "/v1/auth/refresh", Limit(30, 60.0), path);
    RuleLimits(3, "/v1/auth/invitations/accept", Limit(5, 60.0), path);
  }

  /** No other path is. */
  lemma OtherPathsAreUnlimited(path: string)
    requires !("/v1/auth/login" <= path) && !("/v1/auth/register" <= path)
    requires !("/v1/auth/refresh" <= path) && !("/v1/auth/invitations/accept" <= path)
    ensures Bucket(RATE_LIMITS, path).None?
  {
  }
}
