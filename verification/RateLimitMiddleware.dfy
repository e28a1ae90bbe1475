/**
 `RateLimitMiddleware` (backend/app/kernel/security/http_hardening.py): one deque
 of admission times per key, pruned from the left. It is proved to decide exactly
 as a recount of everything ever admitted under the key would.
 */
module RateLimitMiddleware {
  import opened Basics
  import opened RateLimiter

  datatype Response = Forwarded | TooManyRequests(limit: Limit, prefix: string, retryAfter: int)

  function Reply(limited: bool, counted: seq<real>, limit: Limit, prefix: string, now: real): Response {
    if limited then TooManyRequests(limit, prefix, RetryAfter(counted, limit, now)) else Forwarded
  }

  ghost predicate Under(rules: seq<Rule>, key: string, i: nat, client: string) {
    i < |rules| && key == Key(client, rules[i].prefix)
  }

  /** The limit that governs a key, if the key is one that requests use. */
  ghost function LimitOf(rules: seq<Rule>, key: string): Option<Limit> {
    if exists i: nat, client: string :: Under(rules, key, i, client) then
      var i: nat, client: string :| Under(rules, key, i, client);
      Some(rules[i].limit)
    else None
  }

  /** Which limit governs which key, or none. */
  type Chart = string -> Option<Limit>

  ghost predicate Charts(chart: Chart, rules: seq<Rule>) {
    forall client: string, i: nat :: i < |rules| ==> chart(Key(client, rules[i].prefix)) == Some(rules[i].limit)
  }

  /** Keys determine rules, so there is such a chart. */
  lemma LimitsAreCharted(rules: seq<Rule>, chart: Chart)
    requires WellFormedRules(rules)
    requires forall key :: chart(key) == LimitOf(rules, key)
    ensures Charts(chart, rules)
  {
    forall client: string, entry: nat | entry < |rules|
      ensures chart(Key(client, rules[entry].prefix)) == Some(rules[entry].limit)
    {
      var key := Key(client, rules[entry].prefix);
      assert Under(rules, key, entry, client);
      forall i: nat, other: string | Under(rules, key, i, other) ensures i == entry {
        KeysDiffer(rules, client, other, entry, i);
      }
    }
  }

  /** A deque and the whole admitted history behind it. */
  ghost predicate Governed(hits: seq<real>, history: seq<real>, swept: real, limit: Limit, clock: real) {
    && Sorted(history)
    && (forall i :: 0 <= i < |history| ==> history[i] <= clock)
    && Throttled(history, limit)
    && swept <= clock - limit.window
    && hits == Since(history, swept)
    && |hits| <= limit.maxRequests
  }

  // ---------- Facts about pruning ----------

  lemma {:induction false} SinceConcat(a: seq<real>, b: seq<real>, cutoff: real)
    ensures Since(a + b, cutoff) == Since(a, cutoff) + Since(b, cutoff)
  {
    if b == [] {
      assert a + b == a;
    } else {
      SinceConcat(a, b[..|b| - 1], cutoff);
      assert (a + b)[..|a + b| - 1] == a + b[..|b| - 1];
    }
  }

  lemma PopLeft(q: seq<real>, cutoff: real)
    requires q != [] && q[0] < cutoff
    ensures Since(q[1..], cutoff) == Since(q, cutoff)
  {
    assert q == [q[0]] + q[1..];
    SinceConcat([q[0]], q[1..], cutoff);
    assert Since([q[0]], cutoff) == Since([], cutoff) + [];
  }

  lemma {:induction false} NothingToPop(q: seq<real>, cutoff: real)
    requires forall i :: 0 <= i < |q| ==> q[i] >= cutoff
    ensures Since(q, cutoff) == q
  {
    if q != [] {
      NothingToPop(q[..|q| - 1], cutoff);
    }
  }

  lemma HitsAreSorted(history: seq<real>, swept: real)
    requires Sorted(history)
    ensures Sorted(Since(history, swept))
    ensures forall i :: 0 <= i < |Since(history, swept)| ==> Since(history, swept)[i] in history
  {
    SinceOfSorted(history, swept);
  }

  /** After the sweep the deque is governed again, under the new cutoff. */
  lemma SweptIsGoverned(hits: seq<real>, history: seq<real>, swept: real, limit: Limit, clock: real, now: real)
    requires Governed(hits, history, swept, limit, clock) && clock <= now
    ensures var cutoff := now - limit.window;
      Since(hits, cutoff) == Since(history, cutoff) && Governed(Since(history, cutoff), history, cutoff, limit, now)
  {
    var cutoff := now - limit.window;
    SinceSince(history, swept, cutoff);
    SinceNoLonger(hits, cutoff);
  }

  /** And so it is after an admission, if there was room. */
  lemma AdmittedIsGoverned(history: seq<real>, limit: Limit, now: real)
    requires var cutoff := now - limit.window; Governed(Since(history, cutoff), history, cutoff, limit, now)
    requires !Full(history, limit, now)
    ensures var cutoff := now - limit.window;
      Governed(Since(history + [now], cutoff), history + [now], cutoff, limit, now)
  {
    ThrottledAppend(history, now, limit);
  }

  lemma ThrottledAppend(history: seq<real>, now: real, limit: Limit)
    requires Throttled(history, limit) && AdmittedInTime(history, now, limit)
    ensures Throttled(history + [now], limit)
  {
    var longer := history + [now];
    forall i | 0 <= i < |longer| ensures AdmittedInTime(longer[..i], longer[i], limit) {
      assert longer[..i] == history[..i];
      assert history[..|history|] == history;
      assert i < |history| ==> AdmittedInTime(history[..i], history[i], limit);
    }
  }

  lemma {:induction false} SinceNoLonger(ts: seq<real>, cutoff: real)
    ensures |Since(ts, cutoff)| <= |ts|
  {
    if ts != [] {
      SinceNoLonger(ts[..|ts| - 1], cutoff);
    }
  }

  lemma {:induction false} KeptIsRecent(ts: seq<real>, cutoff: real)
    ensures forall i :: 0 <= i < |Since(ts, cutoff)| ==> Since(ts, cutoff)[i] >= cutoff
  {
    if ts != [] {
      KeptIsRecent(ts[..|ts| - 1], cutoff);
    }
  }

  lemma RecentHits(past: seq<real>, limit: Limit, before: real, now: real)
    requires Sorted(past) && (forall i :: 0 <= i < |past| ==> past[i] <= before) && before <= now
    ensures var kept := Since(past, now - limit.window);
      kept != [] ==> now - limit.window <= kept[0] <= now
  {
    HitsAreSorted(past, now - limit.window);
    KeptIsRecent(past, now - limit.window);
  }

  // ---------- The middleware's books ----------

  /** Deques, admitted histories and cutoffs of last sweeps, by key. */
  datatype Book = Book(hits: map<string, seq<real>>, history: map<string, seq<real>>, swept: map<string, real>)

  ghost predicate Balanced(chart: Chart, b: Book, clock: real) {
    && b.hits.Keys == b.history.Keys == b.swept.Keys
    && forall key {:trigger b.hits[key]} :: key in b.hits && chart(key).Some? ==>
         Governed(b.hits[key], b.history[key], b.swept[key], chart(key).value, clock)
  }

  lemma BalancedLater(chart: Chart, b: Book, clock: real, now: real)
    requires Balanced(chart, b, clock) && clock <= now
    ensures Balanced(chart, b, now)
  {
    forall key | key in b.hits && chart(key).Some?
      ensures Governed(b.hits[key], b.history[key], b.swept[key], chart(key).value, now)
    {
    }
  }

  lemma UpdateTwice<K, V>(m: map<K, V>, k: K, x: V, y: V)
    ensures m[k := x][k := y] == m[k := y]
  {
  }

  /** The history of a key after a request under it. */
  function Admitted(past: seq<real>, limit: Limit, now: real): seq<real> {
    if Full(past, limit, now) then past else past + [now]
  }

  /**
   A request under a key has been served: turned away exactly if a recount of all
   admissions under the key finds the window full, and admitted otherwise. The deque
   is the history restricted to the window; no other key is touched.
   */
  ghost predicate Served(limit: Limit, key: string, prefix: string, now: real, past: seq<real>, before: Book, after: Book, r: Response) {
    && after.history == before.history[key := if r.Forwarded? then past + [now] else past]
    && (r.Forwarded? <==> CountWithin(past, now - limit.window, now) < limit.maxRequests)
    && key in after.hits && after.hits == before.hits[key := after.hits[key]]
    && Governed(after.hits[key], after.history[key], now - limit.window, limit, now)
    && r == Reply(Full(past, limit, now), Since(past, now - limit.window), limit, prefix, now)
    && (r.TooManyRequests? ==> 1 <= r.retryAfter && r.retryAfter as real <= limit.window)
  }

  class RateLimitMiddleware {
    const enabled: bool
    const rules: seq<Rule>
    ghost const chart: Chart
    var hits: map<string, seq<real>>
    /** Every admission ever, by key; the cutoff of each key's last sweep; the latest time seen. */
    ghost var history: map<string, seq<real>>
    ghost var swept: map<string, real>
    ghost var clock: real

    ghost predicate Valid()
      reads this
    {
      Charts(chart, rules) && Balanced(chart, Books(), clock)
    }

    constructor (enabled: bool, rules: seq<Rule>, start: real)
      requires WellFormedRules(rules)
      ensures Valid() && hits == map[] && history == map[] && clock == start
      ensures this.enabled == enabled && this.rules == rules
    {
      this.enabled, this.rules := enabled, rules;
      chart := key => LimitOf(rules, key);
      hits, history, swept, clock := map[], map[], map[], start;
      new;
      LimitsAreCharted(rules, chart);
    }

    /** The pruning loop: `while hits and hits[0] < cutoff: hits.popleft()`. */
    method Prune(deque: seq<real>, cutoff: real) returns (q: seq<real>)
      requires Sorted(deque)
      ensures q == Since(deque, cutoff)
    {
      q := deque;
      while q != [] && q[0] < cutoff
        invariant Sorted(q) && Since(q, cutoff) == Since(deque, cutoff)
        decreases |q|
      {
        PopLeft(q, cutoff);
        q := q[1..];
      }
      NothingToPop(q, cutoff);
    }

    /** Every admission there ever was under a key. */
    ghost function HistoryOf(key: string): seq<real>
      reads this
    {
      if key in history then history[key] else []
    }

    ghost function Books(): Book
      reads this
    {
      Book(hits, history, swept)
    }

    /** The decision of `dispatch` once the deque is known: what is left after pruning, and after admitting. */
    method Decide(hits: seq<real>, limit: Limit, now: real, ghost past: seq<real>, ghost swept: real, ghost clock: real)
      returns (limited: bool, pruned: seq<real>, deque: seq<real>)
      requires Governed(hits, past, swept, limit, clock) && clock <= now
      ensures limited <==> Full(past, limit, now)
      ensures pruned == Since(past, now - limit.window)
      ensures pruned != [] ==> now - limit.window <= pruned[0] <= now
      ensures Governed(deque, Admitted(past, limit, now), now - limit.window, limit, now)
    {
      HitsAreSorted(past, swept);
      SweptIsGoverned(hits, past, swept, limit, clock, now);
      RecentHits(past, limit, clock, now);
      pruned := Prune(hits, now - limit.window);
      limited := |pruned| >= limit.maxRequests;
      if limited {
        deque := pruned;
      } else {
        AdmittedIsGoverned(past, limit, now);
        deque := pruned + [now];
      }
    }

    /** `self._hits[key]`: a new key gets an empty deque. */
    method Touch(key: string, limit: Limit)
      requires Balanced(chart, Books(), clock) && chart(key) == Some(limit)
      modifies this`hits, this`history, this`swept
      ensures Balanced(chart, Books(), clock)
      ensures key in hits && key in history && key in swept
      ensures hits == old(hits)[key := hits[key]] && history == old(history)[key := history[key]]
      ensures history[key] == old(HistoryOf(key))
    {
      if key !in hits {
        hits, history, swept := hits[key := []], history[key := []], swept[key := clock - limit.window];
      }
    }

    /** Leave a deque, and the history and cutoff behind it, under a key. */
    method Keep(key: string, limit: Limit, now: real, deque: seq<real>, ghost admitted: seq<real>)
      requires Balanced(chart, Books(), now) && chart(key) == Some(limit)
      requires Governed(deque, admitted, now - limit.window, limit, now)
      modifies this
      ensures Balanced(chart, Books(), clock) && clock == now
      ensures hits == old(hits)[key := deque] && history == old(history)[key := admitted]
    {
      hits, history, swept, clock := hits[key := deque], history[key := admitted], swept[key := now - limit.window], now;
    }

    /** Decide under a key and keep the outcome, in the deque and in the history. */
    method Account(key: string, limit: Limit, now: real) returns (limited: bool, pruned: seq<real>)
      requires Balanced(chart, Books(), clock) && clock <= now && chart(key) == Some(limit)
      modifies this
      ensures Balanced(chart, Books(), clock) && clock == now
      ensures var past := old(HistoryOf(key));
        && (limited <==> Full(past, limit, now))
        && pruned == Since(past, now - limit.window)
        && (pruned != [] ==> now - limit.window <= pruned[0] <= now)
        && history == old(history)[key := Admitted(past, limit, now)]
      ensures key in hits && hits == old(hits)[key := hits[key]]
      ensures Governed(hits[key], history[key], now - limit.window, limit, now)
    {
      Touch(key, limit);
      ghost var touched, past := Books(), history[key];
      BalancedLater(chart, Books(), clock, now);
      var deque;
      limited, pruned, deque := Decide(hits[key], limit, now, past, swept[key], clock);
      Keep(key, limit, now, deque, Admitted(past, limit, now));
      UpdateTwice(old(hits), key, touched.hits[key], deque);
      UpdateTwice(old(history), key, touched.history[key], Admitted(past, limit, now));
    }

    /** Decide and keep under a key, and reply. */
    method Serve(key: string, limit: Limit, prefix: string, now: real) returns (r: Response)
      requires Balanced(chart, Books(), clock) && clock <= now && chart(key) == Some(limit)
      modifies this
      ensures Balanced(chart, Books(), clock) && clock == now
      ensures Served(limit, key, prefix, now, old(HistoryOf(key)), old(Books()), Books(), r)
    {
      FullIsARecount(HistoryOf(key), limit, now);
      var limited, pruned := Account(key, limit, now);
      RetryAfterIsInRange(pruned, limit, now);
      return Reply(limited, pruned, limit, prefix, now);
    }

    /**
     One request. It is turned away exactly when a recount of the admitted history
     finds the window full; otherwise its time joins the history. The deque is
     always the history restricted to the window, and other keys are untouched.
     */
    method Dispatch(client: string, path: string, now: real) returns (r: Response)
      requires Valid() && clock <= now
      modifies this
      ensures Valid() && clock == now
      ensures !enabled || Bucket(rules, path).None? ==> r == Forwarded && Books() == old(Books())
      ensures enabled && Bucket(rules, path).Some? ==>
        var prefix := PrefixFor(rules, path);
        var key := Key(client, prefix);
        Served(Bucket(rules, path).value, key, prefix, now, old(HistoryOf(key)), old(Books()), Books(), r)
    {
      var entry := MatchFrom(rules, path, 0);
      if !enabled || entry.None? {
        BalancedLater(chart, Books(), clock, now);
        clock := now;
        return Forwarded;
      }
      var limit, prefix := rules[entry.value].limit, PrefixFor(rules, path);
      assert Bucket(rules, path) == Some(limit) && prefix == rules[entry.value].prefix;
      assert chart(Key(client, prefix)) == Some(limit);
      r := Serve(Key(client, prefix), limit, prefix, now);
    }
  }

  /**
   Whatever requests have been served, the admissions under a key in any closed
   interval as long as its window number at most its limit.
   */
  lemma AdmissionsAreBounded(m: RateLimitMiddleware, client: string, entry: nat, from: real)
    requires m.Valid() && entry < |m.rules|
    ensures var limit := m.rules[entry].limit;
      CountWithin(m.HistoryOf(Key(client, m.rules[entry].prefix)), from, from + limit.window) <= limit.maxRequests
  {
    var key := Key(client, m.rules[entry].prefix);
    assert m.chart(key) == Some(m.rules[entry].limit);
    if key in m.history {
      AnyWindowIsBounded(m.history[key], m.rules[entry].limit, from);
    }
  }

  lemma RuleBounds(m: RateLimitMiddleware, i: nat, prefix: string, limit: Limit, client: string, from: real)
    requires m.Valid() && i < |m.rules| && m.rules[i] == Rule(prefix, limit)
    ensures CountWithin(m.HistoryOf(client + "::" + prefix), from, from + limit.window) <= limit.maxRequests
  {
    AdmissionsAreBounded(m, client, i, from);
  }

  /** The deployed limiter, in numbers: per client and in any 60 seconds. */
  lemma DeployedAdmissionsAreBounded(m: RateLimitMiddleware, client: string, from: real)
    requires m.Valid() && m.rules == RATE_LIMITS
    ensures CountWithin(m.HistoryOf(client + "::" + "/v1/auth/login"), from, from + 60.0) <= 10
    ensures CountWithin(m.HistoryOf(client + "::" + "/v1/auth/register"), from, from + 60.0) <= 5
    ensures CountWithin(m.HistoryOf(client + "::" + "/v1/auth/refresh"), from, from + 60.0) <= 30
    ensures CountWithin(m.HistoryOf(client + "::" + "/v1/auth/invitations/accept"), from, from + 60.0) <= 5
  {
    RuleBounds(m, 0, "/v1/auth/login", Limit(10, 60.0), client, from);
    RuleBounds(m, 1, "/v1/auth/register", Limit(5, 60.0), client, from);
    RuleBounds(m, 2, "/v1/auth/refresh", Limit(30, 60.0), client, from);
    RuleBounds(m, 3, "/v1/auth/invitations/accept", Limit(5, 60.0), client, from);
  }
}
