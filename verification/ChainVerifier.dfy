/**
 `verify_chain` and `_reaches_genesis` (backend/app/kernel/audit.py): an
 iterative walk with a memo table shared by all walks, proved equal to the
 inductive specification `Intact`, with a bound on the work it does.
 */
module ChainVerifier {
  import opened Basics
  import opened CanonicalJson
  import opened AuditChain

  /** `byHash` is the snapshot as a dictionary from stored hash to entry. */
  ghost predicate Indexes(byHash: map<PyStr, AuditEntry>, es: seq<AuditEntry>) {
    && HashesDistinct(es)
    && (forall i :: 0 <= i < |es| ==> es[i].hash in byHash && byHash[es[i].hash] == es[i])
    && (forall h :: h in byHash ==> HasHash(es, h))
  }

  /** Every remembered verdict is right and is about an entry of the snapshot. */
  ghost predicate Sound(resolved: map<PyStr, bool>, byHash: map<PyStr, AuditEntry>, es: seq<AuditEntry>) {
    forall h :: h in resolved ==> h in byHash && (resolved[h] <==> Reaches(es, h))
  }

  /** Every remembered entry was walked, and no entry twice. */
  ghost predicate WalkedOnce(resolved: map<PyStr, bool>, trail: seq<PyStr>) {
    Distinct(trail) && forall h :: h in resolved <==> h in trail
  }

  /** The `resolved` dictionary: what earlier walks of the same pass found out. */
  class Memo {
    var resolved: map<PyStr, bool>
    /** Every entry walked so far, in order, and how often the walks' loops have turned. */
    ghost var trail: seq<PyStr>
    ghost var turns: nat

    constructor ()
      ensures resolved == map[] && trail == [] && turns == 0
    {
      resolved, trail, turns := map[], [], 0;
    }

    /** Verdicts are right, and every remembered entry was walked exactly once. */
    ghost predicate Valid(byHash: map<PyStr, AuditEntry>, es: seq<AuditEntry>)
      reads this
    {
      Sound(resolved, byHash, es) && WalkedOnce(resolved, trail)
    }
  }

  /** `path` lists entries of the snapshot, each the predecessor of the one before it, none of them genesis. */
  ghost predicate IsWalk(byHash: map<PyStr, AuditEntry>, path: seq<PyStr>, current: PyStr) {
    && (forall i :: 0 <= i < |path| ==> path[i] in byHash && path[i] != GENESIS_HASH)
    && (forall i :: 0 <= i < |path| - 1 ==> byHash[path[i]].prevHash == path[i + 1])
    && (path != [] ==> byHash[path[|path| - 1]].prevHash == current)
  }

  /** One step back does not change whether genesis is reachable. */
  lemma ReachesStep(byHash: map<PyStr, AuditEntry>, es: seq<AuditEntry>, h: PyStr)
    requires Indexes(byHash, es) && h != GENESIS_HASH
    ensures Reaches(es, h) <==> h in byHash && Reaches(es, byHash[h].prevHash)
  {
    if Reaches(es, h) {
      var n: nat :| ReachesWithin(es, h, n);
      var i :| 0 <= i < |es| && es[i].hash == h && ReachesWithin(es, es[i].prevHash, n - 1);
      assert byHash[h] == es[i];
    }
    if h in byHash && Reaches(es, byHash[h].prevHash) {
      var n: nat :| ReachesWithin(es, byHash[h].prevHash, n);
      var i :| 0 <= i < |es| && es[i].hash == h;
      assert ReachesWithin(es, es[i].prevHash, (n + 1) - 1);
      assert ReachesWithin(es, h, n + 1);
    }
  }

  /** Every entry on a walk reaches genesis exactly when the end of the walk does. */
  lemma {:induction false} WalkSharesFate(byHash: map<PyStr, AuditEntry>, es: seq<AuditEntry>, path: seq<PyStr>, current: PyStr, i: nat)
    requires Indexes(byHash, es) && IsWalk(byHash, path, current)
    requires i < |path|
    ensures Reaches(es, path[i]) <==> Reaches(es, current)
    decreases |path| - i
  {
    ReachesStep(byHash, es, path[i]);
    if i + 1 < |path| {
      WalkSharesFate(byHash, es, path, current, i + 1);
    }
  }

  /** A walk that comes back to entry `j` of itself never reaches genesis, however long it goes on. */
  lemma {:induction false} CycleNeverReaches(byHash: map<PyStr, AuditEntry>, es: seq<AuditEntry>, path: seq<PyStr>, j: nat, i: nat, n: nat)
    requires Indexes(byHash, es)
    requires j < |path| && IsWalk(byHash, path, path[j])
    requires j <= i < |path|
    ensures !ReachesWithin(es, path[i], n)
    decreases n
  {
    if ReachesWithin(es, path[i], n) {
      var k :| 0 <= k < |es| && es[k].hash == path[i] && ReachesWithin(es, es[k].prevHash, n - 1);
      assert byHash[path[i]] == es[k];
      CycleNeverReaches(byHash, es, path, j, if i + 1 < |path| then i + 1 else j, n - 1);
    }
  }

  lemma CycleIsLost(byHash: map<PyStr, AuditEntry>, es: seq<AuditEntry>, path: seq<PyStr>, current: PyStr)
    requires Indexes(byHash, es) && IsWalk(byHash, path, current)
    requires current in path
    ensures !Reaches(es, current)
  {
    var j :| 0 <= j < |path| && path[j] == current;
    forall n: nat ensures !ReachesWithin(es, current, n) {
      CycleNeverReaches(byHash, es, path, j, j, n);
    }
  }

  lemma GenesisIsReached(es: seq<AuditEntry>)
    ensures Reaches(es, GENESIS_HASH)
  {
    assert ReachesWithin(es, GENESIS_HASH, 0);
  }

  /** Taking one more entry onto a walk leaves it a duplicate-free walk within the snapshot. */
  lemma ExtendWalk(byHash: map<PyStr, AuditEntry>, path: seq<PyStr>, current: PyStr)
    requires Distinct(path) && IsWalk(byHash, path, current)
    requires current in byHash && current !in path && current != GENESIS_HASH
    ensures Distinct(path + [current]) && IsWalk(byHash, path + [current], byHash[current].prevHash)
    ensures |path| < |byHash|
  {
    var longer := path + [current];
    assert forall i :: 0 <= i < |path| ==> path[i] in path;
    DistinctFits(longer, byHash.Keys);
  }

  /** The memo after a walk: every entry of the walk gets the walk's verdict. */
  ghost predicate Recorded(before: map<PyStr, bool>, path: seq<PyStr>, result: bool, after: map<PyStr, bool>) {
    && (forall h :: h in after <==> h in before || h in path)
    && (forall h :: h in after ==> after[h] == if h in path then result else before[h])
  }

  lemma RecordedIsSound(before: map<PyStr, bool>, path: seq<PyStr>, current: PyStr, result: bool,
                        after: map<PyStr, bool>, byHash: map<PyStr, AuditEntry>, es: seq<AuditEntry>)
    requires Indexes(byHash, es) && Sound(before, byHash, es)
    requires IsWalk(byHash, path, current) && (result <==> Reaches(es, current))
    requires Recorded(before, path, result, after)
    ensures Sound(after, byHash, es)
  {
    forall h | h in path ensures h in byHash && (result <==> Reaches(es, h)) {
      var i :| 0 <= i < |path| && path[i] == h;
      WalkSharesFate(byHash, es, path, current, i);
    }
  }

  /** The walk itself: back from `start` until genesis, a remembered entry, a revisited one or a missing one. */
  method Walk(start: PyStr, byHash: map<PyStr, AuditEntry>, resolved: map<PyStr, bool>, ghost es: seq<AuditEntry>)
    returns (result: bool, path: seq<PyStr>, ghost current: PyStr, ghost turns: nat)
    requires Indexes(byHash, es) && Sound(resolved, byHash, es)
    ensures Distinct(path) && IsWalk(byHash, path, current)
    ensures if path == [] then current == start else path[0] == start
    ensures forall h :: h in path ==> h !in resolved
    ensures result <==> Reaches(es, current)
    ensures turns == |path| + 1
  {
    path := [];
    var pathSeen: set<PyStr> := {};
    var at := start;
    turns := 0;
    while true
      invariant Distinct(path) && IsWalk(byHash, path, at)
      invariant forall h :: h in pathSeen <==> h in path
      invariant forall h :: h in pathSeen ==> h !in resolved
      invariant if path == [] then at == start else path[0] == start
      invariant turns == |path| <= |byHash|
      decreases |byHash| - |path|
    {
      turns, current := turns + 1, at;
      if at == GENESIS_HASH {
        GenesisIsReached(es);
        return true, path, current, turns;
      }
      if at in resolved {
        return resolved[at], path, current, turns;
      }
      if at in pathSeen {
        CycleIsLost(byHash, es, path, at);
        return false, path, current, turns;
      }
      if at !in byHash {
        ReachesStep(byHash, es, at);
        return false, path, current, turns;
      }
      ExtendWalk(byHash, path, at);
      path := path + [at];
      pathSeen := pathSeen + {at};
      at := byHash[at].prevHash;
    }
  }

  /** The closing loop: every entry of the walk shares its verdict. */
  method Remember(memo: Memo, path: seq<PyStr>, result: bool)
    modifies memo`resolved
    ensures Recorded(old(memo.resolved), path, result, memo.resolved)
  {
    for k := 0 to |path|
      invariant Recorded(old(memo.resolved), path[..k], result, memo.resolved)
    {
      memo.resolved := memo.resolved[path[k] := result];
      assert path[..k + 1] == path[..k] + [path[k]];
    }
    assert path[..|path|] == path;
  }

  lemma AllOnce(before: map<PyStr, bool>, trail: seq<PyStr>, path: seq<PyStr>, result: bool, after: map<PyStr, bool>)
    requires Distinct(trail) && Distinct(path)
    requires forall h :: h in before <==> h in trail
    requires forall h :: h in path ==> h !in before
    requires Recorded(before, path, result, after)
    ensures Distinct(trail + path)
    ensures forall h :: h in after <==> h in trail + path
  {
    assert forall i :: 0 <= i < |trail| ==> trail[i] in trail;
    assert forall i :: 0 <= i < |path| ==> path[i] in path;
  }

  /**
   `_reaches_genesis`. The verdict is the specification's, every memo entry
   stays right, no entry is walked again, and the walk's loop turns once for
   each entry it walks plus once more.
   */
  method ReachesGenesis(start: PyStr, byHash: map<PyStr, AuditEntry>, memo: Memo, ghost es: seq<AuditEntry>)
    returns (result: bool)
    requires Indexes(byHash, es) && memo.Valid(byHash, es)
    modifies memo
    ensures result <==> Reaches(es, start)
    ensures memo.Valid(byHash, es)
    ensures memo.turns - old(memo.turns) == |memo.trail| - |old(memo.trail)| + 1
  {
    ghost var before := memo.resolved;
    var path;
    ghost var current, turns;
    result, path, current, turns := Walk(start, byHash, memo.resolved, es);
    if path != [] {
      WalkSharesFate(byHash, es, path, current, 0);
    }
    Remember(memo, path, result);
    RecordedIsSound(before, path, current, result, memo.resolved, byHash, es);
    AllOnce(before, memo.trail, path, result, memo.resolved);
    memo.trail := memo.trail + path;
    memo.turns := memo.turns + turns;
  }

  /** The first loop of `verify_chain`: index the snapshot, or find two entries with one hash. */
  method IndexByHash(entries: seq<AuditEntry>) returns (distinct: bool, byHash: map<PyStr, AuditEntry>)
    ensures distinct <==> HashesDistinct(entries)
    ensures distinct ==> Indexes(byHash, entries) && |byHash| == |entries|
  {
    byHash := map[];
    for i := 0 to |entries|
      invariant Indexes(byHash, entries[..i])
      invariant |byHash| == i
    {
      if entries[i].hash in byHash {
        return false, byHash;
      }
      ExtendIndex(byHash, entries, i);
      byHash := byHash[entries[i].hash := entries[i]];
    }
    assert entries[..|entries|] == entries;
    return true, byHash;
  }

  ghost predicate SealedUpTo(digest: Digest, es: seq<AuditEntry>, i: nat) {
    forall j :: 0 <= j < i && j < |es| ==> RecomputeHash(digest, es[j]) == es[j].hash
  }

  lemma SealOneMore(digest: Digest, es: seq<AuditEntry>, i: nat)
    requires SealedUpTo(digest, es, i) && i < |es| && RecomputeHash(digest, es[i]) == es[i].hash
    ensures SealedUpTo(digest, es, i + 1)
  {
  }

  /** The middle loop of `verify_chain`: every entry recomputes to its stored hash. */
  method AllRecompute(digest: Digest, entries: seq<AuditEntry>) returns (ok: bool)
    ensures ok <==> AllSealed(digest, entries)
  {
    for i := 0 to |entries|
      invariant SealedUpTo(digest, entries, i)
    {
      if RecomputeHash(digest, entries[i]) != entries[i].hash {
        return false;
      }
      SealOneMore(digest, entries, i);
    }
    return true;
  }

  ghost predicate ReachUpTo(es: seq<AuditEntry>, i: nat) {
    forall j :: 0 <= j < i && j < |es| ==> Reaches(es, es[j].hash)
  }

  lemma ReachOneMore(es: seq<AuditEntry>, i: nat)
    requires ReachUpTo(es, i) && i < |es| && Reaches(es, es[i].hash)
    ensures ReachUpTo(es, i + 1)
  {
  }

  lemma TrailFits(byHash: map<PyStr, AuditEntry>, es: seq<AuditEntry>, trail: seq<PyStr>)
    requires Indexes(byHash, es) && |byHash| == |es|
    requires Distinct(trail) && forall h :: h in trail ==> h in byHash
    ensures |trail| <= |es| && forall h :: h in trail ==> HasHash(es, h)
  {
    DistinctFits(trail, byHash.Keys);
  }

  /** The last loop of `verify_chain`: one walk for every entry, all of them sharing one memo. */
  method AllReachGenesis(entries: seq<AuditEntry>, byHash: map<PyStr, AuditEntry>)
    returns (ok: bool, ghost trail: seq<PyStr>, ghost turns: nat)
    requires Indexes(byHash, entries) && |byHash| == |entries|
    ensures ok <==> AllReach(entries)
    ensures Distinct(trail) && forall h :: h in trail ==> HasHash(entries, h)
    ensures turns <= |entries| + |trail| <= 2 * |entries|
  {
    var memo := new Memo();
    ok := true;
    for i := 0 to |entries|
      invariant fresh(memo) && memo.Valid(byHash, entries)
      invariant ReachUpTo(entries, i)
      invariant memo.turns == i + |memo.trail|
    {
      ok := ReachesGenesis(entries[i].hash, byHash, memo, entries);
      if !ok {
        break;
      }
      ReachOneMore(entries, i);
    }
    trail, turns := memo.trail, memo.turns;
    TrailFits(byHash, entries, trail);
  }

  /**
   The verifier returns true exactly on intact snapshots. Over the whole pass no
   entry is walked twice, and the loop of `_reaches_genesis` turns at most twice
   per entry.
   */
  method VerifyChain(digest: Digest, entries: seq<AuditEntry>)
    returns (ok: bool, ghost trail: seq<PyStr>, ghost turns: nat)
    ensures ok <==> Intact(digest, entries)
    ensures Distinct(trail) && forall h :: h in trail ==> HasHash(entries, h)
    ensures turns <= |entries| + |trail| <= 2 * |entries|
  {
    var distinct, byHash := IndexByHash(entries);
    if !distinct {
      return false, [], 0;
    }
    var sealed := AllRecompute(digest, entries);
    if !sealed {
      return false, [], 0;
    }
    ok, trail, turns := AllReachGenesis(entries, byHash);
  }

  lemma ExtendIndex(byHash: map<PyStr, AuditEntry>, entries: seq<AuditEntry>, i: nat)
    requires i < |entries| && Indexes(byHash, entries[..i])
    requires entries[i].hash !in byHash
    ensures Indexes(byHash[entries[i].hash := entries[i]], entries[..i + 1])
  {
    var front, all := entries[..i], entries[..i + 1];
    assert all == front + [entries[i]];
    forall j | 0 <= j < i ensures all[j].hash != entries[i].hash {
      assert all[j] == front[j];
    }
    forall h | h in byHash[entries[i].hash := entries[i]] ensures HasHash(all, h) {
      if h != entries[i].hash {
        var j :| 0 <= j < i && front[j].hash == h;
        assert all[j].hash == h;
      } else {
        assert all[i].hash == h;
      }
    }
  }
}
