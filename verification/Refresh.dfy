/**
 The coalescing `refresh` of the mockup preview plugin
 (artifacts/mockup-sandbox/mockupPreviewPlugin.ts). JavaScript runs one piece of
 code at a time, up to the next await, so a run is a sequence of three kinds of
 pieces: a call from outside, the continuation of a scan, and a scan that throws.
 */
module Refresh {
  import opened Basics

  datatype Event = Call | ScanDone(source: string) | ScanFails

  /** One finished scan: when it started, what was current before it, and what it found. */
  datatype Scan = Scan(start: nat, before: string, found: string)

  /**
   `time` counts events. `chain` holds the finished scans of the refresh chain that
   is under way; `results` what each call that started a chain has returned.
   `absorbed` counts calls that found a follow-up already queued.
   */
  datatype State = State(
    inFlight: bool,
    queued: bool,
    current: string,
    scanning: nat,
    scanStart: nat,
    chain: seq<Scan>,
    scans: seq<Scan>,
    results: seq<bool>,
    time: nat,
    calls: nat,
    started: nat,
    absorbed: nat,
    lastCall: nat,
    failed: bool)

  const INITIAL := State(false, false, "", 0, 0, [], [], [], 0, 0, 0, 0, 0, false)

  predicate Enabled(s: State, ev: Event) {
    ev.Call? || s.inFlight
  }

  /** The synchronous head of a `refresh` that finds nothing in flight: up to its first await. */
  function StartScan(s: State): State {
    s.(inFlight := true, scanning := s.scanning + 1, scanStart := s.time, started := s.started + 1)
  }

  function Changed(scan: Scan): bool {
    scan.found != scan.before
  }

  /** `changed || followUp`, from the innermost call of the chain outwards. */
  function Unwind(chain: seq<Scan>): bool {
    if chain == [] then false else Changed(chain[0]) || Unwind(chain[1..])
  }

  function After(s: State, ev: Event): State
    requires Enabled(s, ev)
  {
    var t := s.(time := s.time + 1);
    match ev
    case Call =>
      var called := t.(calls := t.calls + 1, lastCall := t.time);
      if t.inFlight then called.(queued := true, absorbed := if t.queued then t.absorbed + 1 else t.absorbed)
      else StartScan(called).(chain := [])
    case ScanDone(source) =>
      var scan := Scan(t.scanStart, t.current, source);
      var done := t.(inFlight := false, scanning := if t.scanning > 0 then t.scanning - 1 else 0, failed := false,
                     current := source, chain := t.chain + [scan], scans := t.scans + [scan]);
      if done.queued then StartScan(done.(queued := false))
      else done.(results := done.results + [Unwind(done.chain)])
    case ScanFails =>
      t.(inFlight := false, scanning := if t.scanning > 0 then t.scanning - 1 else 0, failed := true)
  }

  function Run(evs: seq<Event>): Option<State> {
    if evs == [] then Some(INITIAL)
    else
      var s := Run(evs[..|evs| - 1]);
      if s.Some? && Enabled(s.value, evs[|evs| - 1]) then Some(After(s.value, evs[|evs| - 1])) else None
  }

  // ---------- What every run keeps ----------

  /** At most one scan is in flight, and the flag says whether one is. */
  ghost predicate SingleFlight(s: State) {
    s.scanning == if s.inFlight then 1 else 0
  }

  /** Every call has started a scan, is queued, or was absorbed by a queued one. */
  ghost predicate CallsAddUp(s: State) {
    s.calls == s.started + s.absorbed + if s.queued then 1 else 0
  }

  /** The source in use is what the latest finished scan found. */
  ghost predicate SourceIsScanned(s: State) {
    if s.scans == [] then s.current == "" else s.current == s.scans[|s.scans| - 1].found
  }

  /** The source in use comes from a scan that started no earlier than the last call. */
  ghost predicate Covered(s: State) {
    s.calls > 0 ==> s.scans != [] && s.scans[|s.scans| - 1].start >= s.lastCall
  }

  /** Nothing is lost: a call that the running scan may have missed is queued; at rest, unless a scan failed, all is covered. */
  ghost predicate NoLostWakeUp(s: State) {
    && s.lastCall <= s.time && (s.inFlight ==> s.scanStart <= s.time)
    && (s.inFlight ==> s.queued || s.scanStart >= s.lastCall)
    && (!s.inFlight && !s.failed ==> !s.queued && Covered(s))
    && (s.scans != [] ==> s.scans[|s.scans| - 1].start <= s.time)
  }

  ghost predicate Sound(s: State) {
    SingleFlight(s) && CallsAddUp(s) && SourceIsScanned(s) && NoLostWakeUp(s)
  }

  lemma StepKeepsSound(s: State, ev: Event)
    requires Sound(s) && Enabled(s, ev)
    ensures Sound(After(s, ev))
  {
  }

  /**
   In every run: at most one scan is in flight; calls are conserved, so scans never
   outnumber calls; and whenever nothing is in flight and the last scan did not
   fail, nothing is queued and the source in use comes from a scan that started at
   or after the last call.
   */
  lemma {:induction false} RunIsSound(evs: seq<Event>)
    requires Run(evs).Some?
    ensures Sound(Run(evs).value) && Run(evs).value.started <= Run(evs).value.calls
  {
    if evs != [] {
      RunIsSound(evs[..|evs| - 1]);
      StepKeepsSound(Run(evs[..|evs| - 1]).value, evs[|evs| - 1]);
    }
  }

  /** Nothing waits to be served, and the source in use reflects every call. */
  ghost predicate UpToDate(s: State) {
    !s.queued && Covered(s)
  }

  /**
   No request is lost, and a failure does no lasting harm: in every run, however many
   scans have failed before, whenever nothing is in flight and the scan that ended
   last did not fail, everything is up to date.
   */
  lemma RestIsUpToDate(evs: seq<Event>)
    requires Run(evs).Some? && !Run(evs).value.inFlight
    requires evs == [] || !evs[|evs| - 1].ScanFails?
    ensures UpToDate(Run(evs).value)
  {
    RunIsSound(evs);
  }

  /** The run ends with a call that found nothing in flight, and its scan completed. */
  ghost predicate EndsInServedCall(evs: seq<Event>) {
    var n := |evs|;
    n >= 2 && evs[n - 2].Call? && evs[n - 1].ScanDone? &&
    var atCall := Run(evs[..n - 2]);
    atCall.Some? && !atCall.value.inFlight
  }

  /** While a scan is in flight, the finished scans cover the last call only if that call came from rest and its own scan was the last to finish. */
  lemma CoveredInFlightIff(evs: seq<Event>)
    requires Run(evs).Some? && Run(evs).value.inFlight
    ensures Covered(Run(evs).value) <==> EndsInServedCall(evs)
  {
    var n := |evs|;
    var before := Run(evs[..n - 1]).value;
    RunIsSound(evs[..n - 1]);
    if evs[n - 1].ScanDone? {
      assert evs[..n - 1][..n - 2] == evs[..n - 2];
      RunIsSound(evs[..n - 2]);
    }
  }

  /**
   Exactly which runs at rest are up to date: those whose last scan completed, and
   those that failed on the follow-up of a call already served, which only the flag
   left over from an earlier failure had asked for.
   */
  lemma RestIsUpToDateIff(evs: seq<Event>)
    requires Run(evs).Some? && !Run(evs).value.inFlight && evs != []
    ensures UpToDate(Run(evs).value) <==>
      !evs[|evs| - 1].ScanFails? || EndsInServedCall(evs[..|evs| - 1])
  {
    if evs[|evs| - 1].ScanFails? {
      CoveredInFlightIff(evs[..|evs| - 1]);
    } else {
      RestIsUpToDate(evs);
    }
  }

  /** The first failure of a run always leaves a call unserved. */
  lemma FirstFailureLosesACall(evs: seq<Event>)
    requires Run(evs).Some? && Run(evs).value.inFlight
    requires forall i :: 0 <= i < |evs| ==> !evs[i].ScanFails?
    ensures Run(evs + [ScanFails]).Some? && !UpToDate(Run(evs + [ScanFails]).value)
  {
    var n := |evs|;
    OneMore(evs, ScanFails);
    RestIsUpToDateIff(evs + [ScanFails]);
    assert (evs + [ScanFails])[..n] == evs;
    assert n >= 2 ==> evs[..n - 1][..n - 2] == evs[..n - 2];
    if EndsInServedCall(evs) {
      RestIsUpToDate(evs[..n - 2]);
    }
  }

  /** The harmless kind of failure does occur: it takes an earlier one that left the flag set. */
  lemma LaterFailureMayBeHarmless(source: string)
    ensures var s := Run([Call, Call, ScanFails, Call, ScanDone(source), ScanFails]);
      s.Some? && !s.value.inFlight && s.value.failed && UpToDate(s.value)
  {
    var failed := [Call] + [Call] + [ScanFails];
    OneMore([], Call);
    assert [] + [Call] == [Call];
    OneMore([Call], Call);
    OneMore([Call] + [Call], ScanFails);
    OneMore(failed, Call);
    OneMore(failed + [Call], ScanDone(source));
    OneMore(failed + [Call] + [ScanDone(source)], ScanFails);
    assert [Call, Call, ScanFails, Call, ScanDone(source), ScanFails] == failed + [Call] + [ScanDone(source)] + [ScanFails];
  }

  /** A failure can lose one: a call that came during a scan that fails stays queued with nothing in flight to serve it. */
  lemma FailedScanLosesTheQueuedCall(evs: seq<Event>)
    requires Run(evs).Some? && Run(evs).value.inFlight
    ensures var s := Run(evs + [Call, ScanFails]);
      s.Some? && !s.value.inFlight && s.value.queued && !Covered(s.value)
  {
    var s := Run(evs).value;
    RunIsSound(evs);
    OneMore(evs, Call);
    OneMore(evs + [Call], ScanFails);
    assert evs + [Call] + [ScanFails] == evs + [Call, ScanFails];
  }

  lemma OneMore(evs: seq<Event>, ev: Event)
    requires Run(evs).Some? && Enabled(Run(evs).value, ev)
    ensures Run(evs + [ev]) == Some(After(Run(evs).value, ev))
  {
    assert (evs + [ev])[..|evs|] == evs;
  }

  // ---------- Bursts ----------

  function Calls(k: nat): seq<Event> {
    if k == 0 then [] else Calls(k - 1) + [Call]
  }

  lemma {:induction false} CallsOnlyQueue(evs: seq<Event>, k: nat)
    requires Run(evs).Some? && Run(evs).value.inFlight && !Run(evs).value.queued
    ensures Run(evs + Calls(k)).Some?
    ensures var s, t := Run(evs).value, Run(evs + Calls(k)).value;
      t.inFlight && t.started == s.started && t.queued == (k > 0) && t.current == s.current &&
      t.scanStart == s.scanStart && t.chain == s.chain && t.results == s.results
  {
    if k == 0 {
      assert evs + Calls(0) == evs;
    } else {
      CallsOnlyQueue(evs, k - 1);
      OneMore(evs + Calls(k - 1), Call);
      assert evs + Calls(k - 1) + [Call] == evs + Calls(k);
    }
  }

  /** However many calls come during one scan, its end starts exactly one follow-up, and none if there were no calls. */
  lemma BurstCausesOneFollowUp(evs: seq<Event>, k: nat, source: string)
    requires Run(evs).Some? && Run(evs).value.inFlight && !Run(evs).value.queued
    ensures var s, t := Run(evs).value, Run(evs + Calls(k) + [ScanDone(source)]);
      t.Some? && !t.value.queued && t.value.inFlight == (k > 0) && t.value.started == s.started + if k > 0 then 1 else 0
  {
    CallsOnlyQueue(evs, k);
    OneMore(evs + Calls(k), ScanDone(source));
  }

  /** Once no more calls come, at most two scans are left to finish. */
  lemma QuietRunEnds(evs: seq<Event>, quiet: seq<Event>)
    requires Run(evs).Some? && Run(evs + quiet).Some?
    requires forall i :: 0 <= i < |quiet| ==> !quiet[i].Call?
    ensures |quiet| <= 2 && (|quiet| == 2 ==> !Run(evs + quiet).value.inFlight)
  {
    QuietSteps(evs, quiet);
  }

  function Remaining(s: State): nat {
    if !s.inFlight then 0 else if s.queued then 2 else 1
  }

  lemma {:induction false} QuietSteps(evs: seq<Event>, quiet: seq<Event>)
    requires Run(evs).Some? && Run(evs + quiet).Some?
    requires forall i :: 0 <= i < |quiet| ==> !quiet[i].Call?
    ensures |quiet| + Remaining(Run(evs + quiet).value) <= Remaining(Run(evs).value)
  {
    if quiet == [] {
      assert evs + quiet == evs;
    } else {
      var front := quiet[..|quiet| - 1];
      assert (evs + quiet)[..|evs + quiet| - 1] == evs + front;
      QuietSteps(evs, front);
    }
  }

  // ---------- What a refresh returns ----------

  lemma {:induction false} UnwindIsAny(chain: seq<Scan>)
    ensures Unwind(chain) <==> exists i :: 0 <= i < |chain| && Changed(chain[i])
  {
    if chain != [] {
      UnwindIsAny(chain[1..]);
      assert forall i :: 0 < i < |chain| ==> chain[i] == chain[1..][i - 1];
      if i :| 0 <= i < |chain[1..]| && Changed(chain[1..][i]) {
        assert Changed(chain[i + 1]);
      }
    }
  }

  /** Each scan of the chain compares with what the one before it left. */
  ghost predicate Chained(s: State) {
    && (forall i :: 0 <= i < |s.chain| - 1 ==> s.chain[i].found == s.chain[i + 1].before)
    && (s.inFlight && s.chain != [] ==> s.chain[|s.chain| - 1].found == s.current)
  }

  lemma {:induction false} RunIsChained(evs: seq<Event>)
    requires Run(evs).Some?
    ensures Chained(Run(evs).value)
  {
    if evs != [] {
      RunIsChained(evs[..|evs| - 1]);
    }
  }

  lemma {:induction false} UnchangedChain(chain: seq<Scan>, i: nat)
    requires forall k :: 0 <= k < |chain| - 1 ==> chain[k].found == chain[k + 1].before
    requires forall k :: 0 <= k < |chain| ==> !Changed(chain[k])
    requires i < |chain|
    ensures chain[i].found == chain[0].before
  {
    if i > 0 {
      UnchangedChain(chain, i - 1);
    }
  }

  /**
   When a scan ends a chain, the call that started the chain returns true exactly
   if some scan of the chain changed the source; if it returns false, the source is
   what it was when the chain began.
   */
  lemma ChainReturnsWhetherChanged(evs: seq<Event>, source: string)
    requires Run(evs).Some? && Run(evs).value.inFlight && !Run(evs).value.queued
    ensures var s, t := Run(evs).value, Run(evs + [ScanDone(source)]);
      && t.Some? && |t.value.results| == |s.results| + 1 && t.value.chain == s.chain + [Scan(s.scanStart, s.current, source)]
      && var returned := t.value.results[|s.results|];
      && (returned <==> exists i :: 0 <= i < |t.value.chain| && t.value.chain[i].found != t.value.chain[i].before)
      && (!returned ==> source == t.value.chain[0].before)
  {
    OneMore(evs, ScanDone(source));
    var t := Run(evs + [ScanDone(source)]).value;
    UnwindIsAny(t.chain);
    assert forall i :: 0 <= i < |t.chain| ==> (Changed(t.chain[i]) <==> t.chain[i].found != t.chain[i].before);
    RunIsChained(evs + [ScanDone(source)]);
    if !Unwind(t.chain) {
      UnchangedChain(t.chain, |t.chain| - 1);
    }
  }

  // ---------- The plugin's own variables ----------

  /** The suspended calls of a chain return one after the other, the innermost first: `changed || followUp`. */
  method ReturnAll(flags: seq<bool>) returns (result: bool)
    ensures result == AnyFlag(flags)
  {
    result := false;
    var i := |flags|;
    while i > 0
      invariant 0 <= i <= |flags|
      invariant result == AnyFlag(flags[i..])
    {
      i := i - 1;
      assert flags[i..][1..] == flags[i + 1..];
      result := flags[i] || result;
    }
    assert flags[0..] == flags;
  }

  /** The closure variables of `mockupPreviewPlugin`, and the locals of the suspended calls of a chain. */
  class Preview {
    var refreshInFlight: bool
    var refreshQueued: bool
    var currentSource: string
    /** The `changed` flags of the suspended calls, outermost first. */
    var changedFlags: seq<bool>
    ghost var history: seq<Event>

    ghost predicate Valid()
      reads this
    {
      && Run(history).Some?
      && var s := Run(history).value;
      && refreshInFlight == s.inFlight && refreshQueued == s.queued && currentSource == s.current
      && (refreshInFlight ==> changedFlags == Flags(s.chain))
    }

    constructor ()
      ensures Valid() && history == []
    {
      refreshInFlight, refreshQueued, currentSource, changedFlags, history := false, false, "", [], [];
    }

    /** A call from outside, up to its first await. True if it has started a scan. */
    method Refresh() returns (scanning: bool)
      requires Valid()
      modifies this
      ensures Valid() && history == old(history) + [Call]
      ensures scanning == !old(refreshInFlight) && refreshInFlight
    {
      OneMore(history, Call);
      history := history + [Call];
      if refreshInFlight {
        refreshQueued := true;
        return false;
      }
      refreshInFlight := true;
      changedFlags := [];
      return true;
    }

    /**
     The continuation of a scan: compare, write, clear the flag, and either start
     the queued follow-up or let the whole chain return.
     */
    method ScanCompletes(newSource: string) returns (returned: Option<bool>)
      requires Valid() && refreshInFlight
      modifies this
      ensures Valid() && history == old(history) + [ScanDone(newSource)]
      ensures currentSource == newSource && !refreshQueued && refreshInFlight == old(refreshQueued)
      ensures returned == if old(refreshQueued) then None else Some(Unwind(Run(history).value.chain))
    {
      ghost var before := Run(history).value;
      OneMore(history, ScanDone(newSource));
      history := history + [ScanDone(newSource)];
      var changed := false;
      if newSource != currentSource {
        currentSource := newSource;
        changed := true;
      }
      changedFlags := changedFlags + [changed];
      refreshInFlight := false;
      if refreshQueued {
        refreshQueued := false;
        refreshInFlight := true;
        return None;
      }
      UnwindFlags(Run(history).value.chain);
      var result := ReturnAll(changedFlags);
      return Some(result);
    }

    /** A scan that throws: the `finally` block alone runs, and the chain rejects. */
    method ScanThrows()
      requires Valid() && refreshInFlight
      modifies this
      ensures Valid() && history == old(history) + [ScanFails]
      ensures !refreshInFlight && refreshQueued == old(refreshQueued) && currentSource == old(currentSource)
    {
      OneMore(history, ScanFails);
      history := history + [ScanFails];
      refreshInFlight := false;
    }
  }

  function Flags(chain: seq<Scan>): seq<bool> {
    if chain == [] then [] else Flags(chain[..|chain| - 1]) + [Changed(chain[|chain| - 1])]
  }

  function AnyFlag(flags: seq<bool>): bool {
    if flags == [] then false else flags[0] || AnyFlag(flags[1..])
  }

  lemma {:induction false} FlagsAt(chain: seq<Scan>)
    ensures |Flags(chain)| == |chain| && forall i :: 0 <= i < |chain| ==> Flags(chain)[i] == Changed(chain[i])
  {
    if chain != [] {
      FlagsAt(chain[..|chain| - 1]);
    }
  }

  lemma {:induction false} AnyFlagIsAny(flags: seq<bool>)
    ensures AnyFlag(flags) <==> exists i :: 0 <= i < |flags| && flags[i]
  {
    if flags != [] {
      AnyFlagIsAny(flags[1..]);
      assert forall i :: 0 < i < |flags| ==> flags[i] == flags[1..][i - 1];
      if i :| 0 <= i < |flags[1..]| && flags[1..][i] {
        assert flags[i + 1];
      }
    }
  }

  lemma UnwindFlags(chain: seq<Scan>)
    ensures Unwind(chain) == AnyFlag(Flags(chain))
  {
    FlagsAt(chain);
    UnwindIsAny(chain);
    AnyFlagIsAny(Flags(chain));
  }
}
