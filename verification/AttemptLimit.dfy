/**
 The attempt-limit watcher: the progress clock
 (cmd/datawatch/attempt_progress_clock.go), the check that drives it
 (attempt_limit_watch.go) and the preserve-then-kill step
 (attempt_preserve.go). Times and durations are integers of one unit.
 */
module AttemptLimit {
  import opened Basics

  datatype Observation = Observation(now: int, logSize: int, fingerprint: string, head: string, cpuTicks: nat)

  /** The log grew, the work fingerprint or the head changed, or the child burned CPU. */
  predicate Progress(before: Observation, obs: Observation) {
    || obs.logSize > before.logSize
    || obs.fingerprint != before.fingerprint
    || obs.head != before.head
    || obs.cpuTicks > before.cpuTicks
  }

  datatype Reason = MaxAttempt(elapsed: int) | NoProgress(idle: int)

  // ---- What a run of observations says ----

  /** When the attempt last progressed: folded over the observations, seed first. */
  function LastProgress(start: int, seen: seq<Observation>): int {
    if |seen| <= 1 then start
    else if Progress(seen[|seen| - 2], seen[|seen| - 1]) then seen[|seen| - 1].now
    else LastProgress(start, seen[..|seen| - 1])
  }

  lemma LastProgressAppend(start: int, seen: seq<Observation>, obs: Observation)
    requires seen != []
    ensures LastProgress(start, seen + [obs]) ==
            if Progress(seen[|seen| - 1], obs) then obs.now else LastProgress(start, seen)
  {
    assert (seen + [obs])[..|seen|] == seen;
  }

  /** The i-th observation progressed over its predecessor. */
  predicate ProgressAt(seen: seq<Observation>, i: int) {
    1 <= i < |seen| && Progress(seen[i - 1], seen[i])
  }

  /** The i-th observation is the latest one that progressed over its predecessor. */
  ghost predicate IsLatest(seen: seq<Observation>, i: int) {
    ProgressAt(seen, i) && forall j :: i < j ==> !ProgressAt(seen, j)
  }

  /** It is the time of the latest observation that progressed over its predecessor, or the attempt start. */
  lemma {:induction false} FoldedProgress(start: int, seen: seq<Observation>)
    ensures
      || (LastProgress(start, seen) == start && forall i :: !ProgressAt(seen, i))
      || exists i :: IsLatest(seen, i) && LastProgress(start, seen) == seen[i].now
  {
    var n := |seen|;
    if n > 1 {
      var front, obs := seen[..n - 1], seen[n - 1];
      assert seen == front + [obs];
      FoldedProgress(start, front);
      LastProgressAppend(start, front, obs);
      hide LastProgress, Progress;
      ProgressStep(front, obs);
      if ProgressAt(seen, n - 1) {
        assert IsLatest(seen, n - 1);
      } else if i :| IsLatest(front, i) && LastProgress(start, front) == front[i].now {
        assert IsLatest(seen, i);
      }
    }
  }

  /**
   In terms of what was observed: the folded time is that of the latest
   observation with a longer log, another fingerprint, another head or more CPU
   ticks than the one before it.
   */
  lemma {:induction false} LatestProgress(start: int, seen: seq<Observation>, i: int)
    requires 1 <= i < |seen|
    requires forall j :: i < j < |seen| ==>
               && seen[j].logSize <= seen[j - 1].logSize && seen[j].fingerprint == seen[j - 1].fingerprint
               && seen[j].head == seen[j - 1].head && seen[j].cpuTicks <= seen[j - 1].cpuTicks
    requires || seen[i].logSize > seen[i - 1].logSize || seen[i].fingerprint != seen[i - 1].fingerprint
             || seen[i].head != seen[i - 1].head || seen[i].cpuTicks > seen[i - 1].cpuTicks
    ensures LastProgress(start, seen) == seen[i].now
  {
    FoldedProgress(start, seen);
    hide LastProgress;
    assert IsLatest(seen, i);
  }

  /** Without any such observation it is the attempt start. */
  lemma {:induction false} NoProgressYet(start: int, seen: seq<Observation>)
    requires forall j :: 1 <= j < |seen| ==>
               && seen[j].logSize <= seen[j - 1].logSize && seen[j].fingerprint == seen[j - 1].fingerprint
               && seen[j].head == seen[j - 1].head && seen[j].cpuTicks <= seen[j - 1].cpuTicks
    ensures LastProgress(start, seen) == start
  {
    FoldedProgress(start, seen);
    hide LastProgress;
  }

  lemma ProgressStep(front: seq<Observation>, obs: Observation)
    requires front != []
    ensures ProgressAt(front + [obs], |front|) <==> Progress(front[|front| - 1], obs)
    ensures forall i :: i != |front| ==> (ProgressAt(front + [obs], i) <==> ProgressAt(front, i))
  {
    hide Progress;
    var seen := front + [obs];
    assert forall i :: 0 <= i < |front| ==> seen[i] == front[i];
  }

  /** Every observation made twice in a row. */
  function Doubled(seen: seq<Observation>): seq<Observation> {
    if seen == [] then [] else Doubled(seen[..|seen| - 1]) + [seen[|seen| - 1]] + [seen[|seen| - 1]]
  }

  /** Observing every observation twice changes nothing. */
  lemma {:induction false} ObservedTwice(start: int, seen: seq<Observation>)
    ensures LastProgress(start, Doubled(seen)) == LastProgress(start, seen)
    ensures seen != [] ==> Doubled(seen) != [] && Doubled(seen)[|Doubled(seen)| - 1] == seen[|seen| - 1]
  {
    if seen != [] {
      var n := |seen| - 1;
      var front, twice, obs := seen[..n], Doubled(seen[..n]), seen[n];
      ObservedTwice(start, front);
      LastProgressAppend(start, twice + [obs], obs);
      assert seen == front + [obs];
      if n == 0 {
        assert twice + [obs] == [obs];
      } else {
        LastProgressAppend(start, twice, obs);
        LastProgressAppend(start, front, obs);
      }
    }
  }

  /** Which limit the attempt has passed, if any: the maximum wins, a non-positive limit is off. */
  function Exceeded(start: int, lastProgress: int, now: int, maxAttempt: int, noProgress: int): Option<Reason> {
    if maxAttempt > 0 && now - start > maxAttempt then Some(MaxAttempt(now - start))
    else if noProgress > 0 && now - lastProgress > noProgress then Some(NoProgress(now - lastProgress))
    else None
  }

  // ---- The clock ----

  class Clock {
    const attemptStart: int
    var lastProgressAt: int
    var last: Observation

    constructor (start: int, first: Observation)
      ensures attemptStart == start && lastProgressAt == start && last == first
    {
      attemptStart, lastProgressAt, last := start, start, first;
    }

    /** Progress over the last observation moves the clock; the same observation again does not. */
    method Observe(obs: Observation)
      modifies this
      ensures last == obs
      ensures lastProgressAt == if Progress(old(last), obs) then obs.now else old(lastProgressAt)
    {
      if Progress(last, obs) {
        lastProgressAt := obs.now;
      }
      last := obs;
    }

    /** Observes once more, then compares with the limits. */
    method Decide(obs: Observation, maxAttempt: int, noProgress: int) returns (stop: Option<Reason>)
      modifies this
      ensures last == obs
      ensures lastProgressAt == if Progress(old(last), obs) then obs.now else old(lastProgressAt)
      ensures stop == Exceeded(attemptStart, lastProgressAt, obs.now, maxAttempt, noProgress)
    {
      Observe(obs);
      if maxAttempt > 0 {
        var elapsed := obs.now - attemptStart;
        if elapsed > maxAttempt {
          return Some(MaxAttempt(elapsed));
        }
      }
      if noProgress > 0 {
        var idle := obs.now - lastProgressAt;
        if idle > noProgress {
          return Some(NoProgress(idle));
        }
      }
      return None;
    }
  }

  // ---- Preserve, then kill ----

  /** What the snapshot of a work directory returns: a ref (possibly empty), a skip list, or an error. */
  datatype Snapshot = Snapshot(ref: string, skipped: nat, failed: bool)

  datatype Effect =
    | SnapshotTried(attempt: nat)
    | SkipsRecorded(count: nat)
    | SnapshotRecorded(ref: string)
    | SessionEnded(reason: Reason)

  /** The effects of one preserved attempt; failures are logged and change nothing else. */
  function Preserved(snap: Snapshot, attempt: nat, hasStore: bool): seq<Effect> {
    [SnapshotTried(attempt)]
    + (if snap.skipped > 0 && hasStore then [SkipsRecorded(snap.skipped)] else [])
    + (if !snap.failed && snap.ref != "" && hasStore then [SnapshotRecorded(snap.ref)] else [])
  }

  /** The effects of ending a session: the snapshot, when one is due, and then the end. */
  function Stopped(preserve: bool, workDir: string, snap: Snapshot, attempt: nat, hasStore: bool,
                   why: Reason): seq<Effect> {
    (if preserve && workDir != "" then Preserved(snap, attempt, hasStore) else []) + [SessionEnded(why)]
  }

  // ---- What a run of checks leaves behind ----

  /** The limits in force at a check. */
  datatype Limits = Limits(maxAttempt: int, noProgress: int)

  /** The reasons of the checks at which a limit was exceeded, in order; the first observation is the seed. */
  function Stops(start: int, checks: seq<Observation>, limits: seq<Limits>): seq<Reason>
    requires |checks| == |limits| + 1
  {
    if limits == [] then []
    else
      var n := |limits| - 1;
      var l, last := limits[n], LastProgress(start, checks);
      var why := Exceeded(start, last, checks[n + 1].now, l.maxAttempt, l.noProgress);
      Stops(start, checks[..n + 1], limits[..n]) + if why.Some? then [why.value] else []
  }

  lemma StopsAppend(start: int, checks: seq<Observation>, limits: seq<Limits>, obs: Observation, l: Limits)
    requires |checks| == |limits| + 1
    ensures var why := Exceeded(start, LastProgress(start, checks + [obs]), obs.now, l.maxAttempt, l.noProgress);
      Stops(start, checks + [obs], limits + [l]) == Stops(start, checks, limits) + if why.Some? then [why.value] else []
  {
    hide Exceeded, LastProgress;
    assert (checks + [obs])[..|checks|] == checks && (limits + [l])[..|limits|] == limits;
  }

  /** The reasons the session was ended for, in order. */
  function EndReasons(effects: seq<Effect>): seq<Reason> {
    if effects == [] then []
    else
      var last := effects[|effects| - 1];
      EndReasons(effects[..|effects| - 1]) + if last.SessionEnded? then [last.reason] else []
  }

  lemma EndReasonsAppend(effects: seq<Effect>, e: Effect)
    ensures EndReasons(effects + [e]) == EndReasons(effects) + if e.SessionEnded? then [e.reason] else []
  {
    assert (effects + [e])[..|effects|] == effects;
  }

  /** The snapshot was tried at j, and the session was not ended between then and i. */
  ghost predicate TriedBefore(effects: seq<Effect>, j: int, i: int) {
    0 <= j < i <= |effects| && effects[j].SnapshotTried? && forall k :: j < k < i ==> !effects[k].SessionEnded?
  }

  /** Every end of the session has a snapshot tried before it and after the end before that. */
  ghost predicate SnapshotsFirst(effects: seq<Effect>) {
    forall i :: 0 <= i < |effects| && effects[i].SessionEnded? ==> exists j :: TriedBefore(effects, j, i)
  }

  lemma {:induction false} StopEnds(effects: seq<Effect>, snap: Snapshot, attempt: nat, hasStore: bool,
                                    workDir: string, why: Reason)
    ensures EndReasons(effects + Stopped(true, workDir, snap, attempt, hasStore, why)) == EndReasons(effects) + [why]
  {
    var p := if workDir != "" then Preserved(snap, attempt, hasStore) else [];
    assert effects + (p + [SessionEnded(why)]) == (effects + p) + [SessionEnded(why)];
    EndReasonsAppend(effects + p, SessionEnded(why));
    EndlessEffects(effects, p);
  }

  lemma {:induction false} EndlessEffects(effects: seq<Effect>, more: seq<Effect>)
    requires forall k :: 0 <= k < |more| ==> !more[k].SessionEnded?
    ensures EndReasons(effects + more) == EndReasons(effects)
    decreases |more|
  {
    if more == [] {
      assert effects + more == effects;
    } else {
      var n := |more| - 1;
      EndlessEffects(effects, more[..n]);
      assert effects + more == (effects + more[..n]) + [more[n]];
      EndReasonsAppend(effects + more[..n], more[n]);
    }
  }

  lemma StopSnapshotsFirst(effects: seq<Effect>, snap: Snapshot, attempt: nat, hasStore: bool, workDir: string,
                           why: Reason)
    requires SnapshotsFirst(effects) && workDir != ""
    ensures SnapshotsFirst(effects + Stopped(true, workDir, snap, attempt, hasStore, why))
  {
    var more := Stopped(true, workDir, snap, attempt, hasStore, why);
    StopShape(snap, attempt, hasStore, workDir, why);
    hide Stopped;
    var all := effects + more;
    forall i | 0 <= i < |all| && all[i].SessionEnded? ensures exists j :: TriedBefore(all, j, i) {
      if i < |effects| {
        var j :| TriedBefore(effects, j, i);
        assert TriedBefore(all, j, i);
      } else {
        assert all[i] == more[i - |effects|] && all[|effects|] == more[0];
        assert forall k :: |effects| < k < i ==> all[k] == more[k - |effects|];
        assert TriedBefore(all, |effects|, i);
      }
    }
  }

  /**
   What one preserved attempt records, each once: the try, then the skip list
   when something was skipped, then the ref when there is one, both only with a
   store, and nothing else.
   */
  lemma PreservedExactly(snap: Snapshot, attempt: nat, hasStore: bool, e: Effect)
    ensures e in Preserved(snap, attempt, hasStore) <==>
            || e == SnapshotTried(attempt)
            || (e == SkipsRecorded(snap.skipped) && snap.skipped > 0 && hasStore)
            || (e == SnapshotRecorded(snap.ref) && !snap.failed && snap.ref != "" && hasStore)
    ensures var all := Preserved(snap, attempt, hasStore);
      forall i, j :: 0 <= i < j < |all| ==>
        !all[j].SnapshotTried? && !all[i].SnapshotRecorded? && (all[i].SkipsRecorded? ==> !all[j].SkipsRecorded?)
  {
  }

  /** A stop with a directory starts with the snapshot and ends the session last. */
  lemma StopShape(snap: Snapshot, attempt: nat, hasStore: bool, workDir: string, why: Reason)
    requires workDir != ""
    ensures var all := Stopped(true, workDir, snap, attempt, hasStore, why);
      && |all| > 1 && all[0].SnapshotTried?
      && forall k :: 0 <= k < |all| ==> (all[k].SessionEnded? <==> k == |all| - 1)
  {
    var p := Preserved(snap, attempt, hasStore);
    assert p[0] == SnapshotTried(attempt) && forall k :: 0 < k < |p| ==> p[k].SkipsRecorded? || p[k].SnapshotRecorded?;
  }

  /** What the effects of a run say stays true when one more check is added, with the effects of a stop if it is due. */
  lemma CheckKeepsRun(start: int, checks: seq<Observation>, limits: seq<Limits>, obs: Observation, l: Limits,
                      effects: seq<Effect>, workDir: string, snap: Snapshot, attempt: nat, hasStore: bool)
    requires |checks| == |limits| + 1 && EndReasons(effects) == Stops(start, checks, limits)
    requires workDir != "" ==> SnapshotsFirst(effects)
    ensures var why := Exceeded(start, LastProgress(start, checks + [obs]), obs.now, l.maxAttempt, l.noProgress);
      var more := if why.Some? then Stopped(true, workDir, snap, attempt, hasStore, why.value) else [];
      && EndReasons(effects + more) == Stops(start, checks + [obs], limits + [l])
      && (workDir != "" ==> SnapshotsFirst(effects + more))
  {
    hide Exceeded, LastProgress, Stops, Stopped, EndReasons, SnapshotsFirst;
    StopsAppend(start, checks, limits, obs, l);
    var why := Exceeded(start, LastProgress(start, checks + [obs]), obs.now, l.maxAttempt, l.noProgress);
    if why.Some? {
      StopEnds(effects, snap, attempt, hasStore, workDir, why.value);
      if workDir != "" {
        StopSnapshotsFirst(effects, snap, attempt, hasStore, workDir, why.value);
      }
    } else {
      assert effects + [] == effects && Stops(start, checks, limits) + [] == Stops(start, checks, limits);
    }
  }

  // ---- The watcher ----

  class Watcher {
    const clock: Clock
    const workDir: string
    const hasStore: bool
    var attemptRefs: seq<string>
    var effects: seq<Effect>
    ghost var checks: seq<Observation>  // the seed and the observation of every check
    ghost var limits: seq<Limits>       // the limits of every check

    /**
     Over the whole run: the clock holds the time of the latest progress, the
     session was ended once for every check that exceeded a limit and for no
     other reason, and each end had its own snapshot tried before it.
     */
    ghost predicate Valid()
      reads this, clock
    {
      && |checks| == |limits| + 1 && clock.last == checks[|checks| - 1]
      && clock.lastProgressAt == LastProgress(clock.attemptStart, checks)
      && EndReasons(effects) == Stops(clock.attemptStart, checks, limits)
      && (workDir != "" ==> SnapshotsFirst(effects))
    }

    constructor (start: int, first: Observation, workDir: string, hasStore: bool, attemptRefs: seq<string>)
      ensures Valid() && checks == [first] && limits == [] && effects == []
      ensures fresh(clock) && clock.attemptStart == start
      ensures this.workDir == workDir && this.hasStore == hasStore
    {
      clock := new Clock(start, first);
      this.workDir, this.hasStore, this.attemptRefs := workDir, hasStore, attemptRefs;
      effects, checks, limits := [], [first], [];
    }

    method PreserveAttemptWork(snap: Snapshot)
      modifies this`effects
      ensures effects == old(effects) + Preserved(snap, |attemptRefs| + 1, hasStore)
    {
      effects := effects + [SnapshotTried(|attemptRefs| + 1)];
      if snap.skipped > 0 && hasStore {
        effects := effects + [SkipsRecorded(snap.skipped)];
      }
      if snap.failed || snap.ref == "" || !hasStore {
        return;
      }
      effects := effects + [SnapshotRecorded(snap.ref)];
    }

    /** The session is ended last, whatever became of the snapshot. */
    method KillStalledWorker(preserve: bool, snap: Snapshot, why: Reason)
      modifies this`effects
      ensures effects == old(effects) + Stopped(preserve, workDir, snap, |attemptRefs| + 1, hasStore, why)
    {
      if preserve && workDir != "" {
        PreserveAttemptWork(snap);
      }
      effects := effects + [SessionEnded(why)];
    }

    /**
     One check. Over any run of checks the clock holds the time of the latest
     progress among the checks' own observations, although each is observed
     twice; the attempt is stopped exactly when a limit is exceeded by that
     history; and a stop tries the snapshot before it ends the session.
     */
    method Check(obs: Observation, maxAttempt: int, noProgress: int, snap: Snapshot) returns (stopped: Option<Reason>)
      requires Valid()
      modifies this, clock
      ensures Valid() && checks == old(checks) + [obs] && limits == old(limits) + [Limits(maxAttempt, noProgress)]
      ensures var start := clock.attemptStart;
        stopped == Exceeded(start, LastProgress(start, checks), obs.now, maxAttempt, noProgress)
      ensures var elapsed, idle := obs.now - clock.attemptStart, obs.now - LastProgress(clock.attemptStart, checks);
        && (maxAttempt > 0 && elapsed > maxAttempt ==> stopped == Some(MaxAttempt(elapsed)))
        && (!(maxAttempt > 0 && elapsed > maxAttempt) && noProgress > 0 && idle > noProgress ==>
              stopped == Some(NoProgress(idle)))
        && (!(maxAttempt > 0 && elapsed > maxAttempt) && !(noProgress > 0 && idle > noProgress) ==> stopped == None)
      ensures stopped.None? ==> effects == old(effects)
      ensures stopped.Some? ==>
        effects == old(effects) + Stopped(true, workDir, snap, |attemptRefs| + 1, hasStore, stopped.value)
    {
      hide Progress, Stopped, LastProgress, Stops, EndReasons, SnapshotsFirst, Exceeded;
      ghost var start, l, run := clock.attemptStart, Limits(maxAttempt, noProgress), checks;
      CheckKeepsRun(start, run, limits, obs, l, effects, workDir, snap, |attemptRefs| + 1, hasStore);
      assert effects + [] == effects;
      LastProgressAppend(start, run, obs);
      NothingToExceed(start, LastProgress(start, run + [obs]), obs);
      ExceededExactly(start, LastProgress(start, run + [obs]), obs.now, maxAttempt, noProgress);
      clock.Observe(obs);
      checks, limits := checks + [obs], limits + [l];
      if maxAttempt <= 0 && noProgress <= 0 {
        return None;
      }
      stopped := clock.Decide(obs, maxAttempt, noProgress);
      if stopped.None? {
        return;
      }
      KillStalledWorker(true, snap, stopped.value);
    }
  }

  /** The maximum comes first; a limit that is not positive is off. */
  lemma ExceededExactly(start: int, lastProgress: int, now: int, maxAttempt: int, noProgress: int)
    ensures var why := Exceeded(start, lastProgress, now, maxAttempt, noProgress);
      var elapsed, idle := now - start, now - lastProgress;
      && (maxAttempt > 0 && elapsed > maxAttempt ==> why == Some(MaxAttempt(elapsed)))
      && (!(maxAttempt > 0 && elapsed > maxAttempt) && noProgress > 0 && idle > noProgress ==>
            why == Some(NoProgress(idle)))
      && (!(maxAttempt > 0 && elapsed > maxAttempt) && !(noProgress > 0 && idle > noProgress) ==> why == None)
  {
  }

  /** An observation is no progress over itself, and limits that are off are not exceeded. */
  lemma NothingToExceed(start: int, lastProgress: int, obs: Observation)
    ensures !Progress(obs, obs)
    ensures forall m, n :: m <= 0 && n <= 0 ==> Exceeded(start, lastProgress, obs.now, m, n) == None
  {
  }
}
