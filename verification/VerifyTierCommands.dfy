/**
 What each command of the verify-tier protocol does when nothing interrupts it
 (scripts/eval_model_tiering.py), from any world in which no command is running,
 for every fate of its write.
 */
module VerifyTierCommands {
  import opened Basics
  import opened VerifyTier

  /** The command from its start to its end; statements after the end do nothing. */
  function Uninterrupted(cmd: Command, write: Write): seq<Action> {
    [Begin(cmd), HEALTHY, Statement(false, write)] + [HEALTHY, HEALTHY, HEALTHY]
  }

  function Outcome(tiers: Tiers, w: World, cmd: Command, write: Write): World {
    Run(tiers, w, Uninterrupted(cmd, write))
  }

  lemma OutcomeSteps(tiers: Tiers, w: World, cmd: Command, write: Write)
    ensures var written := Next(tiers, Next(tiers, Next(tiers, w, Begin(cmd)), HEALTHY), Statement(false, write));
      Outcome(tiers, w, cmd, write) == Next(tiers, Next(tiers, Next(tiers, written, HEALTHY), HEALTHY), HEALTHY)
  {
    hide Next, Run;
    var first, last := [Begin(cmd), HEALTHY, Statement(false, write)], [HEALTHY, HEALTHY, HEALTHY];
    RunConcat(tiers, w, first, last);
    Unroll3(tiers, w, first);
    Unroll3(tiers, Run(tiers, w, first), last);
  }

  /** The world as it was, but for the verdict. */
  function Refuses(w: World, cmd: Command): World {
    w.(verdict := Refused(cmd))
  }

  /**
   vt-set: with a restore target and the marker for its tier on file, it puts the
   tier's values and leaves the file alone. It reports failure exactly if the
   write does. Without them it changes nothing.
   */
  lemma SetOutcome(tiers: Tiers, w: World, tier: string, write: Write)
    requires w.process.Idle?
    ensures var r := Outcome(tiers, w, Set(tier), write);
      if w.disk.Some? && w.disk.value.restoreTo.Some? && w.disk.value.inFlight == Some(tier) && tier in tiers then
        && r.disk == w.disk && r.process.Idle?
        && r.live == (if write.Sticks? || write.FailsApplied? then tiers[tier] else w.live)
        && r.verdict == (if write.Sticks? || write.Lost? then Passed(Set(tier)) else Refused(Set(tier)))
        && r.adrift == (if write.GivenUp? then w.adrift + [tiers[tier]] else w.adrift)
      else r == Refuses(w, Set(tier))
  {
    hide Outcome, Run;
    OutcomeSteps(tiers, w, Set(tier), write);
  }

  /** preflight: records the live config unless another one is recorded already. */
  lemma PreflightOutcome(tiers: Tiers, w: World, write: Write)
    requires w.process.Idle?
    ensures var r, st := Outcome(tiers, w, Preflight, write), Loaded(w);
      if st.atStart == None || st.atStart == Some(w.live) then
        r == w.(disk := Some(st.(atStart := Some(w.live))), verdict := Passed(Preflight))
      else r == Refuses(w, Preflight)
  {
    hide Outcome, Run;
    OutcomeSteps(tiers, w, Preflight, write);
  }

  /** vt-capture: with the live config still the recorded start, saves it as the restore target and sets the marker. */
  lemma CaptureOutcome(tiers: Tiers, w: World, tier: string, write: Write)
    requires w.process.Idle?
    ensures var r := Outcome(tiers, w, Capture(tier), write);
      if w.disk.Some? && w.disk.value.atStart == Some(w.live) then
        r == w.(disk := Some(Saved(Some(w.live), Some(w.live), Some(tier))), verdict := Passed(Capture(tier)))
      else r == Refuses(w, Capture(tier))
  {
    hide Outcome, Run;
    OutcomeSteps(tiers, w, Capture(tier), write);
  }

  /** What a restore brings back: the saved target, or the recorded start without one. */
  function Target(w: World): Option<Config> {
    if Loaded(w).restoreTo.Some? then Loaded(w).restoreTo else Loaded(w).atStart
  }

  /** vt-restore: passes, and takes the marker away, exactly if the config reads back as its target. */
  lemma RestoreOutcome(tiers: Tiers, w: World, write: Write)
    requires w.process.Idle?
    ensures var r := Outcome(tiers, w, Restore, write);
      if Target(w) == None then r == Refuses(w, Restore)
      else
        var target := Target(w).value;
        && r.process.Idle?
        && r.live == (if write.Sticks? || write.FailsApplied? then target else w.live)
        && r.verdict ==
           (if write.Sticks? || (write.Lost? && w.live == target) then Passed(Restore) else Refused(Restore))
        && r.disk == (if r.verdict == Passed(Restore) then Some(w.disk.value.(inFlight := None)) else w.disk)
        && r.adrift == (if write.GivenUp? then w.adrift + [target] else w.adrift)
  {
    hide Outcome, Run;
    OutcomeSteps(tiers, w, Restore, write);
  }

  /** vt-final-check changes nothing and passes exactly if the live config is the recorded start without a marker. */
  lemma FinalCheckOutcome(tiers: Tiers, w: World, write: Write)
    requires w.process.Idle?
    ensures var passes := w.disk.Some? && w.disk.value.atStart == Some(w.live) && w.disk.value.inFlight == None;
      Outcome(tiers, w, FinalCheck, write) ==
      w.(verdict := if passes then Passed(FinalCheck) else Refused(FinalCheck))
  {
    hide Outcome, Run;
    OutcomeSteps(tiers, w, FinalCheck, write);
  }

  /** A read, load or save that fails ends the command and changes nothing else. */
  lemma IoFailureEnds(tiers: Tiers, w: World, write: Write)
    requires !w.process.Idle? && !w.process.Writing?
    ensures exists cmd :: Next(tiers, w, Statement(true, write)) == w.(process := Idle, verdict := Refused(cmd))
  {
    var r := Next(tiers, w, Statement(true, write));
    assert r == w.(process := Idle, verdict := Refused(r.verdict.cmd));
  }

  /**
   In every run: once a tier is captured, setting it makes its values live, and
   restoring afterwards brings the found config back.
   */
  lemma SetAfterCapture(tiers: Tiers, live: Config, actions: seq<Action>, tier: string)
    requires var w := Run(tiers, Initial(live), actions);
      w.process.Idle? && tier in tiers && Loaded(w).inFlight == Some(tier)
    ensures var w := Run(tiers, Initial(live), actions);
      var after := Outcome(tiers, w, Set(tier), Sticks);
      && after.live == tiers[tier] && after.verdict == Passed(Set(tier)) && after.disk == w.disk
      && Outcome(tiers, after, Restore, Sticks).live == live
  {
    RunKeepsFile(tiers, live, Initial(live), actions);
    var w := Run(tiers, Initial(live), actions);
    hide Run, Outcome;
    SetOutcome(tiers, w, tier, Sticks);
    RestoreOutcome(tiers, Outcome(tiers, w, Set(tier), Sticks), Sticks);
  }
}
