/**
 The verify-tier protocol around the daemon's global verification config
 (scripts/eval_model_tiering.py): preflight, capture, set, restore and
 final-check for one run id, statement by statement. The process may be killed
 between any two statements, a read or a save may fail, and a write may be
 lost, refused, applied although it reports failure, or given up on and land at
 any later time.
 */
module VerifyTier {
  import opened Basics

  /** The three verification_* keys. */
  datatype Config = Config(backend: string, model: string, effort: string)

  /** What the run's state file holds about the verification config. */
  datatype Saved = Saved(atStart: Option<Config>, restoreTo: Option<Config>, inFlight: Option<string>)

  datatype Command = Preflight | Capture(tier: string) | Set(tier: string) | Restore | FinalCheck

  /** The command being run, and what it has in hand. */
  datatype Process =
    | Idle
    | Starting(cmd: Command)                          // nothing read yet
    | PreflightRead(seen: Config)                     // has read the live config
    | Saving(cmd: Command, st: Saved)                 // about to replace the state file
    | CaptureLoaded(tier: string, st: Saved)          // has loaded the state file
    | Writing(cmd: Command, st: Saved, values: Config)  // about to write the live config
    | RestoreWritten(st: Saved, target: Config)       // about to read the config back
    | FinalLoaded(st: Saved)

  datatype Verdict = Unfinished | Passed(cmd: Command) | Refused(cmd: Command)

  /** adrift holds the writes that were given up on: the daemon may still apply each of them. */
  datatype World = World(live: Config, disk: Option<Saved>, process: Process, verdict: Verdict, adrift: seq<Config>)

  datatype Write = Sticks | Lost | FailsUnapplied | FailsApplied | GivenUp

  /** One thing that happens. A statement carries the fault that strikes it, if any. */
  datatype Action =
    | Begin(cmd: Command)
    | Statement(ioFails: bool, write: Write)
    | Killed
    | OtherSave                                       // another subcommand of the run saves the state file
    | Lands(k: nat)                                   // a write that was given up on is applied after all

  type Tiers = map<string, Config>

  const EMPTY := Saved(None, None, None)

  function Loaded(w: World): Saved {
    if w.disk.Some? then w.disk.value else EMPTY
  }

  function End(w: World, verdict: Verdict): World {
    w.(process := Idle, verdict := verdict)
  }

  function Started(w: World, cmd: Command): World {
    w.(process := Starting(cmd), verdict := Unfinished)
  }

  /** The first statement of each command: its read or its load, with the refusals that follow. */
  function FirstStatement(tiers: Tiers, w: World, cmd: Command, ioFails: bool): World {
    if ioFails then End(w, Refused(cmd))
    else match cmd
      case Preflight => w.(process := PreflightRead(w.live))
      case Capture(tier) =>
        if w.disk.None? || w.disk.value.atStart.None? then End(w, Refused(cmd))
        else w.(process := CaptureLoaded(tier, w.disk.value))
      case Set(tier) =>
        if w.disk.None? || w.disk.value.restoreTo.None? || w.disk.value.inFlight != Some(tier) || tier !in tiers
        then End(w, Refused(cmd))
        else w.(process := Writing(cmd, w.disk.value, tiers[tier]))
      case Restore =>
        if w.disk.None? then End(w, Refused(cmd))
        else
          var st := w.disk.value;
          if st.restoreTo.Some? then w.(process := Writing(cmd, st, st.restoreTo.value))
          else if st.atStart.Some? then w.(process := Writing(cmd, st, st.atStart.value))
          else End(w, Refused(cmd))
      case FinalCheck =>
        if w.disk.None? || w.disk.value.atStart.None? then End(w, Refused(cmd))
        else w.(process := FinalLoaded(w.disk.value))
  }

  /** The next statement of the running command. */
  function NextStatement(tiers: Tiers, w: World, ioFails: bool, write: Write): World {
    match w.process
    case Idle => w
    case Starting(cmd) => FirstStatement(tiers, w, cmd, ioFails)
    case PreflightRead(seen) =>
      var st := Loaded(w);
      if ioFails || (st.atStart.Some? && st.atStart.value != seen) then End(w, Refused(Preflight))
      else w.(process := Saving(Preflight, st.(atStart := Some(seen))))
    case CaptureLoaded(tier, st) =>
      if ioFails || st.atStart != Some(w.live) then End(w, Refused(Capture(tier)))
      else w.(process := Saving(Capture(tier), st.(restoreTo := st.atStart, inFlight := Some(tier))))
    case Saving(cmd, st) =>
      if ioFails then End(w, Refused(cmd)) else End(w.(disk := Some(st)), Passed(cmd))
    case Writing(cmd, st, values) =>
      var after :=
        if write.Sticks? || write.FailsApplied? then w.(live := values)
        else if write.GivenUp? then w.(adrift := w.adrift + [values])
        else w;
      if write.FailsUnapplied? || write.FailsApplied? || write.GivenUp? then End(after, Refused(cmd))
      else if cmd.Restore? then after.(process := RestoreWritten(st, values))
      else End(after, Passed(cmd))
    case RestoreWritten(st, target) =>
      if ioFails || w.live != target then End(w, Refused(Restore))
      else w.(process := Saving(Restore, st.(inFlight := None)))
    case FinalLoaded(st) =>
      if ioFails || st.atStart != Some(w.live) || st.inFlight.Some? then End(w, Refused(FinalCheck))
      else End(w, Passed(FinalCheck))
  }

  function Next(tiers: Tiers, w: World, a: Action): World {
    match a
    case Begin(cmd) => if w.process.Idle? then Started(w, cmd) else w
    case Statement(ioFails, write) => NextStatement(tiers, w, ioFails, write)
    case Killed => w.(process := Idle, verdict := Unfinished)
    case OtherSave => if w.process.Idle? then w.(disk := Some(Loaded(w))) else w
    case Lands(k) =>
      if k < |w.adrift| then w.(live := w.adrift[k], adrift := w.adrift[..k] + w.adrift[k + 1..]) else w
  }

  function Run(tiers: Tiers, w: World, actions: seq<Action>): World
    decreases |actions|
  {
    if actions == [] then w else Run(tiers, Next(tiers, w, actions[0]), actions[1..])
  }

  function Initial(live: Config): World {
    World(live, None, Idle, Unfinished, [])
  }

  // ---- The invariant ----

  /** Whatever is recorded names the config the run found, and only a marked file allows another one. */
  ghost predicate FileOk(start: Config, st: Saved) {
    && (st.atStart.Some? ==> st.atStart.value == start)
    && (st.restoreTo.Some? ==> st.atStart.Some? && st.restoreTo.value == start)
    && (st.inFlight.Some? ==> st.restoreTo.Some?)
  }

  ghost predicate Marked(w: World) {
    w.disk.Some? && w.disk.value.inFlight.Some?
  }

  /** What the running command has in hand agrees with the file. */
  ghost predicate ProcessOk(start: Config, w: World) {
    match w.process
    case Idle => true
    case Starting(_) => true
    case PreflightRead(seen) => seen == start || Loaded(w).atStart.Some?
    case CaptureLoaded(_, st) => w.disk == Some(st)
    case Saving(cmd, st) =>
      && !cmd.FinalCheck? && FileOk(start, st)
      && (w.disk.Some? && w.disk.value.atStart.Some? ==> st.atStart.Some?)
      && (if cmd.Restore? then st.inFlight.None? else Marked(w) ==> st.inFlight.Some?)
    case Writing(cmd, st, values) =>
      w.disk == Some(st) && st.atStart.Some? && (cmd.Restore? || cmd.Set?) &&
          (if cmd.Restore? then values == start else Marked(w))
    case RestoreWritten(st, target) => w.disk == Some(st) && target == start
    case FinalLoaded(st) => w.disk == Some(st)
  }

  /** What holds whenever writes land: the file names the config the run found, and no write precedes it. */
  ghost predicate FileInv(start: Config, w: World) {
    && (w.disk.Some? ==> FileOk(start, w.disk.value))
    && (Loaded(w).atStart.None? ==> w.live == start && w.adrift == [])
    && ProcessOk(start, w)
  }

  /** What holds as long as no write lands too late: another config than the found one is marked. */
  ghost predicate LiveInv(start: Config, w: World) {
    && (w.live != start ==> Marked(w))
    && (w.process.Saving? && w.live != start ==> w.process.st.inFlight.Some?)
    && (w.verdict == Passed(FinalCheck) ==>
          w.process.Idle? && w.live == start && !Marked(w) && Loaded(w).atStart == Some(start))
  }

  lemma FirstKeepsFile(tiers: Tiers, start: Config, w: World, cmd: Command, ioFails: bool)
    requires FileInv(start, w) && w.process == Starting(cmd)
    ensures FileInv(start, FirstStatement(tiers, w, cmd, ioFails)) &&
        FirstStatement(tiers, w, cmd, ioFails).disk == w.disk
  {
  }

  lemma StatementKeepsFile(tiers: Tiers, start: Config, w: World, ioFails: bool, write: Write)
    requires FileInv(start, w)
    ensures FileInv(start, NextStatement(tiers, w, ioFails, write))
    ensures Loaded(w).atStart.Some? ==> Loaded(NextStatement(tiers, w, ioFails, write)).atStart == Loaded(w).atStart
  {
    if w.process.Starting? {
      FirstKeepsFile(tiers, start, w, w.process.cmd, ioFails);
    }
    hide FirstStatement;
  }

  lemma StepKeepsFile(tiers: Tiers, start: Config, w: World, a: Action)
    requires FileInv(start, w)
    ensures FileInv(start, Next(tiers, w, a))
    ensures Loaded(w).atStart.Some? ==> Loaded(Next(tiers, w, a)).atStart == Loaded(w).atStart
  {
    if a.Statement? {
      StatementKeepsFile(tiers, start, w, a.ioFails, a.write);
    }
    hide NextStatement;
  }

  /** A write lands in time if the marker is still on disk and no restore has read the config back already. */
  predicate InTime(w: World) {
    w.disk.Some? && w.disk.value.inFlight.Some? && !(w.process.Saving? && w.process.cmd.Restore?)
  }

  /** The action is no write that lands too late, unless it lands the config the run found. */
  predicate Timely(start: Config, w: World, a: Action) {
    a.Lands? && a.k < |w.adrift| && w.adrift[a.k] != start ==> InTime(w)
  }

  lemma StepKeepsLive(tiers: Tiers, start: Config, w: World, a: Action)
    requires FileInv(start, w) && LiveInv(start, w) && Timely(start, w, a)
    ensures LiveInv(start, Next(tiers, w, a))
  {
  }

  /**
   The condition is exact: a write that lands too late leaves another config
   without a marker, at once or after the save that is due.
   */
  lemma LateWriteUnmarked(tiers: Tiers, start: Config, w: World, a: Action)
    requires FileInv(start, w) && !Timely(start, w, a)
    ensures var late := Next(tiers, w, a);
      var saved := Next(tiers, late, HEALTHY);
      (late.live != start && !Marked(late)) || (saved.live != start && !Marked(saved))
  {
  }

  /** No write of the run lands too late. */
  predicate AllTimely(tiers: Tiers, start: Config, w: World, actions: seq<Action>)
    decreases |actions|
  {
    actions == [] || (Timely(start, w, actions[0]) && AllTimely(tiers, start, Next(tiers, w, actions[0]), actions[1..]))
  }

  lemma {:induction false} RunKeepsFile(tiers: Tiers, start: Config, w: World, actions: seq<Action>)
    requires FileInv(start, w)
    ensures FileInv(start, Run(tiers, w, actions))
    ensures Loaded(w).atStart.Some? ==> Loaded(Run(tiers, w, actions)).atStart == Loaded(w).atStart
    decreases |actions|
  {
    hide FileInv, Next;
    if actions != [] {
      StepKeepsFile(tiers, start, w, actions[0]);
      RunKeepsFile(tiers, start, Next(tiers, w, actions[0]), actions[1..]);
    }
  }

  lemma {:induction false} RunKeepsLive(tiers: Tiers, start: Config, w: World, actions: seq<Action>)
    requires FileInv(start, w) && LiveInv(start, w) && AllTimely(tiers, start, w, actions)
    ensures LiveInv(start, Run(tiers, w, actions))
    decreases |actions|
  {
    hide FileInv, LiveInv, Next, Timely;
    if actions != [] {
      StepKeepsFile(tiers, start, w, actions[0]);
      StepKeepsLive(tiers, start, w, actions[0]);
      RunKeepsLive(tiers, start, Next(tiers, w, actions[0]), actions[1..]);
    }
  }

  lemma {:induction false} RunConcat(tiers: Tiers, w: World, first: seq<Action>, more: seq<Action>)
    ensures Run(tiers, w, first + more) == Run(tiers, Run(tiers, w, first), more)
    decreases |first|
  {
    if first == [] {
      assert first + more == more;
    } else {
      assert (first + more)[0] == first[0] && (first + more)[1..] == first[1..] + more;
      RunConcat(tiers, Next(tiers, w, first[0]), first[1..], more);
    }
  }

  // ---- What every run guarantees ----

  /** Whatever lands when: a recorded start value is the config the run found, and a saved restore target equals it. */
  lemma RecordedIsFound(tiers: Tiers, live: Config, actions: seq<Action>)
    ensures var w := Run(tiers, Initial(live), actions);
      && (Loaded(w).atStart.Some? ==> Loaded(w).atStart.value == live)
      && (Loaded(w).restoreTo.Some? ==> Loaded(w).restoreTo == Loaded(w).atStart)
  {
    RunKeepsFile(tiers, live, Initial(live), actions);
  }

  /**
   After any sequence of commands and faults in which no write lands too late,
   the live config differs from the one the run found only while the state file
   carries the in-flight marker, next to the restore target.
   */
  lemma LiveDiffersOnlyInFlight(tiers: Tiers, live: Config, actions: seq<Action>)
    requires AllTimely(tiers, live, Initial(live), actions)
    ensures var w := Run(tiers, Initial(live), actions);
      w.live != live ==> Marked(w) && Loaded(w).restoreTo == Some(live)
  {
    RunKeepsFile(tiers, live, Initial(live), actions);
    RunKeepsLive(tiers, live, Initial(live), actions);
  }

  /** Once stored, the start values never change. */
  lemma StartNeverChanges(tiers: Tiers, live: Config, actions: seq<Action>, more: seq<Action>)
    requires Loaded(Run(tiers, Initial(live), actions)).atStart.Some?
    ensures Loaded(Run(tiers, Initial(live), actions + more)).atStart ==
        Loaded(Run(tiers, Initial(live), actions)).atStart
  {
    RunConcat(tiers, Initial(live), actions, more);
    RunKeepsFile(tiers, live, Initial(live), actions);
    RunKeepsFile(tiers, live, Run(tiers, Initial(live), actions), more);
  }

  /** When a final check passes, the live config is the one the run found, with no marker left. */
  lemma FinalCheckSound(tiers: Tiers, live: Config, actions: seq<Action>, a: Action)
    requires var w := Run(tiers, Initial(live), actions);
      w.verdict != Passed(FinalCheck) && Next(tiers, w, a).verdict == Passed(FinalCheck)
    ensures var w := Next(tiers, Run(tiers, Initial(live), actions), a);
      w.live == live && !Marked(w) && Loaded(w).atStart == Some(live)
  {
    hide Next, Run, FileInv, Marked;
    assert FileInv(live, Initial(live)) by { FileInvAtStart(live); }
    RunKeepsFile(tiers, live, Initial(live), actions);
    PassedCheck(tiers, live, Run(tiers, Initial(live), actions), a);
  }

  lemma FileInvAtStart(live: Config)
    ensures FileInv(live, Initial(live))
  {
  }

  lemma PassedCheck(tiers: Tiers, start: Config, w: World, a: Action)
    requires FileInv(start, w) && w.verdict != Passed(FinalCheck) && Next(tiers, w, a).verdict == Passed(FinalCheck)
    ensures var w' := Next(tiers, w, a);
      w'.live == start && !Marked(w') && Loaded(w').atStart == Some(start)
  {
  }

  /** It stays so until a write lands too late or the next command begins. */
  lemma FinalCheckLasts(tiers: Tiers, live: Config, actions: seq<Action>)
    requires AllTimely(tiers, live, Initial(live), actions)
    requires Run(tiers, Initial(live), actions).verdict == Passed(FinalCheck)
    ensures var w := Run(tiers, Initial(live), actions); w.live == live && !Marked(w) && Loaded(w).atStart == Some(live)
  {
    RunKeepsLive(tiers, live, Initial(live), actions);
  }

  const HEALTHY := Statement(false, Sticks)
  const RECOVERY := [Killed, Begin(Restore), HEALTHY, HEALTHY, HEALTHY, HEALTHY, Begin(FinalCheck), HEALTHY, HEALTHY]

  /**
   Whatever happened before, once the start values are recorded a restore that
   meets no fault brings the config back, and the final check then passes.
   */
  lemma RestoreRecovers(tiers: Tiers, live: Config, actions: seq<Action>)
    requires Loaded(Run(tiers, Initial(live), actions)).atStart.Some?
    ensures var w := Run(tiers, Initial(live), actions + RECOVERY); w.live == live && w.verdict == Passed(FinalCheck)
  {
    RunConcat(tiers, Initial(live), actions, RECOVERY);
    RunKeepsFile(tiers, live, Initial(live), actions);
    var w := Run(tiers, Initial(live), actions);
    RestoreFrom(tiers, live, w);
  }

  lemma RestoreFrom(tiers: Tiers, start: Config, w: World)
    requires FileInv(start, w) && Loaded(w).atStart.Some?
    ensures Run(tiers, w, RECOVERY) ==
            World(start, Some(w.disk.value.(inFlight := None)), Idle, Passed(FinalCheck), w.adrift)
  {
    var st := w.disk.value;
    var w1 := Next(tiers, Next(tiers, w, Killed), Begin(Restore));
    var w2 := Next(tiers, w1, HEALTHY);
    assert w2.process == Writing(Restore, st, start);
    var w3 := Next(tiers, w2, HEALTHY);
    assert w3.process == RestoreWritten(st, start) && w3.live == start;
    var w4 := Next(tiers, Next(tiers, w3, HEALTHY), HEALTHY);
    assert w4 == World(start, Some(st.(inFlight := None)), Idle, Passed(Restore), w.adrift);
    var w5 := Next(tiers, Next(tiers, Next(tiers, w4, Begin(FinalCheck)), HEALTHY), HEALTHY);
    assert w5.verdict == Passed(FinalCheck);
    Unroll9(tiers, w, RECOVERY);
  }

  /**
   For example: vt-set gives up on its write, the restore is verified, the final
   check passes, and then the write lands. The tier's config is live, unmarked.
   */
  lemma LateWriteAfterRestore(tiers: Tiers, live: Config, tier: string)
    requires tier in tiers && tiers[tier] != live
    ensures var checked := Run(tiers, Run(tiers, Initial(live), UntilSet(tier)), RECOVERY);
      && checked.verdict == Passed(FinalCheck)
      && Next(tiers, checked, Lands(0)).live == tiers[tier] != live
      && !Marked(Next(tiers, checked, Lands(0)))
  {
    SetGivenUp(tiers, live, tier);
    var w := Run(tiers, Initial(live), UntilSet(tier));
    hide Run, UntilSet;
    RestoreFrom(tiers, live, w);
  }

  function UntilSet(tier: string): seq<Action> {
    [Begin(Preflight), HEALTHY, HEALTHY] + ([HEALTHY, Begin(Capture(tier)), HEALTHY] +
      ([HEALTHY, HEALTHY, Begin(Set(tier))] + [HEALTHY, Statement(false, GivenUp), OtherSave]))
  }

  lemma SetGivenUp(tiers: Tiers, live: Config, tier: string)
    requires tier in tiers
    ensures Run(tiers, Initial(live), UntilSet(tier)) ==
            World(live, Some(Saved(Some(live), Some(live), Some(tier))), Idle, Refused(Set(tier)), [tiers[tier]])
  {
    var w0 := Initial(live);
    var a, b := [Begin(Preflight), HEALTHY, HEALTHY], [HEALTHY, Begin(Capture(tier)), HEALTHY];
    var c, d := [HEALTHY, HEALTHY, Begin(Set(tier))], [HEALTHY, Statement(false, GivenUp), OtherSave];
    var found, marked := Saved(Some(live), None, None), Saved(Some(live), Some(live), Some(tier));
    var w1 := Next(tiers, Next(tiers, Next(tiers, w0, a[0]), a[1]), a[2]);
    assert w1 == World(live, None, Saving(Preflight, found), Unfinished, []);
    var w2 := Next(tiers, Next(tiers, Next(tiers, w1, b[0]), b[1]), b[2]);
    assert w2 == World(live, Some(found), CaptureLoaded(tier, found), Unfinished, []);
    var w3 := Next(tiers, Next(tiers, Next(tiers, w2, c[0]), c[1]), c[2]);
    assert w3 == World(live, Some(marked), Starting(Set(tier)), Unfinished, []);
    var w4 := Next(tiers, Next(tiers, Next(tiers, w3, d[0]), d[1]), d[2]);
    assert [] + [tiers[tier]] == [tiers[tier]];
    assert w4 == World(live, Some(marked), Idle, Refused(Set(tier)), [tiers[tier]]);
    hide Next, Run;
    Unroll3(tiers, w0, a);
    Unroll3(tiers, w1, b);
    Unroll3(tiers, w2, c);
    Unroll3(tiers, w3, d);
    RunConcat(tiers, w0, a, b + (c + d));
    RunConcat(tiers, w1, b, c + d);
    RunConcat(tiers, w2, c, d);
  }

  lemma Unroll9(tiers: Tiers, w: World, a: seq<Action>)
    requires |a| == 9
    ensures var w3 := Next(tiers, Next(tiers, Next(tiers, w, a[0]), a[1]), a[2]);
      var w6 := Next(tiers, Next(tiers, Next(tiers, w3, a[3]), a[4]), a[5]);
      Run(tiers, w, a) == Next(tiers, Next(tiers, Next(tiers, w6, a[6]), a[7]), a[8])
  {
    hide Next;
    RunConcat(tiers, w, a[..3], a[3..]);
    assert a == a[..3] + a[3..];
    var w3 := Run(tiers, w, a[..3]);
    RunConcat(tiers, w3, a[3..6], a[6..]);
    assert a[3..] == a[3..6] + a[6..];
    Unroll3(tiers, w, a[..3]);
    Unroll3(tiers, w3, a[3..6]);
    Unroll3(tiers, Run(tiers, w3, a[3..6]), a[6..]);
  }

  lemma Unroll3(tiers: Tiers, w: World, a: seq<Action>)
    requires |a| == 3
    ensures Run(tiers, w, a) == Next(tiers, Next(tiers, Next(tiers, w, a[0]), a[1]), a[2])
  {
    hide Next;
    var w1 := Next(tiers, w, a[0]);
    var w2 := Next(tiers, w1, a[1]);
    assert Run(tiers, w, a) == Run(tiers, w1, a[1..]) == Run(tiers, w2, a[1..][1..]);
    assert a[1..][1..] == [a[2]] && [a[2]][1..] == [];
    assert Run(tiers, w2, [a[2]]) == Run(tiers, Next(tiers, w2, a[2]), []);
  }
}
