/**
 Re-planning the ledger's waiters when the placement signature changes
 (cmd/datawatch/capacity_wiring.go; the waiters are those of
 internal/capacity/ledger.go). The pool ticker and every registry edit call the
 same closure, so several callers interleave: each reads the signature outside
 the lock, compares and records it inside, and re-plans afterwards, waiter by
 waiter. Meanwhile entries and nodes are edited, and waiters arrive, are
 refreshed by polls and releases, and leave.
 */
module Replan {
  import opened Basics
  import opened Placement
  import opened PlacementSignature
  import SignatureCollisions

  type Waiter = nat
  type Caller = nat

  /** What the resolver reads: the inference and the compute registry. */
  datatype World = World(reg: Registry, nodes: Nodes)

  function Sig(w: World): string {
    Signature(w.reg, w.nodes)
  }

  ghost predicate Sound(w: World) {
    DistinctNames(w.reg) && AllDelimited(w.reg)
  }

  /** A request planned in one world has the whole answer of the other: pools, node and choices. */
  predicate UpToDate(planned: World, now: World, backend: string, model: string) {
    Resolve(planned.reg, planned.nodes, backend, model) == Resolve(now.reg, now.nodes, backend, model)
  }

  // ---- The protocol ----

  datatype Phase =
    | Idle
    | Holding(sig: string, at: nat)     // has read the signature of world number `at`
    | Replanning(todo: set<Waiter>)     // has found a change; these waiters are still to be refreshed

  /** The number of the world a waiter was last planned in, and whether its request can be refreshed. */
  datatype Plan = Plan(at: nat, refreshes: bool)

  /**
   worlds is every world so far, the present one last. last is the recorded
   signature and since the number of the world it was read in when it last
   changed.
   */
  datatype State = State(
    worlds: seq<World>,
    last: string,
    since: nat,
    waiters: map<Waiter, Plan>,
    callers: map<Caller, Phase>)

  datatype Action =
    | Change(world: World)              // an entry or a node is edited
    | Arrive(w: Waiter, refreshes: bool)
    | Refresh(w: Waiter)                // by a poll or a release
    | Leave(w: Waiter)                  // granted, timed out or cancelled
    | Read(c: Caller)
    | Compare(c: Caller)
    | RefreshNext(c: Caller, w: Waiter) // one waiter of a caller's re-plan

  function Initial(w: World): State {
    State([w], Sig(w), 0, map[], map[])
  }

  function Now(s: State): nat
    requires s.worlds != []
  {
    |s.worlds| - 1
  }

  function PhaseOf(s: State, c: Caller): Phase {
    if c in s.callers then s.callers[c] else Idle
  }

  function Left(todo: set<Waiter>): Phase {
    if todo == {} then Idle else Replanning(todo)
  }

  /** A waiter is planned again, if its request can be refreshed. */
  function Refreshed(s: State, w: Waiter): State
    requires s.worlds != []
  {
    if w in s.waiters && s.waiters[w].refreshes then s.(waiters := s.waiters[w := Plan(Now(s), true)]) else s
  }

  function Apply(s: State, a: Action): (r: State)
    requires s.worlds != []
    ensures s.worlds <= r.worlds && (a.Change? || r.worlds == s.worlds)
  {
    match a
    case Change(world) => s.(worlds := s.worlds + [world])
    case Arrive(w, refreshes) => if w in s.waiters then s else s.(waiters := s.waiters[w := Plan(Now(s), refreshes)])
    case Refresh(w) => Refreshed(s, w)
    case Leave(w) => s.(waiters := s.waiters - {w})
    case Read(c) =>
      if PhaseOf(s, c).Idle? then s.(callers := s.callers[c := Holding(Sig(s.worlds[Now(s)]), Now(s))]) else s
    case Compare(c) =>
      (match PhaseOf(s, c)
       case Holding(sig, at) =>
         if sig == s.last then s.(callers := s.callers[c := Idle])
         else s.(last := sig, since := at, callers := s.callers[c := Left(s.waiters.Keys)])
       case _ => s)
    case RefreshNext(c, w) =>
      (match PhaseOf(s, c)
       case Replanning(todo) =>
         var s' := s.(callers := s.callers[c := Left(todo - {w})]);
         if w in todo then Refreshed(s', w) else s'
       case _ => s)
  }

  function Run(s: State, actions: seq<Action>): (r: State)
    requires s.worlds != []
    ensures r.worlds != []
    decreases |actions|
  {
    if actions == [] then s else Run(Apply(s, actions[0]), actions[1..])
  }

  ghost predicate AllSound(actions: seq<Action>) {
    forall a :: a in actions && a.Change? ==> Sound(a.world)
  }

  // ---- The invariant ----

  /** Some caller's re-plan has yet to reach the waiter. */
  ghost predicate Awaited(s: State, w: Waiter) {
    exists c :: c in s.callers && s.callers[c].Replanning? && w in s.callers[c].todo
  }

  /** The waiter was planned under the recorded signature, or after the world that one was read in. */
  ghost predicate Settled(s: State, w: Waiter)
    requires w in s.waiters && s.waiters[w].at < |s.worlds|
  {
    Sig(s.worlds[s.waiters[w].at]) == s.last || s.waiters[w].at > s.since
  }

  ghost predicate PlanOk(s: State, w: Waiter)
    requires w in s.waiters
  {
    s.waiters[w].at < |s.worlds| && (s.waiters[w].refreshes ==> Settled(s, w) || Awaited(s, w))
  }

  ghost predicate PhaseOk(s: State, c: Caller)
    requires c in s.callers
  {
    s.callers[c].Holding? ==> s.callers[c].at < |s.worlds| && s.callers[c].sig == Sig(s.worlds[s.callers[c].at])
  }

  ghost predicate Inv(s: State) {
    && s.worlds != [] && (forall i :: 0 <= i < |s.worlds| ==> Sound(s.worlds[i]))
    && s.since < |s.worlds| && s.last == Sig(s.worlds[s.since])
    && (forall c :: c in s.callers ==> PhaseOk(s, c))
    && (forall w :: w in s.waiters ==> PlanOk(s, w))
  }

  /** A re-plan by another caller, or one of this caller's that goes on, still reaches the waiter. */
  lemma StillAwaited(s: State, s': State, w: Waiter)
    requires Awaited(s, w)
    requires forall c :: c in s.callers && s.callers[c].Replanning? && w in s.callers[c].todo ==>
               c in s'.callers && s'.callers[c].Replanning? && w in s'.callers[c].todo
    ensures Awaited(s', w)
  {
  }

  lemma CompareKeepsInv(s: State, c: Caller)
    requires Inv(s)
    ensures Inv(Apply(s, Compare(c)))
  {
    hide Sig, Sound;
    var s' := Apply(s, Compare(c));
    if PhaseOf(s, c).Holding? {
      assert PhaseOk(s, c);
      forall w | w in s'.waiters ensures PlanOk(s', w) {
        assert PlanOk(s, w);
        if s'.callers[c].Replanning? {
          assert w in s'.callers[c].todo;
        } else if Awaited(s, w) {
          StillAwaited(s, s', w);
        }
      }
      assert forall d :: d in s'.callers && d != c ==> PhaseOk(s, d);
    }
  }

  lemma RefreshNextKeepsInv(s: State, c: Caller, w: Waiter)
    requires Inv(s)
    ensures Inv(Apply(s, RefreshNext(c, w)))
  {
    hide Sig, Sound;
    var s' := Apply(s, RefreshNext(c, w));
    if PhaseOf(s, c).Replanning? {
      var todo := PhaseOf(s, c).todo;
      assert forall v :: v in todo - {w} ==> s'.callers[c] == Replanning(todo - {w});
      forall v | v in s'.waiters ensures PlanOk(s', v) {
        assert PlanOk(s, v);
        if (v != w || w !in todo) && Awaited(s, v) {
          StillAwaited(s, s', v);
        }
      }
      assert forall d :: d in s'.callers && d != c ==> PhaseOk(s, d);
    }
  }

  lemma StepKeepsInv(s: State, a: Action)
    requires Inv(s) && (a.Change? ==> Sound(a.world))
    ensures Inv(Apply(s, a))
  {
    hide Sig, Sound;
    var s' := Apply(s, a);
    match a
    case Compare(c) => CompareKeepsInv(s, c);
    case RefreshNext(c, w) => RefreshNextKeepsInv(s, c, w);
    case _ =>
      assert forall d :: d in s.callers ==> PhaseOk(s, d);
      forall v | v in s'.waiters ensures PlanOk(s', v) {
        assert v in s.waiters ==> PlanOk(s, v);
        if v in s.waiters && Awaited(s, v) {
          StillAwaited(s, s', v);
        }
      }
  }

  lemma {:induction false} RunKeepsInv(s: State, actions: seq<Action>)
    requires Inv(s) && AllSound(actions)
    ensures Inv(Run(s, actions))
    decreases |actions|
  {
    hide Apply, Sound, PhaseOk, PlanOk;
    if actions != [] {
      assert actions[0] in actions;
      StepKeepsInv(s, actions[0]);
      RunKeepsInv(Apply(s, actions[0]), actions[1..]);
    }
  }

  // ---- What every interleaving guarantees ----

  /** The two worlds agree on whether there is an entry named backend. */
  predicate Named(a: World, b: World, backend: string) {
    SameNamed(a.reg, b.reg, backend)
  }

  lemma SameSigUpToDate(a: World, b: World, backend: string, model: string)
    requires Sound(a) && Sound(b) && Sig(a) == Sig(b)
    ensures UpToDate(a, b, backend, model) <==> Named(a, b, backend)
  {
    SameSignatureSameAnswer(a.reg, a.nodes, b.reg, b.nodes, backend, model);
  }

  /**
   After any run, take a waiter whose request can be refreshed, that no re-plan
   has yet to reach, while the recorded signature is that of the present world.
   Planned under that signature, it is up to date exactly if there was an entry
   named as its backend then just as there is now. Otherwise it was refreshed in
   a world with another signature, which came after the recorded one was read
   and is gone again. So as long as the signature has not left the recorded one
   since, the entry of its name alone decides.
   */
  lemma StaleOnlyAfterReturn(start: World, actions: seq<Action>, w: Waiter, backend: string, model: string)
    requires Sound(start) && AllSound(actions)
    requires var s := Run(Initial(start), actions);
      w in s.waiters && s.waiters[w].refreshes && !Awaited(s, w) && Sig(s.worlds[Now(s)]) == s.last
    ensures var s := Run(Initial(start), actions);
      s.waiters[w].at < |s.worlds| &&
      var planned, now := s.worlds[s.waiters[w].at], s.worlds[Now(s)];
      && (Sig(planned) == s.last ==> (UpToDate(planned, now, backend, model) <==> Named(planned, now, backend)))
      && (Sig(planned) != s.last ==> s.since < s.waiters[w].at < Now(s))
      && ((forall k :: s.since < k < |s.worlds| ==> Sig(s.worlds[k]) == s.last) ==>
            (UpToDate(planned, now, backend, model) <==> Named(planned, now, backend)))
  {
    assert Inv(Initial(start)) by { hide Sig, Sound; }
    hide Sig, UpToDate, Named, Sound, AllSound, Inv, Run, Settled, Awaited;
    RunKeepsInv(Initial(start), actions);
    StaleWaiter(Run(Initial(start), actions), w, backend, model);
  }

  lemma StaleWaiter(s: State, w: Waiter, backend: string, model: string)
    requires Inv(s) && w in s.waiters && s.waiters[w].refreshes && !Awaited(s, w) && Sig(s.worlds[Now(s)]) == s.last
    ensures s.waiters[w].at < |s.worlds|
    ensures var planned, now := s.worlds[s.waiters[w].at], s.worlds[Now(s)];
      && (Sig(planned) == s.last ==> (UpToDate(planned, now, backend, model) <==> Named(planned, now, backend)))
      && (Sig(planned) != s.last ==> s.since < s.waiters[w].at < Now(s))
  {
    hide Sig, UpToDate, Named, Sound, Awaited, PhaseOk;
    assert PlanOk(s, w);
    if Sig(s.worlds[s.waiters[w].at]) == s.last {
      SameSigUpToDate(s.worlds[s.waiters[w].at], s.worlds[Now(s)], backend, model);
    }
  }

  /** A waiter whose request cannot be refreshed keeps the plan it came with as long as it waits. */
  lemma {:induction false} NeverReplanned(s: State, actions: seq<Action>, w: Waiter)
    requires s.worlds != [] && w in s.waiters && !s.waiters[w].refreshes
    requires forall a :: a in actions ==> a != Leave(w)
    ensures w in Run(s, actions).waiters && Run(s, actions).waiters[w] == s.waiters[w]
    decreases |actions|
  {
    if actions != [] {
      var a := actions[0];
      assert a in actions;
      PlanKept(s, a, w);
      hide Apply;
      assert forall b :: b in actions[1..] ==> b in actions;
      NeverReplanned(Apply(s, a), actions[1..], w);
    }
  }

  lemma PlanKept(s: State, a: Action, w: Waiter)
    requires s.worlds != [] && w in s.waiters && !s.waiters[w].refreshes && a != Leave(w)
    ensures w in Apply(s, a).waiters && Apply(s, a).waiters[w] == s.waiters[w]
  {
    hide Sig;
  }

  /** Of the waiters that can be refreshed, only those c's re-plan has not reached may be planned in an older world. */
  ghost predicate Reached(s: State, c: Caller) {
    s.worlds != [] &&
    forall w :: w in s.waiters && s.waiters[w].refreshes ==>
      s.waiters[w].at == Now(s) || (PhaseOf(s, c).Replanning? && w in PhaseOf(s, c).todo)
  }

  lemma {:induction false} ReachedStays(s: State, c: Caller, actions: seq<Action>)
    requires Reached(s, c) && forall a :: a in actions ==> !a.Change?
    ensures Reached(Run(s, actions), c)
    decreases |actions|
  {
    if actions != [] {
      var a := actions[0];
      assert a in actions;
      hide Apply, Reached;
      ReachedStep(s, c, a);
      ReachedStays(Apply(s, a), c, actions[1..]);
    }
  }

  lemma ReachedStep(s: State, c: Caller, a: Action)
    requires Reached(s, c) && !a.Change?
    ensures Reached(Apply(s, a), c)
  {
    hide Sig;
    match a
    case RefreshNext(d, w) =>
      var s', todo := Apply(s, a), if PhaseOf(s, d).Replanning? then PhaseOf(s, d).todo else {};
      assert forall v :: v in todo - {w} ==> Left(todo - {w}) == Replanning(todo - {w});
    case Compare(d) =>
      assert forall v :: v in s.waiters ==> Left(s.waiters.Keys) == Replanning(s.waiters.Keys);
    case _ =>
  }

  /**
   A caller that finds a change re-plans: whatever the other callers and waiters
   do, as long as nothing is edited, once it is done every waiter whose request
   can be refreshed has been planned in the present world.
   */
  lemma ChangeReachesEveryWaiter(s: State, c: Caller, actions: seq<Action>)
    requires s.worlds != [] && PhaseOf(s, c).Holding? && PhaseOf(s, c).sig != s.last
    requires forall a :: a in actions ==> !a.Change?
    ensures var s' := Run(Apply(s, Compare(c)), actions);
      !PhaseOf(s', c).Replanning? ==>
        forall w :: w in s'.waiters && s'.waiters[w].refreshes ==> s'.waiters[w].at == Now(s')
  {
    ReachedStays(Apply(s, Compare(c)), c, actions);
  }

  // ---- How a waiter goes stale ----

  lemma RunStep(s: State, a: Action, rest: seq<Action>)
    requires s.worlds != []
    ensures Run(s, [a] + rest) == Run(Apply(s, a), rest)
  {
    hide Apply;
    assert ([a] + rest)[1..] == rest;
  }

  lemma RunNothing(s: State)
    requires s.worlds != []
    ensures Run(s, []) == s
  {
  }

  /** The world changes and changes back between two calls; in between a waiter is planned. */
  function ThereAndBack(here: World, there: World): seq<Action> {
    [Change(there)] + ([Arrive(0, true)] + ([Change(here)] + ([Read(0)] + ([Compare(0)] + []))))
  }

  /**
   The call finds the signature as recorded and re-plans nothing, so the waiter
   stays on the candidates of the world in between.
   */
  lemma ReturnIsNotSeen(here: World, there: World)
    ensures Run(Initial(here), ThereAndBack(here, there)) ==
            State([here, there, here], Sig(here), 0, map[0 := Plan(1, true)], map[0 := Idle])
  {
    hide Sig;
    var s0 := Initial(here);
    var s1 := Apply(s0, Change(there));
    var s2 := Apply(s1, Arrive(0, true));
    var s3 := Apply(s2, Change(here));
    assert s3 == State([here, there, here], Sig(here), 0, map[0 := Plan(1, true)], map[]);
    var s4 := Apply(s3, Read(0));
    assert s4 == s3.(callers := map[0 := Holding(Sig(here), 2)]);
    var s5 := Apply(s4, Compare(0));
    assert s5 == s3.(callers := map[0 := Idle]);
    hide Apply;
    RunStep(s0, Change(there), [Arrive(0, true)] + ([Change(here)] + ([Read(0)] + ([Compare(0)] + []))));
    RunStep(s1, Arrive(0, true), [Change(here)] + ([Read(0)] + ([Compare(0)] + [])));
    RunStep(s2, Change(here), [Read(0)] + ([Compare(0)] + []));
    RunStep(s3, Read(0), [Compare(0)] + []);
    RunStep(s4, Compare(0), []);
    RunNothing(s5);
  }

  /** Two callers overlap on one change: the one that read first compares last. */
  function Overlap(there: World): seq<Action> {
    [Arrive(0, true)] + ([Read(0)] + ([Change(there)] + ([Read(1)] + ([Compare(1)] + ([RefreshNext(1, 0)] +
      ([Compare(0)] + ([RefreshNext(0, 0)] + [])))))))
  }

  /** The late caller records the old signature over the new one, although the waiter is planned in the new world. */
  lemma LateCallerRecordsOldSignature(here: World, there: World)
    requires Sig(here) != Sig(there)
    ensures Run(Initial(here), Overlap(there)) ==
            State([here, there], Sig(here), 0, map[0 := Plan(1, true)], map[0 := Idle, 1 := Idle])
  {
    hide Sig;
    var s0 := Initial(here);
    var s1 := Apply(s0, Arrive(0, true));
    var s2 := Apply(s1, Read(0));
    assert s2 == State([here], Sig(here), 0, map[0 := Plan(0, true)], map[0 := Holding(Sig(here), 0)]);
    var s3 := Apply(s2, Change(there));
    var s4 := Apply(s3, Read(1));
    assert s4 == State([here, there], Sig(here), 0, map[0 := Plan(0, true)],
        map[0 := Holding(Sig(here), 0), 1 := Holding(Sig(there), 1)]);
    assert s4.waiters.Keys == {0};
    var s5 := Apply(s4, Compare(1));
    assert s5 == State([here, there], Sig(there), 1, map[0 := Plan(0, true)],
        map[0 := Holding(Sig(here), 0), 1 := Replanning({0})]);
    var s6 := Apply(s5, RefreshNext(1, 0));
    assert {0} - {0} == {};
    assert s6 == State([here, there], Sig(there), 1, map[0 := Plan(1, true)],
        map[0 := Holding(Sig(here), 0), 1 := Idle]);
    assert s6.waiters.Keys == {0};
    var s7 := Apply(s6, Compare(0));
    assert s7 == State([here, there], Sig(here), 0, map[0 := Plan(1, true)], map[0 := Replanning({0}), 1 := Idle]);
    var s8 := Apply(s7, RefreshNext(0, 0));
    assert s8 == State([here, there], Sig(here), 0, map[0 := Plan(1, true)], map[0 := Idle, 1 := Idle]);
    hide Apply;
    var t8: seq<Action> := [];
    var t7 := [RefreshNext(0, 0)] + t8;
    var t6 := [Compare(0)] + t7;
    var t5 := [RefreshNext(1, 0)] + t6;
    var t4 := [Compare(1)] + t5;
    var t3 := [Read(1)] + t4;
    RunStep(s0, Arrive(0, true), [Read(0)] + ([Change(there)] + t3));
    RunStep(s1, Read(0), [Change(there)] + t3);
    RunStep(s2, Change(there), t3);
    RunStep(s3, Read(1), t4);
    RunStep(s4, Compare(1), t5);
    RunStep(s5, RefreshNext(1, 0), t6);
    RunStep(s6, Compare(0), t7);
    RunStep(s7, RefreshNext(0, 0), t8);
    RunNothing(s8);
  }

  /** So when the world changes back, the next call sees no change and the waiter stays behind. */
  lemma OldSignatureHidesReturn(here: World, there: World)
    ensures var s := State([here, there], Sig(here), 0, map[0 := Plan(1, true)], map[0 := Idle, 1 := Idle]);
      Run(s, [Change(here)] + ([Read(0)] + ([Compare(0)] + []))) == s.(worlds := [here, there, here])
  {
    hide Sig;
    var s0 := State([here, there], Sig(here), 0, map[0 := Plan(1, true)], map[0 := Idle, 1 := Idle]);
    var s1 := Apply(s0, Change(here));
    assert s1 == s0.(worlds := [here, there, here]);
    var s2 := Apply(s1, Read(0));
    assert s2 == s1.(callers := map[0 := Holding(Sig(here), 2), 1 := Idle]);
    var s3 := Apply(s2, Compare(0));
    assert s3 == s1;
    hide Apply;
    RunStep(s0, Change(here), [Read(0)] + ([Compare(0)] + []));
    RunStep(s1, Read(0), [Compare(0)] + []);
    RunStep(s2, Compare(0), []);
    RunNothing(s3);
  }

  const ENTRY := Llm("e", "ollama", ["a", "b"], [])

  /** Two nodes, the first at priority p. */
  function Prioritised(p: int): World {
    World([ENTRY], map["a" := p, "b" := 1])
  }

  /**
   For example: node a's priority goes from 1 to 2 and back, and a waiter is
   refreshed in between. The next call leaves it with priority 2.
   */
  lemma PriorityThereAndBack()
    ensures Sound(Prioritised(1)) && Sound(Prioritised(2))
    ensures var s := Run(Initial(Prioritised(1)), ThereAndBack(Prioritised(1), Prioritised(2)));
      && s.worlds == [Prioritised(1), Prioritised(2), Prioritised(1)]
      && s.callers == map[0 := Idle] && s.waiters == map[0 := Plan(1, true)]
    ensures !UpToDate(Prioritised(2), Prioritised(1), SignatureCollisions.KIND, SignatureCollisions.MODEL)
  {
    ReturnIsNotSeen(Prioritised(1), Prioritised(2));
    hide Run, ThereAndBack, Initial, UpToDate, Prioritised;
    PrioritiesDiffer();
  }

  lemma PrioritiesDiffer()
    ensures Sound(Prioritised(1)) && Sound(Prioritised(2))
    ensures !UpToDate(Prioritised(2), Prioritised(1), SignatureCollisions.KIND, SignatureCollisions.MODEL)
  {
    assert Sound(Prioritised(1)) && Sound(Prioritised(2));
    assert Serves(ENTRY, "a", SignatureCollisions.MODEL) && Serves(ENTRY, "b", SignatureCollisions.MODEL);
    var m, n := Prioritised(1).nodes, Prioritised(2).nodes;
    assert Priority(m, "a") == Some(1) && Priority(m, "b") == Some(1);
    assert Priority(n, "a") == Some(2) && Priority(n, "b") == Some(1);
    hide Resolve, Serves, Sound, Priority;
    SignatureCollisions.ChoicesOf(ENTRY, m, 1, 1);
    SignatureCollisions.ChoicesOf(ENTRY, n, 2, 1);
    var one := Resolve([ENTRY], m, SignatureCollisions.KIND, SignatureCollisions.MODEL);
    var two := Resolve([ENTRY], n, SignatureCollisions.KIND, SignatureCollisions.MODEL);
    assert one.choices[0] == PoolNode("a", 1) && two.choices[0] == PoolNode("a", 2);
  }

  // ---- A change the signature does not show ----

  /** The world changes, but not its signature, and a call compares. */
  function Unseen(there: World): seq<Action> {
    [Arrive(0, true)] + ([Change(there)] + ([Read(0)] + ([Compare(0)] + [])))
  }

  lemma UnseenChange(here: World, there: World)
    requires Sig(here) == Sig(there)
    ensures Run(Initial(here), Unseen(there)) ==
            State([here, there], Sig(here), 0, map[0 := Plan(0, true)], map[0 := Idle])
  {
    hide Sig;
    var s0 := Initial(here);
    var s1 := Apply(s0, Arrive(0, true));
    var s2 := Apply(s1, Change(there));
    var s3 := Apply(s2, Read(0));
    var plans := map[0 := Plan(0, true)];
    assert s3 == State([here, there], Sig(here), 0, plans, map[0 := Holding(Sig(there), 1)]);
    var s4 := Apply(s3, Compare(0));
    assert s4 == State([here, there], Sig(here), 0, plans, map[0 := Idle]);
    hide Apply;
    RunStep(s0, Arrive(0, true), [Change(there)] + ([Read(0)] + ([Compare(0)] + [])));
    RunStep(s1, Change(there), [Read(0)] + ([Compare(0)] + []));
    RunStep(s2, Read(0), [Compare(0)] + []);
    RunStep(s3, Compare(0), []);
    RunNothing(s4);
  }

  const NO_ENTRY := World([], map[])
  const PLAIN_ENTRY := World([Llm("claude-code", "claude-code", [], [])], map[])

  /**
   For example: an entry without compute nodes is added while a request for its
   backend waits. The signature stays empty, so the call re-plans nothing and
   the request does not take the pool of the entry.
   */
  lemma PlainEntryUnseen(model: string)
    ensures Sound(NO_ENTRY) && Sound(PLAIN_ENTRY)
    ensures Run(Initial(NO_ENTRY), Unseen(PLAIN_ENTRY)) ==
            State([NO_ENTRY, PLAIN_ENTRY], "", 0, map[0 := Plan(0, true)], map[0 := Idle])
    ensures !UpToDate(NO_ENTRY, PLAIN_ENTRY, "claude-code", model)
  {
    var reg := PLAIN_ENTRY.reg;
    assert reg[1..] == [];
    assert Sig(NO_ENTRY) == Sig(PLAIN_ENTRY) == "";
    UnseenChange(NO_ENTRY, PLAIN_ENTRY);
    assert Get(reg, "claude-code").Some? && Get([], "claude-code") == None;
    hide Run, Unseen, Resolve, Get, Initial;
    SameSigUpToDate(NO_ENTRY, PLAIN_ENTRY, "claude-code", model);
  }
}
