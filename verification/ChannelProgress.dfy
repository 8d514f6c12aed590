/**
 That the bridge's hand-off comes to rest (cmd/datawatch-channel/main.go): while
 any thread has statements left some thread can move, every move is one less to
 make, and a schedule that lets every thread run in turn finishes them all.
 */
module ChannelProgress {
  import opened Basics
  import opened ChannelBridge

  // ---- What is left to do ----

  /** The statements a thread has left, with one send for every message it still holds. */
  function Left(pc: Pc): nat {
    match pc
    case HStart => 5
    case HLocked => 4
    case HRead(_) => 3
    case HAppended => 1
    case HSend => 1
    case HDone => 0
    case DStart => 6
    case DLocked => 5
    case DFlagged => 4
    case DTaken(_) => 3
    case DCleared(m) => 1 + |m|
    case DSend(m) => |m|
  }

  ghost function Total(threads: map<Tid, Pc>): nat {
    if exists t :: t in threads then
      var t :| t in threads;
      Left(threads[t]) + Total(threads - {t})
    else 0
  }

  /** What all threads have left, and a send for every message in the buffer. */
  ghost function Measure(s: State): nat {
    Total(s.threads) + |s.pending|
  }

  lemma {:induction false} TotalWithout(threads: map<Tid, Pc>, t: Tid)
    requires t in threads
    ensures Total(threads) == Left(threads[t]) + Total(threads - {t})
    decreases threads.Keys
  {
    var u :| u in threads && Total(threads) == Left(threads[u]) + Total(threads - {u});
    if u != t {
      assert (threads - {u}).Keys < threads.Keys && (threads - {t}).Keys < threads.Keys;
      TotalWithout(threads - {u}, t);
      TotalWithout(threads - {t}, u);
      assert threads - {u} - {t} == threads - {t} - {u};
    }
  }

  lemma TotalUpdate(threads: map<Tid, Pc>, t: Tid, pc: Pc)
    requires t in threads
    ensures Total(threads[t := pc]) == Total(threads) - Left(threads[t]) + Left(pc)
  {
    TotalWithout(threads, t);
    TotalWithout(threads[t := pc], t);
    assert threads[t := pc] - {t} == threads - {t};
  }

  // ---- Some thread can move, and a move is one less ----

  predicate CanMove(s: State, t: Tid) {
    t in s.threads && Advance(s, t) != s
  }

  /** As long as a thread has statements left, some thread is not blocked. */
  lemma SomeThreadMoves(s: State)
    requires Inv(s) && !Quiescent(s)
    ensures exists t :: CanMove(s, t)
  {
    hide SomeFlagged, PlacesInv, OrderInv;
    var t :| t in s.threads && s.threads[t] != HDone && s.threads[t] != DSend([]);
    assert ThreadOk(s, t);
    if s.owner.Some? {
      assert ThreadOk(s, s.owner.value);
      OwnerMoves(s, s.owner.value);
    } else {
      FreeMoves(s, t);
    }
  }

  /** A thread inside the critical section is never blocked. */
  lemma OwnerMoves(s: State, t: Tid)
    requires t in s.threads && InCriticalSection(s.threads[t])
    ensures CanMove(s, t)
  {
    assert Advance(s, t).threads[t] != s.threads[t];
  }

  /** With the lock free a thread with a statement left can run it. */
  lemma FreeMoves(s: State, t: Tid)
    requires t in s.threads && s.owner.None? && s.threads[t] != HDone && s.threads[t] != DSend([])
    ensures CanMove(s, t)
  {
    if s.threads[t].DSend? {
      assert |s.threads[t].left[1..]| < |s.threads[t].left|;
    }
    assert Advance(s, t).threads[t] != s.threads[t];
  }

  lemma MoveFalls(s: State, t: Tid)
    requires LockInv(s) && CanMove(s, t)
    ensures Measure(Advance(s, t)) < Measure(s)
  {
    hide LockInv, Advance, Total;
    OneLess(s, t);
    TotalUpdate(s.threads, t, Advance(s, t).threads[t]);
  }

  /** A move changes one thread, and takes one from what it and the buffer have left. */
  lemma OneLess(s: State, t: Tid)
    requires LockInv(s) && CanMove(s, t)
    ensures var s' := Advance(s, t);
      && t in s'.threads && s'.threads == s.threads[t := s'.threads[t]]
      && Left(s'.threads[t]) + |s'.pending| < Left(s.threads[t]) + |s.pending|
  {
    assert ThreadOk(s, t);
    hide LockInv;
  }

  // ---- Every fair schedule finishes ----

  predicate OnlyRuns(actions: seq<Action>) {
    forall a :: a in actions ==> a.Run?
  }

  lemma RunStep(s: State, a: Action)
    requires Inv(s) && a.Run?
    ensures var s' := Apply(s, a);
      Inv(s') && s'.threads.Keys == s.threads.Keys && (s' == s || Measure(s') < Measure(s))
  {
    StepKeepsInv(s, a);
    if a.t in s.threads {
      SameThreads(s, a.t);
      hide Advance, Measure, LockInv, PlacesInv, OrderInv;
      if CanMove(s, a.t) {
        assert LockInv(s);
        MoveFalls(s, a.t);
      }
    }
  }

  /** No schedule of the threads at hand makes more moves than the measure. */
  lemma {:induction false} NeverRises(s: State, actions: seq<Action>)
    requires Inv(s) && OnlyRuns(actions)
    ensures var s' := RunAll(s, actions);
      Inv(s') && s'.threads.Keys == s.threads.Keys && (s' == s || Measure(s') < Measure(s))
    decreases |actions|
  {
    hide Inv, Apply, Measure;
    if actions != [] {
      assert actions[0] in actions && OnlyRuns(actions[1..]);
      RunStep(s, actions[0]);
      NeverRises(Apply(s, actions[0]), actions[1..]);
    }
  }

  /** If a thread that can move is scheduled, something moves. */
  lemma {:induction false} ScheduledMoves(s: State, actions: seq<Action>, t: Tid)
    requires Inv(s) && OnlyRuns(actions) && Run(t) in actions && CanMove(s, t)
    ensures Measure(RunAll(s, actions)) < Measure(s)
    decreases |actions|
  {
    hide Inv, Measure;
    assert actions[0] in actions && OnlyRuns(actions[1..]) && actions == [actions[0]] + actions[1..];
    RunStep(s, actions[0]);
    if Apply(s, actions[0]) == s {
      hide Advance;
      ScheduledMoves(s, actions[1..], t);
    } else {
      NeverRises(Apply(s, actions[0]), actions[1..]);
    }
  }

  /** Every thread is scheduled at least once. */
  ghost predicate IsRound(s: State, actions: seq<Action>) {
    OnlyRuns(actions) && forall t :: t in s.threads ==> Run(t) in actions
  }

  function RunRounds(s: State, rounds: seq<seq<Action>>): State
    decreases |rounds|
  {
    if rounds == [] then s else RunRounds(RunAll(s, rounds[0]), rounds[1..])
  }

  /**
   Let every thread run in every round, in any order and however often: after as
   many rounds as there was left to do, every thread is done.
   */
  lemma {:induction false} FairRoundsFinish(s: State, rounds: seq<seq<Action>>)
    requires Inv(s) && (forall r :: r in rounds ==> IsRound(s, r)) && |rounds| >= Measure(s)
    ensures Inv(RunRounds(s, rounds)) && Quiescent(RunRounds(s, rounds))
    decreases |rounds|
  {
    hide Inv, Measure, Quiescent, RunAll, CanMove;
    if rounds == [] {
      NothingLeft(s);
    } else {
      var r := rounds[0];
      assert r in rounds && forall q :: q in rounds[1..] ==> q in rounds;
      NeverRises(s, r);
      var s' := RunAll(s, r);
      if Quiescent(s) {
        AtRest(s, rounds);
      } else {
        SomeThreadMoves(s);
        var t :| CanMove(s, t);
        assert t in s.threads by { Present(s, t); }
        ScheduledMoves(s, r, t);
        FairRoundsFinish(s', rounds[1..]);
      }
    }
  }

  lemma Present(s: State, t: Tid)
    requires CanMove(s, t)
    ensures t in s.threads
  {
  }

  lemma NothingLeft(s: State)
    requires Inv(s) && Measure(s) == 0
    ensures Quiescent(s)
  {
    hide Inv, Measure;
    if !Quiescent(s) {
      SomeThreadMoves(s);
      var t :| CanMove(s, t);
      RunStep(s, Run(t));
    }
  }

  /** Threads that are done stay as they are. */
  lemma {:induction false} AtRest(s: State, rounds: seq<seq<Action>>)
    requires Inv(s) && Quiescent(s) && forall r :: r in rounds ==> OnlyRuns(r)
    ensures RunRounds(s, rounds) == s
    decreases |rounds|
  {
    if rounds != [] {
      assert rounds[0] in rounds && forall q :: q in rounds[1..] ==> q in rounds;
      RestStays(s, rounds[0]);
      hide Inv, Quiescent, RunAll;
      AtRest(s, rounds[1..]);
    }
  }

  lemma {:induction false} RestStays(s: State, actions: seq<Action>)
    requires Quiescent(s) && OnlyRuns(actions)
    ensures RunAll(s, actions) == s
    decreases |actions|
  {
    if actions != [] {
      assert actions[0] in actions && OnlyRuns(actions[1..]);
      assert Apply(s, actions[0]) == s;
      RestStays(s, actions[1..]);
    }
  }

  /**
   From any interleaving whatever, letting every thread run in turn brings the
   bridge to rest, with every message delivered exactly once or, when no drain
   has run, all of them still buffered.
   */
  lemma FairRunsDeliver(actions: seq<Action>, rounds: seq<seq<Action>>)
    requires var s := RunAll(INIT, actions);
      (forall r :: r in rounds ==> IsRound(s, r)) && |rounds| >= Measure(s)
    ensures Quiescent(RunRounds(RunAll(INIT, actions), rounds)) && Delivered(RunRounds(RunAll(INIT, actions), rounds))
  {
    assert Inv(INIT);
    hide *;
    RunKeepsInv(INIT, actions);
    FairRoundsFinish(RunAll(INIT, actions), rounds);
    QuiescentDelivery(RunRounds(RunAll(INIT, actions), rounds));
  }
}
