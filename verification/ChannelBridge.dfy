/**
 The channel bridge's buffer-until-ready hand-off (cmd/datawatch-channel/main.go)
 as a state machine: any number of /send handlers and after-initialize drains,
 interleaved one statement at a time. Only taskMu keeps them apart.

 A handler's thread id stands for the one message it carries, so two messages
 with the same content are still two deliveries.
 */
module ChannelBridge {
  import opened Basics

  type Tid = nat

  /** Where a thread is. Handlers (H) and drains (D) each run their statements in this order. */
  datatype Pc =
    | HStart                            // request decoded, lock not taken
    | HLocked                           // holds taskMu
    | HRead(wasReady: bool)             // has read mcpClientReady
    | HAppended                         // has appended its message to pending
    | HSend                             // lock released, about to send directly
    | HDone
    | DStart                            // the delayed goroutine, lock not taken
    | DLocked
    | DFlagged                          // has set mcpClientReady
    | DTaken(copied: seq<Tid>)          // has copied pending
    | DCleared(held: seq<Tid>)          // has set pending to nil
    | DSend(left: seq<Tid>)             // lock released, messages still to send

  datatype State = State(
    owner: Option<Tid>,                 // who holds taskMu
    ready: bool,                        // mcpClientReady
    pending: seq<Tid>,
    threads: map<Tid, Pc>,
    sent: seq<Tid>,                     // notifications sent, in order
    // History, read by no step:
    buffered: seq<Tid>,                 // messages ever appended to pending, in arrival order
    carrier: Option<Tid>)               // the first drain that cleared pending

  const INIT := State(None, false, [], map[], [], [], None)

  datatype Action = NewHandler(t: Tid) | NewDrain(t: Tid) | Run(t: Tid)

  function Goto(s: State, t: Tid, pc: Pc): State {
    s.(threads := s.threads[t := pc])
  }

  /** One statement of thread t. A thread that waits for the lock, or is done, does not move. */
  function Advance(s: State, t: Tid): State
    requires t in s.threads
  {
    match s.threads[t]
    case HStart => if s.owner.None? then Goto(s, t, HLocked).(owner := Some(t)) else s
    case HLocked => Goto(s, t, HRead(s.ready))
    case HRead(wasReady) =>
      if wasReady then Goto(s, t, HSend).(owner := None)
      else Goto(s, t, HAppended).(pending := s.pending + [t], buffered := s.buffered + [t])
    case HAppended => Goto(s, t, HDone).(owner := None)
    case HSend => Goto(s, t, HDone).(sent := s.sent + [t])
    case HDone => s
    case DStart => if s.owner.None? then Goto(s, t, DLocked).(owner := Some(t)) else s
    case DLocked => Goto(s, t, DFlagged).(ready := true)
    case DFlagged => Goto(s, t, DTaken(s.pending))
    case DTaken(m) => Goto(s, t, DCleared(m)).(pending := [], carrier := if s.carrier.None? then Some(t) else s.carrier)
    case DCleared(m) => Goto(s, t, DSend(m)).(owner := None)
    case DSend(m) => if m == [] then s else Goto(s, t, DSend(m[1..])).(sent := s.sent + [m[0]])
  }

  function Apply(s: State, a: Action): State {
    match a
    case NewHandler(t) => if t in s.threads then s else Goto(s, t, HStart)
    case NewDrain(t) => if t in s.threads then s else Goto(s, t, DStart)
    case Run(t) => if t in s.threads then Advance(s, t) else s
  }

  function RunAll(s: State, actions: seq<Action>): State
    decreases |actions|
  {
    if actions == [] then s else RunAll(Apply(s, actions[0]), actions[1..])
  }

  // ---- Where messages are ----

  /** The handler has passed its decision: its message is the bridge's to deliver. */
  predicate Accepted(pc: Pc) {
    pc.HAppended? || pc.HSend? || pc.HDone?
  }

  predicate AcceptedIn(s: State, t: Tid) {
    t in s.threads && Accepted(s.threads[t])
  }

  /** The messages a drain has taken out of pending and not sent yet. */
  function Batch(pc: Pc): seq<Tid> {
    match pc case DCleared(m) => m case DSend(m) => m case _ => []
  }

  function InFlight(s: State): seq<Tid> {
    if s.carrier.Some? && s.carrier.value in s.threads then Batch(s.threads[s.carrier.value]) else []
  }

  /** How many places hold message t: pending, the drain's batch, its own handler, sent. */
  function Places(s: State, t: Tid): nat {
    Count(s.pending, t) + Count(InFlight(s), t) + Count(s.sent, t)
    + if t in s.threads && s.threads[t].HSend? then 1 else 0
  }

  /** How often t occurs in a list. */
  function Count(list: seq<Tid>, t: Tid): nat {
    multiset(list)[t]
  }

  lemma CountConcat(a: seq<Tid>, b: seq<Tid>, t: Tid)
    ensures Count(a + b, t) == Count(a, t) + Count(b, t)
  {
  }

  lemma CountOne(e: Tid, t: Tid)
    ensures Count([e], t) == (if e == t then 1 else 0) && Count([], t) == 0
  {
  }

  /** The messages of sent that went through the buffer, in the order they were sent. */
  function Flushed(sent: seq<Tid>, buffered: seq<Tid>): seq<Tid> {
    if sent == [] then []
    else
      var front, last := Flushed(sent[..|sent| - 1], buffered), sent[|sent| - 1];
      if last in buffered then front + [last] else front
  }

  // ---- The invariant ----

  predicate InCriticalSection(pc: Pc) {
    match pc
    case HLocked => true case HRead(_) => true case HAppended => true
    case DLocked => true case DFlagged => true case DTaken(_) => true case DCleared(_) => true
    case _ => false
  }

  /** A drain that has set the flag. */
  predicate HasFlagged(pc: Pc) {
    pc.DFlagged? || pc.DTaken? || pc.DCleared? || pc.DSend?
  }

  /** A drain between setting the flag and emptying the buffer. */
  predicate Draining(pc: Pc) {
    pc.DFlagged? || pc.DTaken?
  }

  ghost predicate ThreadOk(s: State, t: Tid)
    requires t in s.threads
  {
    var pc := s.threads[t];
    && (InCriticalSection(pc) <==> s.owner == Some(t))
    && (HasFlagged(pc) || pc.HSend? ==> s.ready)
    && (pc.HRead? ==> pc.wasReady == s.ready)
    && (pc.DTaken? ==> pc.copied == s.pending)
    && (HasCleared(pc) ==> s.carrier.Some?)
    && (Batch(pc) != [] ==> s.carrier == Some(t))
    && (t in s.buffered ==> pc.HAppended? || pc.HDone?)
  }

  /** A drain that has emptied the buffer. */
  predicate HasCleared(pc: Pc) {
    pc.DCleared? || pc.DSend?
  }

  /** The mutex, the flag and the buffer agree with where the threads are. */
  ghost predicate LockInv(s: State) {
    && (s.owner.Some? ==> s.owner.value in s.threads)
    && (forall t :: t in s.threads ==> ThreadOk(s, t))
    && (forall t :: t in s.buffered ==> t in s.threads)
    && (s.carrier.Some? ==> s.carrier.value in s.threads && HasCleared(s.threads[s.carrier.value]) && s.pending == [])
    && (s.pending != [] && s.ready ==> s.owner.Some? && Draining(s.threads[s.owner.value]))
    && (s.ready ==> SomeFlagged(s))
    && (s.sent != [] ==> s.ready)
  }

  ghost predicate SomeFlagged(s: State) {
    exists d :: d in s.threads && HasFlagged(s.threads[d])
  }

  /** Each accepted message is in exactly one place, any other in none. */
  ghost predicate PlacesInv(s: State) {
    forall t :: Placed(s, t)
  }

  ghost predicate Placed(s: State, t: Tid) {
    Places(s, t) == if AcceptedIn(s, t) then 1 else 0
  }

  /** Buffered messages leave in arrival order. */
  ghost predicate OrderInv(s: State) {
    s.buffered == Flushed(s.sent, s.buffered) + InFlight(s) + s.pending
  }

  ghost predicate Inv(s: State) {
    LockInv(s) && PlacesInv(s) && OrderInv(s)
  }

  lemma {:induction false} FlushedBufferGrows(sent: seq<Tid>, buffered: seq<Tid>, t: Tid)
    requires t !in sent
    ensures Flushed(sent, buffered + [t]) == Flushed(sent, buffered)
  {
    if sent != [] {
      assert sent[|sent| - 1] in sent;
      FlushedBufferGrows(sent[..|sent| - 1], buffered, t);
    }
  }

  lemma FlushedSend(sent: seq<Tid>, buffered: seq<Tid>, t: Tid)
    ensures Flushed(sent + [t], buffered) == Flushed(sent, buffered) + if t in buffered then [t] else []
  {
    assert (sent + [t])[..|sent|] == sent;
  }

  /** The batch in flight changes only when the first drain clears the buffer, or sends. */
  function NextInFlight(s: State, t: Tid): seq<Tid>
    requires t in s.threads
  {
    match s.threads[t]
    case DTaken(_) => InFlight(s) + s.pending
    case DSend(left) => if left == [] then InFlight(s) else left[1..]
    case _ => InFlight(s)
  }

  lemma InFlightStep(s: State, t: Tid)
    requires LockInv(s) && t in s.threads
    ensures InFlight(Advance(s, t)) == NextInFlight(s, t)
    ensures s.threads[t].DSend? && s.threads[t].left != [] ==> InFlight(s) == s.threads[t].left
  {
    assert ThreadOk(s, t);
  }

  /** A step leaves the other threads' facts in place. */
  lemma OtherThreadOk(s: State, t: Tid, x: Tid)
    requires t in s.threads && x in s.threads && x != t && ThreadOk(s, t) && ThreadOk(s, x)
    requires s.carrier.Some? ==> s.pending == []
    ensures ThreadOk(Advance(s, t), x)
  {
  }

  lemma OwnThreadOk(s: State, t: Tid)
    requires t in s.threads && ThreadOk(s, t)
    requires s.carrier.Some? ==> s.pending == []
    ensures ThreadOk(Advance(s, t), t)
  {
  }

  lemma FlagStep(s: State, t: Tid)
    requires t in s.threads && ThreadOk(s, t) && (s.ready ==> SomeFlagged(s)) && (s.sent != [] ==> s.ready)
    ensures var s' := Advance(s, t); (s'.ready ==> SomeFlagged(s')) && (s'.sent != [] ==> s'.ready)
  {
    var s' := Advance(s, t);
    if s.ready {
      var d :| d in s.threads && HasFlagged(s.threads[d]);
      assert HasFlagged(s'.threads[d]);
    } else if s'.ready {
      assert HasFlagged(s'.threads[t]);
    }
  }

  lemma KnownStep(s: State, t: Tid)
    requires LockInv(s) && t in s.threads
    ensures var s' := Advance(s, t);
      (s'.owner.Some? ==> s'.owner.value in s'.threads) && (forall x :: x in s'.buffered ==> x in s'.threads)
  {
    hide SomeFlagged;
    assert ThreadOk(s, t);
  }

  lemma CarrierStep(s: State, t: Tid)
    requires LockInv(s) && t in s.threads
    ensures var s' := Advance(s, t);
      s'.carrier.Some? ==>
        s'.carrier.value in s'.threads && HasCleared(s'.threads[s'.carrier.value]) && s'.pending == []
  {
    hide SomeFlagged;
    assert ThreadOk(s, t);
    if s.carrier.Some? { assert ThreadOk(s, s.carrier.value); }
  }

  lemma PendingStep(s: State, t: Tid)
    requires LockInv(s) && t in s.threads
    ensures var s' := Advance(s, t);
      s'.pending != [] && s'.ready ==>
          s'.owner.Some? && s'.owner.value in s'.threads && Draining(s'.threads[s'.owner.value])
  {
    hide SomeFlagged;
    assert ThreadOk(s, t);
    if s.owner.Some? { assert ThreadOk(s, s.owner.value); }
  }

  lemma StepLocks(s: State, t: Tid)
    requires LockInv(s) && t in s.threads
    ensures LockInv(Advance(s, t))
  {
    KnownStep(s, t);
    CarrierStep(s, t);
    PendingStep(s, t);
    hide Advance, ThreadOk, SomeFlagged;
    FlagStep(s, t);
    OwnThreadOk(s, t);
    forall x | x in Advance(s, t).threads ensures ThreadOk(Advance(s, t), x) {
      SameThreads(s, t);
      if x != t { OtherThreadOk(s, t, x); }
    }
  }

  lemma SameThreads(s: State, t: Tid)
    requires t in s.threads
    ensures Advance(s, t).threads.Keys == s.threads.Keys
  {
  }

  lemma StepPlaced(s: State, t: Tid, x: Tid)
    requires t in s.threads && Placed(s, x) && InFlight(Advance(s, t)) == NextInFlight(s, t)
    requires s.threads[t].DSend? && s.threads[t].left != [] ==> InFlight(s) == s.threads[t].left
    ensures Placed(Advance(s, t), x)
  {
    hide InFlight, Count;
    CountConcat(s.pending, [t], x);
    CountConcat(InFlight(s), s.pending, x);
    CountConcat(s.sent, [t], x);
    CountOne(t, x);
    match s.threads[t]
    case DSend(m) =>
      if m != [] {
        assert m == [m[0]] + m[1..];
        CountConcat([m[0]], m[1..], x);
        CountConcat(s.sent, [m[0]], x);
        CountOne(m[0], x);
      }
    case _ =>
  }

  lemma StepPlaces(s: State, t: Tid)
    requires LockInv(s) && PlacesInv(s) && t in s.threads
    ensures PlacesInv(Advance(s, t))
  {
    InFlightStep(s, t);
    hide LockInv, Advance, InFlight, Placed;
    forall x ensures Placed(Advance(s, t), x) {
      assert Placed(s, x);
      StepPlaced(s, t, x);
    }
  }

  lemma NotSentYet(s: State, t: Tid)
    requires Placed(s, t) && !AcceptedIn(s, t)
    ensures t !in s.sent
  {
    assert Count(s.sent, t) == 0;
    assert t !in multiset(s.sent);
  }

  lemma StepOrder(s: State, t: Tid)
    requires Inv(s) && t in s.threads
    ensures OrderInv(Advance(s, t))
  {
    InFlightStep(s, t);
    assert ThreadOk(s, t) && Placed(s, t);
    hide LockInv, PlacesInv, InFlight, Placed, Flushed, Places, InCriticalSection, HasFlagged, HasCleared, Draining;
    match s.threads[t]
    case HRead(wasReady) =>
      if !wasReady {
        NotSentYet(s, t);
        BufferOrder(s.sent, s.buffered, InFlight(s), s.pending, t);
      }
    case HSend =>
      FlushedSend(s.sent, s.buffered, t);
      assert Flushed(s.sent, s.buffered) + [] == Flushed(s.sent, s.buffered);
    case DTaken(_) => ClearOrder(s.sent, s.buffered, InFlight(s), s.pending);
    case DSend(m) => if m != [] { DrainSendOrder(s.sent, s.buffered, m, s.pending); }
    case _ =>
  }

  lemma BufferOrder(sent: seq<Tid>, buffered: seq<Tid>, m: seq<Tid>, pending: seq<Tid>, t: Tid)
    requires t !in sent && buffered == Flushed(sent, buffered) + m + pending
    ensures buffered + [t] == Flushed(sent, buffered + [t]) + m + (pending + [t])
  {
    FlushedBufferGrows(sent, buffered, t);
  }

  lemma ClearOrder(sent: seq<Tid>, buffered: seq<Tid>, m: seq<Tid>, pending: seq<Tid>)
    requires buffered == Flushed(sent, buffered) + m + pending
    ensures buffered == Flushed(sent, buffered) + (m + pending) + []
  {
  }

  lemma DrainSendOrder(sent: seq<Tid>, buffered: seq<Tid>, m: seq<Tid>, pending: seq<Tid>)
    requires m != [] && buffered == Flushed(sent, buffered) + m + pending
    ensures buffered == Flushed(sent + [m[0]], buffered) + m[1..] + pending
  {
    assert m[0] in buffered by { assert m[0] in (Flushed(sent, buffered) + m) + pending; }
    FlushedSend(sent, buffered, m[0]);
    assert m == [m[0]] + m[1..];
  }

  lemma NewThread(s: State, t: Tid, pc: Pc)
    requires Inv(s) && t !in s.threads && (pc == HStart || pc == DStart)
    ensures Inv(Goto(s, t, pc))
  {
    var s' := Goto(s, t, pc);
    assert InFlight(s') == InFlight(s);
    assert PlacesInv(s') by {
      hide LockInv, InFlight;
      forall x ensures Placed(s', x) { assert Placed(s, x); }
    }
    hide Placed, PlacesInv, InFlight;
    assert s.ready ==> SomeFlagged(s') by {
      if s.ready {
        var d :| d in s.threads && HasFlagged(s.threads[d]);
        assert HasFlagged(s'.threads[d]);
      }
    }
    hide SomeFlagged;
    forall x | x in s'.threads ensures ThreadOk(s', x) { assert x != t ==> ThreadOk(s, x); }
  }

  lemma StepKeepsInv(s: State, a: Action)
    requires Inv(s)
    ensures Inv(Apply(s, a))
  {
    hide LockInv, PlacesInv, OrderInv;
    match a
    case NewHandler(t) => if t !in s.threads { NewThread(s, t, HStart); }
    case NewDrain(t) => if t !in s.threads { NewThread(s, t, DStart); }
    case Run(t) =>
      if t in s.threads {
        StepLocks(s, t);
        StepPlaces(s, t);
        StepOrder(s, t);
      }
  }

  lemma {:induction false} RunKeepsInv(s: State, actions: seq<Action>)
    requires Inv(s)
    ensures Inv(RunAll(s, actions))
    decreases |actions|
  {
    hide Inv;
    if actions != [] {
      StepKeepsInv(s, actions[0]);
      RunKeepsInv(Apply(s, actions[0]), actions[1..]);
    }
  }

  // ---- What every interleaving guarantees ----

  /**
   After any interleaving, each accepted message is in exactly one place and no
   other message is anywhere; of the buffered ones those sent went out in
   arrival order, followed by the drain's batch and the buffer.
   */
  lemma EveryMessageInOnePlace(actions: seq<Action>)
    ensures var s := RunAll(INIT, actions);
      && (forall t :: Placed(s, t))
      && (forall t :: t in s.threads && Batch(s.threads[t]) != [] ==> Batch(s.threads[t]) == InFlight(s))
      && s.buffered == Flushed(s.sent, s.buffered) + InFlight(s) + s.pending
  {
    assert Inv(INIT);
    RunKeepsInv(INIT, actions);
    var s := RunAll(INIT, actions);
    forall t | t in s.threads && Batch(s.threads[t]) != [] ensures Batch(s.threads[t]) == InFlight(s) {
      assert ThreadOk(s, t);
    }
  }

  /** Once the flag is up nothing more is buffered, whatever the threads do. */
  lemma NothingBufferedAfterReady(actions: seq<Action>, a: Action)
    requires RunAll(INIT, actions).ready
    ensures Apply(RunAll(INIT, actions), a).ready
    ensures Apply(RunAll(INIT, actions), a).buffered == RunAll(INIT, actions).buffered
  {
    assert Inv(INIT);
    RunKeepsInv(INIT, actions);
    ReadyStaysSet(RunAll(INIT, actions), a);
  }

  lemma ReadyStaysSet(s: State, a: Action)
    requires Inv(s) && s.ready
    ensures Apply(s, a).ready && Apply(s, a).buffered == s.buffered
  {
    if a.Run? && a.t in s.threads {
      assert ThreadOk(s, a.t);
    }
  }

  /** Every handler and every drain has run its last statement. */
  predicate Quiescent(s: State) {
    forall t :: t in s.threads ==> s.threads[t] == HDone || s.threads[t] == DSend([])
  }

  /**
   A drain has run: every handler's message was sent exactly once, the buffered
   ones in arrival order. Or none has: nothing was sent and the buffer holds all
   messages in arrival order.
   */
  ghost predicate Delivered(s: State) {
    if exists d :: d in s.threads && s.threads[d].DSend? then
      && s.pending == [] && s.buffered == Flushed(s.sent, s.buffered)
      && forall t :: Count(s.sent, t) == if t in s.threads && s.threads[t].HDone? then 1 else 0
    else
      && s.sent == [] && s.pending == s.buffered
      && forall t :: Count(s.pending, t) == if t in s.threads then 1 else 0
  }

  /**
   When all threads are done and a drain has run, every message was sent
   exactly once and the buffered ones in arrival order; when no drain has run,
   nothing was sent and the buffer holds them all in arrival order.
   */
  lemma DeliveredExactlyOnce(actions: seq<Action>)
    requires Quiescent(RunAll(INIT, actions))
    ensures Delivered(RunAll(INIT, actions))
  {
    assert Inv(INIT);
    RunKeepsInv(INIT, actions);
    hide RunAll;
    QuiescentDelivery(RunAll(INIT, actions));
  }

  /** With all threads done nothing is in flight; the buffer is empty if a drain has run, and nothing sent if not. */
  lemma AtRestFacts(s: State)
    requires LockInv(s) && Quiescent(s)
    ensures InFlight(s) == []
    ensures if exists d :: d in s.threads && s.threads[d].DSend? then s.pending == []
            else s.sent == [] && forall t :: t in s.threads ==> s.threads[t].HDone?
  {
    if d :| d in s.threads && s.threads[d].DSend? {
      assert ThreadOk(s, d);
    } else {
      assert !SomeFlagged(s);
    }
  }

  lemma QuiescentDelivery(s: State)
    requires Inv(s) && Quiescent(s)
    ensures Delivered(s)
  {
    hide LockInv, PlacesInv, SomeFlagged, Flushed, OrderInv, InFlight, Quiescent;
    AtRestFacts(s);
    forall t ensures Count(s.pending, t) + Count(s.sent, t) == if t in s.threads && s.threads[t].HDone? then 1 else 0 {
      OnePlaceLeft(s, t);
    }
    assert s.buffered == Flushed(s.sent, s.buffered) + s.pending by { NothingInFlight(s); }
    assert s.sent == [] ==> Flushed(s.sent, s.buffered) == [] by { FlushedNothing(s.buffered); }
    assert forall t :: Count([], t) == 0;
  }

  lemma FlushedNothing(buffered: seq<Tid>)
    ensures Flushed([], buffered) == []
  {
  }

  lemma NothingInFlight(s: State)
    requires OrderInv(s) && InFlight(s) == []
    ensures s.buffered == Flushed(s.sent, s.buffered) + s.pending
  {
    assert Flushed(s.sent, s.buffered) + [] == Flushed(s.sent, s.buffered);
  }

  lemma OnePlaceLeft(s: State, t: Tid)
    requires PlacesInv(s) && InFlight(s) == [] && Quiescent(s)
    ensures Count(s.pending, t) + Count(s.sent, t) == if t in s.threads && s.threads[t].HDone? then 1 else 0
  {
    assert Placed(s, t);
    CountOne(0, t);
  }
}
