/**
 The CLI's control call against a versioned Automation
 (cmd/datawatch/cli_automation.go; the version check is
 internal/autonomous/automation_control.go and automation_store.go): any number
 of calls and other writers interleave request by request, and any request or
 response may fail.
 */
module AutomationControl {
  import opened Basics

  type Id = nat

  datatype Json = Number(n: int) | Text(s: string)
  type Body = map<string, Json>

  const EXPECTED_VERSION := "expected_version"

  datatype Outcome = Succeeded | Failed

  /** Where a call is: it reads, posts, and may read and post once more. */
  datatype Pc =
    | Start
    | Get(again: bool)                       // about to read the version, for the first or the second time
    | Post(sent: Body, mayRetry: bool)       // about to post
    | Done(outcome: Outcome)

  datatype Call = Call(body: Body, pc: Pc, posts: nat, conflicts: nat)

  /** One applied control: who sent it and the version it was sent for. */
  datatype Applied = ByCall(id: Id, expected: Json) | ByOther

  /** The store's version has grown by one with every control applied. */
  datatype State = State(origin: int, log: seq<Applied>, calls: map<Id, Call>)

  function Version(s: State): int {
    s.origin + |s.log|
  }

  /** What befalls a request. A post that reaches the daemon may still be refused on other grounds. */
  datatype Fate = Delivered | NotDelivered | ReplyLost | RefusedOtherwise

  datatype Action = NewCall(id: Id, body: Body) | Step(id: Id, fate: Fate) | OtherWrite

  function Explicit(body: Body): bool {
    EXPECTED_VERSION in body
  }

  /** The daemon takes a control only at the version it was sent for. */
  predicate Matches(s: State, sent: Body) {
    EXPECTED_VERSION in sent && sent[EXPECTED_VERSION] == Number(Version(s))
  }

  function Move(s: State, id: Id, c: Call, pc: Pc): State {
    s.(calls := s.calls[id := c.(pc := pc)])
  }

  /** The post of call c: applied, refused for its version, or failed. */
  function PostStep(s: State, id: Id, c: Call, sent: Body, mayRetry: bool, fate: Fate): State {
    var c1 := c.(posts := c.posts + 1);
    if fate.NotDelivered? then Move(s, id, c1, Done(Failed))
    else if !Matches(s, sent) then
      if fate.ReplyLost? then Move(s, id, c1, Done(Failed))
      else
        var c2 := c1.(conflicts := c.conflicts + 1);
        Move(s, id, c2, if mayRetry then Get(true) else Done(Failed))
    else if fate.RefusedOtherwise? then Move(s, id, c1, Done(Failed))
    else
      Move(s.(log := s.log + [ByCall(id, sent[EXPECTED_VERSION])]), id, c1,
           Done(if fate.Delivered? then Succeeded else Failed))
  }

  /** The next request of a call. */
  function Advance(s: State, id: Id, fate: Fate): State
    requires id in s.calls
  {
    var c := s.calls[id];
    match c.pc
    case Start => Move(s, id, c, if Explicit(c.body) then Post(c.body, false) else Get(false))
    case Get(again) =>
      if fate.Delivered? then Move(s, id, c, Post(c.body[EXPECTED_VERSION := Number(Version(s))], !again))
      else Move(s, id, c, Done(Failed))
    case Post(sent, mayRetry) => PostStep(s, id, c, sent, mayRetry, fate)
    case Done(_) => s
  }

  function Apply(s: State, a: Action): State {
    match a
    case NewCall(id, body) => if id in s.calls then s else s.(calls := s.calls[id := Call(body, Start, 0, 0)])
    case Step(id, fate) => if id in s.calls then Advance(s, id, fate) else s
    case OtherWrite => s.(log := s.log + [ByOther])
  }

  function Run(s: State, actions: seq<Action>): State
    decreases |actions|
  {
    if actions == [] then s else Run(Apply(s, actions[0]), actions[1..])
  }

  function Initial(version: int): State {
    State(version, [], map[])
  }

  // ---- The invariant ----

  function TimesApplied(log: seq<Applied>, id: Id): nat {
    if log == [] then 0
    else
      var last := log[|log| - 1];
      TimesApplied(log[..|log| - 1], id) + if last.ByCall? && last.id == id then 1 else 0
  }

  lemma TimesAppliedAppend(log: seq<Applied>, e: Applied, id: Id)
    ensures TimesApplied(log + [e], id) == TimesApplied(log, id) + if e.ByCall? && e.id == id then 1 else 0
  {
    assert (log + [e])[..|log|] == log;
  }

  /** What is posted is the caller's body with the version filled in where the caller gave none. */
  predicate Sends(body: Body, sent: Body) {
    if Explicit(body) then sent == body
    else Explicit(sent) && sent - {EXPECTED_VERSION} == body
  }

  ghost predicate CallOk(c: Call, applied: nat) {
    && applied <= 1
    && (c.pc == Done(Succeeded) ==> applied == 1)
    && (!c.pc.Done? ==> applied == 0)
    && applied + c.conflicts <= c.posts <= (if Explicit(c.body) then 1 else 2)
    && c.posts <= c.conflicts + 1
    && (match c.pc
        case Start => c.posts == 0 && c.conflicts == 0
        case Get(again) => !Explicit(c.body) && c.posts == c.conflicts == (if again then 1 else 0)
        case Post(sent, mayRetry) =>
          && Sends(c.body, sent) && c.posts == c.conflicts <= 1
          && (mayRetry ==> !Explicit(c.body) && c.posts == 0) && (Explicit(c.body) ==> c.posts == 0)
        case Done(_) => true)
  }

  ghost predicate Inv(s: State) {
    && (forall id :: id in s.calls ==> CallOk(s.calls[id], TimesApplied(s.log, id)))
    && (forall id :: id !in s.calls ==> TimesApplied(s.log, id) == 0)
    && (forall i :: 0 <= i < |s.log| && s.log[i].ByCall? ==> s.log[i].expected == Number(s.origin + i))
  }

  lemma FilledIn(body: Body, v: int)
    requires !Explicit(body)
    ensures Sends(body, body[EXPECTED_VERSION := Number(v)])
  {
    assert body[EXPECTED_VERSION := Number(v)] - {EXPECTED_VERSION} == body;
  }

  lemma PostKeepsCall(s: State, id: Id, c: Call, sent: Body, mayRetry: bool, fate: Fate)
    requires c.pc == Post(sent, mayRetry) && CallOk(c, TimesApplied(s.log, id))
    ensures var s' := PostStep(s, id, c, sent, mayRetry, fate);
      id in s'.calls && CallOk(s'.calls[id], TimesApplied(s'.log, id))
  {
    if Matches(s, sent) {
      TimesAppliedAppend(s.log, ByCall(id, sent[EXPECTED_VERSION]), id);
    }
    hide Matches, Explicit, Sends, TimesApplied;
  }

  lemma AdvanceKeepsCall(s: State, id: Id, fate: Fate)
    requires id in s.calls && CallOk(s.calls[id], TimesApplied(s.log, id))
    ensures var s' := Advance(s, id, fate); id in s'.calls && CallOk(s'.calls[id], TimesApplied(s'.log, id))
  {
    hide PostStep, Sends, Explicit, TimesApplied;
    var c := s.calls[id];
    match c.pc
    case Start => assert Explicit(c.body) ==> Sends(c.body, c.body) by { SendsItself(c.body); }
    case Get(_) => FilledIn(c.body, Version(s));
    case Post(sent, mayRetry) => PostKeepsCall(s, id, c, sent, mayRetry, fate);
    case Done(_) =>
  }

  lemma SendsItself(body: Body)
    ensures Explicit(body) ==> Sends(body, body)
  {
  }

  /** A request of one call leaves the others alone. */
  lemma AdvanceKeepsOthers(s: State, id: Id, fate: Fate, other: Id)
    requires id in s.calls && other != id
    ensures var s' := Advance(s, id, fate);
      && (other in s'.calls <==> other in s.calls)
      && (other in s.calls ==> s'.calls[other] == s.calls[other])
      && TimesApplied(s'.log, other) == TimesApplied(s.log, other)
  {
    var c := s.calls[id];
    if c.pc.Post? && EXPECTED_VERSION in c.pc.sent {
      TimesAppliedAppend(s.log, ByCall(id, c.pc.sent[EXPECTED_VERSION]), other);
    }
  }

  /** The log grows only by controls sent for the version they meet. */
  lemma AdvanceKeepsLog(s: State, id: Id, fate: Fate)
    requires id in s.calls
    requires forall i :: 0 <= i < |s.log| && s.log[i].ByCall? ==> s.log[i].expected == Number(s.origin + i)
    ensures var s' := Advance(s, id, fate);
      && s'.origin == s.origin && s.log <= s'.log
      && forall i :: 0 <= i < |s'.log| && s'.log[i].ByCall? ==> s'.log[i].expected == Number(s'.origin + i)
  {
  }

  lemma CallStepKeepsInv(s: State, id: Id, fate: Fate)
    requires Inv(s) && id in s.calls
    ensures Inv(Advance(s, id, fate))
  {
    AdvanceKeepsCall(s, id, fate);
    AdvanceKeepsLog(s, id, fate);
    hide Advance, CallOk, TimesApplied;
    var s' := Advance(s, id, fate);
    forall other | other != id
      ensures other in s'.calls ==> CallOk(s'.calls[other], TimesApplied(s'.log, other))
      ensures other !in s'.calls ==> TimesApplied(s'.log, other) == 0
    {
      AdvanceKeepsOthers(s, id, fate, other);
    }
  }

  lemma OtherWriteKeepsInv(s: State)
    requires Inv(s)
    ensures Inv(Apply(s, OtherWrite))
  {
    hide CallOk, TimesApplied;
    var s' := Apply(s, OtherWrite);
    forall id ensures TimesApplied(s'.log, id) == TimesApplied(s.log, id) {
      TimesAppliedAppend(s.log, ByOther, id);
    }
  }

  lemma StepKeepsInv(s: State, a: Action)
    requires Inv(s)
    ensures Inv(Apply(s, a))
  {
    match a
    case NewCall(id, body) => hide TimesApplied, Advance;
    case Step(id, fate) =>
      hide Inv, Advance;
      if id in s.calls {
        CallStepKeepsInv(s, id, fate);
      }
    case OtherWrite => OtherWriteKeepsInv(s);
  }

  lemma {:induction false} RunKeepsInv(s: State, actions: seq<Action>)
    requires Inv(s)
    ensures Inv(Run(s, actions))
    decreases |actions|
  {
    hide Inv, Apply;
    if actions != [] {
      StepKeepsInv(s, actions[0]);
      RunKeepsInv(Apply(s, actions[0]), actions[1..]);
    }
  }

  // ---- What every interleaving guarantees ----

  /**
   After any interleaving of calls, faults and other writers: a call's control
   took effect at most once, and exactly once if it reported success; it sent
   at most two posts, one if the version was explicit; every post but its last
   drew a definite version refusal; and what it posts is its caller's body with
   only the version filled in.
   */
  lemma CallGuarantees(version: int, actions: seq<Action>, id: Id)
    requires id in Run(Initial(version), actions).calls
    ensures var s := Run(Initial(version), actions);
      var c := s.calls[id];
      && TimesApplied(s.log, id) <= 1
      && (c.pc == Done(Succeeded) ==> TimesApplied(s.log, id) == 1)
      && c.posts <= (if Explicit(c.body) then 1 else 2)
      && c.posts <= c.conflicts + 1
      && (TimesApplied(s.log, id) == 1 ==> c.posts == c.conflicts + 1)
      && (c.pc.Post? ==> Sends(c.body, c.pc.sent))
  {
    RunKeepsInv(Initial(version), actions);
  }

  /**
   Every control of a call was applied at the version it was sent for, so no
   write falls between the version a call goes by and its own effect.
   */
  lemma AppliedAtItsVersion(version: int, actions: seq<Action>, i: nat)
    requires i < |Run(Initial(version), actions).log| && Run(Initial(version), actions).log[i].ByCall?
    ensures Run(Initial(version), actions).log[i].expected == Number(version + i)
  {
    RunKeepsInv(Initial(version), actions);
    OriginKept(Initial(version), actions);
  }

  lemma {:induction false} OriginKept(s: State, actions: seq<Action>)
    ensures Run(s, actions).origin == s.origin
    decreases |actions|
  {
    if actions != [] {
      OriginKept(Apply(s, actions[0]), actions[1..]);
    }
  }

  // ---- One call's own maps ----

  /** A request body as the client holds it: a map that is passed by reference. */
  class JsonMap {
    var fields: Body

    constructor (fields: Body)
      ensures this.fields == fields
    {
      this.fields := fields;
    }
  }

  datatype Reply = Accepted | VersionMismatch | OtherError

  /** What a call makes of the daemon's answers: whether it succeeds, and what it posts. */
  function CallResult(body: Body, versions: nat -> Option<int>, replies: nat -> Reply): (bool, seq<Body>) {
    if Explicit(body) then (replies(0).Accepted?, [body])
    else match versions(0)
      case None => (false, [])
      case Some(first) =>
        var sent := body[EXPECTED_VERSION := Number(first)];
        if !replies(0).VersionMismatch? then (replies(0).Accepted?, [sent])
        else match versions(1)
          case None => (false, [sent])
          case Some(again) => (replies(1).Accepted?, [sent, body[EXPECTED_VERSION := Number(again)]])
  }

  /** The copy loop: a map of its own with the same fields. */
  method Copy(body: JsonMap) returns (sent: JsonMap)
    ensures fresh(sent) && sent.fields == body.fields && unchanged(body)
  {
    sent := new JsonMap(map[]);
    var todo := body.fields.Keys;
    while todo != {}
      invariant fresh(sent) && unchanged(body) && todo <= body.fields.Keys
      invariant sent.fields == body.fields - todo
      decreases todo
    {
      NonEmpty(todo);
      var k :| k in todo;
      sent.fields := sent.fields[k := body.fields[k]];
      todo := todo - {k};
    }
  }

  /**
   The control call as one client runs it, whatever the daemon answers to its
   reads and posts. The caller's map is left as it was; every body posted is
   that map, with the version just read filled in where the caller gave none; a
   second post follows exactly a version mismatch; and the call succeeds exactly
   when its last post was accepted.
   */
  method RunAutomationControl(body: JsonMap, versions: nat -> Option<int>, replies: nat -> Reply)
      returns (ok: bool, posted: seq<Body>)
    ensures unchanged(body)
    ensures forall i :: 0 <= i < |posted| ==> Sends(body.fields, posted[i])
    ensures Explicit(body.fields) ==> |posted| == 1
    ensures !Explicit(body.fields) ==> |posted| <= 2
    ensures !Explicit(body.fields) ==> forall i :: 0 <= i < |posted| ==>
              versions(i).Some? && posted[i] == body.fields[EXPECTED_VERSION := Number(versions(i).value)]
    ensures |posted| >= 1 <==> Explicit(body.fields) || versions(0).Some?
    ensures |posted| == 2 <==>
        !Explicit(body.fields) && versions(0).Some? && replies(0).VersionMismatch? && versions(1).Some?
    ensures (ok, posted) == CallResult(body.fields, versions, replies)
    ensures ok <==> posted != [] && replies(|posted| - 1).Accepted?
  {
    if EXPECTED_VERSION in body.fields {
      return replies(0).Accepted?, [body.fields];
    }
    var version := versions(0);
    if version.None? {
      return false, [];
    }
    var sent := Copy(body);
    sent.fields := sent.fields[EXPECTED_VERSION := Number(version.value)];
    FilledIn(body.fields, version.value);
    posted := [sent.fields];
    if !replies(0).VersionMismatch? {
      return replies(0).Accepted?, posted;
    }
    var again := versions(1);
    if again.None? {
      return false, posted;
    }
    sent.fields := sent.fields[EXPECTED_VERSION := Number(again.value)];
    FilledIn(body.fields, again.value);
    assert sent.fields == body.fields[EXPECTED_VERSION := Number(again.value)];
    posted := posted + [sent.fields];
    assert posted == [Filled(body.fields, version.value), Filled(body.fields, again.value)];
    return replies(1).Accepted?, posted;
  }

  // ---- The call among other writers is the call of one client ----

  /** What a call has read, posted and been answered. */
  datatype Trace = Trace(seen: seq<Option<int>>, posts: seq<Body>, answers: seq<Reply>)

  const NOTHING_YET := Trace([], [], [])

  /** What the client makes of its post. */
  function ReplyOf(s: State, sent: Body, fate: Fate): Reply {
    if fate.NotDelivered? || fate.ReplyLost? then OtherError
    else if !Matches(s, sent) then VersionMismatch
    else if fate.RefusedOtherwise? then OtherError
    else Accepted
  }

  /** What call id sees of one action. */
  function Sees(s: State, a: Action, id: Id, t: Trace): Trace {
    if a.Step? && a.id == id && id in s.calls then
      match s.calls[id].pc
      case Get(_) => t.(seen := t.seen + [if a.fate.Delivered? then Some(Version(s)) else None])
      case Post(sent, _) => t.(posts := t.posts + [sent], answers := t.answers + [ReplyOf(s, sent, a.fate)])
      case _ => t
    else t
  }

  function Watch(s: State, actions: seq<Action>, id: Id, t: Trace): Trace
    decreases |actions|
  {
    if actions == [] then t else Watch(Apply(s, actions[0]), actions[1..], id, Sees(s, actions[0], id, t))
  }

  function VersionAt(t: Trace, i: nat): Option<int> {
    if i < |t.seen| then t.seen[i] else None
  }

  function AnswerAt(t: Trace, i: nat): Reply {
    if i < |t.answers| then t.answers[i] else OtherError
  }

  /** What the client does with what this call saw. */
  function ClientResult(body: Body, t: Trace): (bool, seq<Body>) {
    CallResult(body, (i: nat) => VersionAt(t, i), (i: nat) => AnswerAt(t, i))
  }

  /** Where a call is, its client is: with the same reads, posts and answers behind it. */
  ghost predicate TraceOk(c: Call, t: Trace) {
    match c.pc
    case Start => t == NOTHING_YET
    case Get(again) =>
      && !Explicit(c.body)
      && if again then exists v :: t == Trace([Some(v)], [Filled(c.body, v)], [VersionMismatch]) else t == NOTHING_YET
    case Post(sent, mayRetry) =>
      if Explicit(c.body) then !mayRetry && sent == c.body && t == NOTHING_YET
      else if mayRetry then exists v :: sent == Filled(c.body, v) && t == Trace([Some(v)], [], [])
      else exists v, w ::
             sent == Filled(c.body, w) && t == Trace([Some(v), Some(w)], [Filled(c.body, v)], [VersionMismatch])
    case Done(outcome) => ClientResult(c.body, t) == (outcome.Succeeded?, t.posts)
  }

  function Filled(body: Body, v: int): Body {
    body[EXPECTED_VERSION := Number(v)]
  }

  ghost predicate Traced(s: State, id: Id, t: Trace) {
    if id in s.calls then TraceOk(s.calls[id], t) else t == NOTHING_YET
  }

  lemma GetTraced(s: State, id: Id, fate: Fate, t: Trace)
    requires id in s.calls && s.calls[id].pc.Get? && TraceOk(s.calls[id], t)
    ensures TraceOk(Advance(s, id, fate).calls[id], Sees(s, Step(id, fate), id, t))
  {
    var c := s.calls[id];
    if c.pc.again {
      var v :| t == Trace([Some(v)], [Filled(c.body, v)], [VersionMismatch]);
      if fate.Delivered? {
        assert t.seen + [Some(Version(s))] == [Some(v), Some(Version(s))];
      }
    } else {
      assert fate.Delivered? ==> t.seen + [Some(Version(s))] == [Some(Version(s))];
    }
  }

  lemma ResultOf(body: Body, v: int, w: int, r: Reply)
    ensures Explicit(body) ==> ClientResult(body, Trace([], [body], [r])) == (r.Accepted?, [body])
    ensures !Explicit(body) && !r.VersionMismatch? ==>
              ClientResult(body, Trace([Some(v)], [Filled(body, v)], [r])) == (r.Accepted?, [Filled(body, v)])
    ensures !Explicit(body) ==>
              ClientResult(body, Trace([Some(v), Some(w)], [Filled(body, v), Filled(body, w)], [VersionMismatch, r])) ==
              (r.Accepted?, [Filled(body, v), Filled(body, w)])
  {
  }

  /** A post is answered, and the call is done or reads again. */
  lemma AfterPost(s: State, id: Id, fate: Fate)
    requires id in s.calls && s.calls[id].pc.Post?
    ensures var c, c' := s.calls[id], Advance(s, id, fate).calls[id];
      var r := ReplyOf(s, c.pc.sent, fate);
      && c'.body == c.body
      && c'.pc == if r.VersionMismatch? && c.pc.mayRetry then Get(true)
                  else Done(if r.Accepted? then Succeeded else Failed)
  {
    hide Matches;
  }

  lemma PostTraced(s: State, id: Id, fate: Fate, t: Trace)
    requires id in s.calls && s.calls[id].pc.Post? && TraceOk(s.calls[id], t)
    ensures TraceOk(Advance(s, id, fate).calls[id], Sees(s, Step(id, fate), id, t))
  {
    hide Matches, Explicit, Advance, ReplyOf, ClientResult, Filled;
    var c := s.calls[id];
    var r := ReplyOf(s, c.pc.sent, fate);
    AfterPost(s, id, fate);
    if Explicit(c.body) {
      ResultOf(c.body, 0, 0, r);
      assert [] + [c.body] == [c.body] && [] + [r] == [r];
    } else if c.pc.mayRetry {
      var v :| c.pc.sent == Filled(c.body, v) && t == Trace([Some(v)], [], []);
      ResultOf(c.body, v, 0, r);
      assert [] + [c.pc.sent] == [Filled(c.body, v)] && [] + [r] == [r];
    } else {
      var v, w :|
        c.pc.sent == Filled(c.body, w) && t == Trace([Some(v), Some(w)], [Filled(c.body, v)], [VersionMismatch]);
      ResultOf(c.body, v, w, r);
      assert [Filled(c.body, v)] + [c.pc.sent] == [Filled(c.body, v), Filled(c.body, w)];
      assert [VersionMismatch] + [r] == [VersionMismatch, r];
    }
  }

  lemma StepTraced(s: State, a: Action, id: Id, t: Trace)
    requires Traced(s, id, t)
    ensures Traced(Apply(s, a), id, Sees(s, a, id, t))
  {
    if a.Step? && a.id in s.calls {
      if a.id != id {
        AdvanceKeepsOthers(s, a.id, a.fate, id);
      } else if s.calls[id].pc.Get? {
        GetTraced(s, id, a.fate, t);
      } else if s.calls[id].pc.Post? {
        PostTraced(s, id, a.fate, t);
      }
    }
  }

  lemma {:induction false} RunTraced(s: State, actions: seq<Action>, id: Id, t: Trace)
    requires Traced(s, id, t)
    ensures Traced(Run(s, actions), id, Watch(s, actions, id, t))
    decreases |actions|
  {
    hide Traced, Apply, Sees;
    if actions != [] {
      StepTraced(s, actions[0], id, t);
      RunTraced(Apply(s, actions[0]), actions[1..], id, Sees(s, actions[0], id, t));
    }
  }

  /**
   However it was interleaved with other writers and struck by faults, a call
   that is done has posted and reported exactly what its client does when given
   the answers the call saw.
   */
  lemma CallIsItsClient(version: int, actions: seq<Action>, id: Id)
    requires id in Run(Initial(version), actions).calls && Run(Initial(version), actions).calls[id].pc.Done?
    ensures var c, t := Run(Initial(version), actions).calls[id], Watch(Initial(version), actions, id, NOTHING_YET);
      ClientResult(c.body, t) == (c.pc.outcome.Succeeded?, t.posts)
  {
    RunTraced(Initial(version), actions, id, NOTHING_YET);
  }
}
