/**
 What becomes of a control call whose requests all get through, among any other
 calls and writers (cmd/datawatch/cli_automation.go).
 */
module AutomationOutcomes {
  import opened AutomationControl

  /** No action is a request of the call id. */
  predicate Others(actions: seq<Action>, id: Id) {
    forall a :: a in actions ==> !(a.Step? && a.id == id)
  }

  /** The call's next request gets through, and then others act. */
  function Turn(s: State, id: Id, others: seq<Action>): State {
    Run(Apply(s, Step(id, Delivered)), others)
  }

  lemma OtherStep(s: State, a: Action, id: Id)
    requires id in s.calls && Others([a], id)
    ensures var t := Apply(s, a);
      id in t.calls && t.calls[id] == s.calls[id] && s.log <= t.log && t.origin == s.origin
  {
    assert a in [a];
  }

  lemma {:induction false} OthersRun(s: State, actions: seq<Action>, id: Id)
    requires id in s.calls && Others(actions, id)
    ensures var t := Run(s, actions);
      id in t.calls && t.calls[id] == s.calls[id] && s.log <= t.log && t.origin == s.origin
    decreases |actions|
  {
    hide Apply;
    if actions != [] {
      assert actions[0] in actions && forall a :: a in actions[1..] ==> a in actions;
      OtherStep(s, actions[0], id);
      OthersRun(Apply(s, actions[0]), actions[1..], id);
    }
  }

  lemma ReadOnce(s: State, id: Id)
    requires id in s.calls && s.calls[id].pc.Get?
    ensures var c, t := s.calls[id], Apply(s, Step(id, Delivered));
      && t.log == s.log && t.origin == s.origin && id in t.calls
      && t.calls[id] ==
         c.(pc := Post(c.body["expected_version" := Number(s.origin + |s.log|)], !c.pc.again))
  {
  }

  lemma PostOnce(s: State, id: Id, v: int)
    requires id in s.calls && s.calls[id].pc.Post?
    requires "expected_version" in s.calls[id].pc.sent && s.calls[id].pc.sent["expected_version"] == Number(v)
    ensures var c, t := s.calls[id], Apply(s, Step(id, Delivered));
      && id in t.calls
      && (v == s.origin + |s.log| ==>
            && t.log == s.log + [ByCall(id, Number(v))]
            && t.calls[id] == Call(c.body, Done(Succeeded), c.posts + 1, c.conflicts))
      && (v != s.origin + |s.log| ==>
            && t.log == s.log
            && t.calls[id] ==
               Call(c.body, if c.pc.mayRetry then Get(true) else Done(Failed), c.posts + 1, c.conflicts + 1))
  {
  }

  /** A read and the post after it: applied if and only if nothing was applied in between. */
  lemma ReadThenPost(s: State, id: Id, between: seq<Action>)
    requires id in s.calls && s.calls[id].pc.Get? && Others(between, id)
    ensures var c := s.calls[id];
      var met := Turn(s, id, between);
      var t := Apply(met, Step(id, Delivered));
      && id in t.calls
      && (met.log == s.log ==>
            && t.log == s.log + [ByCall(id, Number(s.origin + |s.log|))]
            && t.calls[id] == Call(c.body, Done(Succeeded), c.posts + 1, c.conflicts))
      && (met.log != s.log ==>
            && t.log == met.log
            && t.calls[id] ==
               Call(c.body, if c.pc.again then Done(Failed) else Get(true), c.posts + 1, c.conflicts + 1))
  {
    ReadOnce(s, id);
    OthersRun(Apply(s, Step(id, Delivered)), between, id);
    PostOnce(Turn(s, id, between), id, s.origin + |s.log|);
    hide Apply;
  }

  /**
   The same with a post that meets any fate: it takes effect also when only its
   reply is lost, the call succeeds only on a reply, and it reads again exactly
   after a first refusal for the version that reached it.
   */
  lemma PostFates(s: State, id: Id, between: seq<Action>, fate: Fate)
    requires id in s.calls && s.calls[id].pc.Get? && Others(between, id)
    ensures var met := Turn(s, id, between);
      var t := Apply(met, Step(id, fate));
      var current := met.log == s.log;
      && t.log == (if current && (fate.Delivered? || fate.ReplyLost?)
                   then s.log + [ByCall(id, Number(s.origin + |s.log|))] else met.log)
      && id in t.calls && t.calls[id].posts == s.calls[id].posts + 1
      && (t.calls[id].pc == Done(Succeeded) <==> current && fate.Delivered?)
      && (t.calls[id].pc == Get(true) <==>
            !current && !s.calls[id].pc.again && (fate.Delivered? || fate.RefusedOtherwise?))
      && (t.calls[id].pc.Done? || t.calls[id].pc == Get(true))
  {
    ReadOnce(s, id);
    OthersRun(Apply(s, Step(id, Delivered)), between, id);
  }

  lemma Begun(s: State, id: Id, body: Body, a0: seq<Action>, a1: seq<Action>)
    requires id !in s.calls && Others(a0, id) && Others(a1, id)
    ensures var t := Turn(Run(Apply(s, NewCall(id, body)), a0), id, a1);
      && id in t.calls && t.origin == s.origin
      && t.calls[id] == Call(body, if "expected_version" in body then Post(body, false) else Get(false), 0, 0)
  {
    var s0 := Run(Apply(s, NewCall(id, body)), a0);
    OthersRun(Apply(s, NewCall(id, body)), a0, id);
    OthersRun(Apply(s0, Step(id, Delivered)), a1, id);
  }

  /**
   A call that leaves the version to the client, whose requests all get through,
   with others acting at every point. If none of them has a control applied
   between its read and its post, it succeeds, applied once at the version read.
   Otherwise it reads again, and then succeeds if and only if none of them has
   one applied between that read and the second post.
   */
  lemma ImplicitCall(s: State, id: Id, body: Body, a: seq<seq<Action>>)
    requires id !in s.calls && "expected_version" !in body
    requires |a| == 5 && forall i :: 0 <= i < 5 ==> Others(a[i], id)
    ensures var reading := Turn(Run(Apply(s, NewCall(id, body)), a[0]), id, a[1]);
      var posting := Turn(reading, id, a[2]);
      var answered := Apply(posting, Step(id, Delivered));
      var again := Run(answered, a[3]);
      var retrying := Turn(again, id, a[4]);
      var final := Apply(retrying, Step(id, Delivered));
      && id in answered.calls && id in final.calls
      && (posting.log == reading.log ==>
            && answered.log == reading.log + [ByCall(id, Number(s.origin + |reading.log|))]
            && answered.calls[id] == Call(body, Done(Succeeded), 1, 0))
      && (posting.log != reading.log ==>
            && answered.log == posting.log
            && (retrying.log == again.log ==>
                  && final.log == again.log + [ByCall(id, Number(s.origin + |again.log|))]
                  && final.calls[id] == Call(body, Done(Succeeded), 2, 1))
            && (retrying.log != again.log ==>
                  && final.log == retrying.log
                  && final.calls[id] == Call(body, Done(Failed), 2, 2)))
  {
    hide Apply, Others;
    var reading := Turn(Run(Apply(s, NewCall(id, body)), a[0]), id, a[1]);
    Begun(s, id, body, a[0], a[1]);
    ReadThenPost(reading, id, a[2]);
    var posting := Turn(reading, id, a[2]);
    var answered := Apply(posting, Step(id, Delivered));
    OthersRun(answered, a[3], id);
    var again := Run(answered, a[3]);
    OriginOf(reading, id, a[2], a[3]);
    if posting.log != reading.log {
      ReadThenPost(again, id, a[4]);
    } else {
      StillThere(again, id, a[4]);
    }
  }

  lemma StepOrigin(s: State, a: Action)
    ensures Apply(s, a).origin == s.origin
    ensures forall id :: id in s.calls ==> id in Apply(s, a).calls
  {
  }

  lemma OriginOf(s: State, id: Id, between: seq<Action>, after: seq<Action>)
    ensures Run(Apply(Turn(s, id, between), Step(id, Delivered)), after).origin == s.origin
  {
    StepOrigin(s, Step(id, Delivered));
    OriginKept(Apply(s, Step(id, Delivered)), between);
    StepOrigin(Turn(s, id, between), Step(id, Delivered));
    OriginKept(Apply(Turn(s, id, between), Step(id, Delivered)), after);
  }

  lemma StillThere(s: State, id: Id, others: seq<Action>)
    requires id in s.calls && Others(others, id)
    ensures id in Apply(Turn(s, id, others), Step(id, Delivered)).calls
  {
    hide Apply, Others;
    StepOrigin(s, Step(id, Delivered));
    OthersRun(Apply(s, Step(id, Delivered)), others, id);
    StepOrigin(Turn(s, id, others), Step(id, Delivered));
  }

  /**
   A call with a version of its own posts once. It succeeds, applied at that
   version, if and only if that is the version its post meets; otherwise it
   fails and nothing is applied.
   */
  lemma ExplicitCall(s: State, id: Id, body: Body, a: seq<seq<Action>>)
    requires id !in s.calls && "expected_version" in body
    requires |a| == 2 && forall i :: 0 <= i < 2 ==> Others(a[i], id)
    ensures var posting := Turn(Run(Apply(s, NewCall(id, body)), a[0]), id, a[1]);
      var answered := Apply(posting, Step(id, Delivered));
      var met := Number(s.origin + |posting.log|);
      && id in answered.calls
      && (body["expected_version"] == met ==>
            && answered.log == posting.log + [ByCall(id, met)]
            && answered.calls[id] == Call(body, Done(Succeeded), 1, 0))
      && (body["expected_version"] != met ==>
            && answered.log == posting.log
            && answered.calls[id] == Call(body, Done(Failed), 1, 1))
  {
    Begun(s, id, body, a[0], a[1]);
  }
}
