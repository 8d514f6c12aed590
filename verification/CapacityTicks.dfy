/**
 The two watchers of the capacity tick (cmd/datawatch/capacity_wiring.go): the
 audit of budget windows that fill and resume, and the alert for long waits.
 */
module BudgetAudit {
  import opened Basics
  import opened Encoding

  datatype Status = Status(llm: string, full: bool)
  datatype Event = CeilingWait(llm: string) | WindowResumed(llm: string)

  /** The LLMs the map holds true for; a missing key reads as false. */
  function FullLlms(full: map<string, bool>): set<string> {
    set llm | llm in full && full[llm]
  }

  /** The last report about llm in one status listing. */
  function Reported(status: seq<Status>, llm: string): Option<bool> {
    if status == [] then None
    else
      var last := status[|status| - 1];
      if last.llm == llm then Some(last.full) else Reported(status[..|status| - 1], llm)
  }

  lemma FullExact(full: map<string, bool>)
    ensures forall llm :: llm in FullLlms(full) <==> llm in full && full[llm]
  {
  }

  lemma NothingReported()
    ensures forall llm :: Reported([], llm) == None
  {
  }

  lemma ReportedAppend(status: seq<Status>, st: Status)
    ensures forall llm :: Reported(status + [st], llm) == if llm == st.llm then Some(st.full) else Reported(status, llm)
  {
    assert (status + [st])[..|status|] == status;
  }

  /** The report at i is the last one about llm. */
  ghost predicate LastReport(status: seq<Status>, i: int, llm: string) {
    0 <= i < |status| && status[i].llm == llm && forall j :: i < j < |status| ==> status[j].llm != llm
  }

  lemma {:induction false} ReportedExact(status: seq<Status>, llm: string, b: bool)
    ensures Reported(status, llm) == Some(b) <==> exists i :: LastReport(status, i, llm) && status[i].full == b
  {
    if status != [] {
      var front, n := status[..|status| - 1], |status| - 1;
      ReportedExact(front, llm, b);
      if status[n].llm == llm {
        assert LastReport(status, n, llm);
      } else {
        assert forall i :: LastReport(front, i, llm) <==> LastReport(status, i, llm);
      }
    }
  }

  /** The events about one LLM, in order. */
  function About(events: seq<Event>, llm: string): seq<Event> {
    if events == [] then []
    else
      var front, last := About(events[..|events| - 1], llm), events[|events| - 1];
      if last.llm == llm then front + [last] else front
  }

  lemma AboutAppend(events: seq<Event>, e: Event, llm: string)
    ensures About(events + [e], llm) == About(events, llm) + if e.llm == llm then [e] else []
  {
    assert (events + [e])[..|events|] == events;
  }

  /** Waits and resumes strictly alternate, and the first is a wait. */
  predicate Alternates(events: seq<Event>) {
    forall i :: 0 <= i < |events| ==> (events[i].CeilingWait? <==> i % 2 == 0)
  }

  /** llm's events alternate, and they end in a wait exactly while it is on the list. */
  ghost predicate InStep(events: seq<Event>, llm: string, on: set<string>) {
    Alternates(About(events, llm)) && (llm in on <==> |About(events, llm)| % 2 == 1)
  }

  ghost predicate AllInStep(events: seq<Event>, on: set<string>) {
    forall llm :: InStep(events, llm, on)
  }

  /** How many events are about llm. */
  function Count(events: seq<Event>, llm: string): nat {
    |About(events, llm)|
  }

  function Toggled(on: set<string>, e: Event): set<string> {
    if e.CeilingWait? then on + {e.llm} else on - {e.llm}
  }

  lemma EmitOne(events: seq<Event>, e: Event, on: set<string>, llm: string)
    requires InStep(events, llm, on) && (e.CeilingWait? <==> e.llm !in on)
    ensures InStep(events + [e], llm, Toggled(on, e))
    ensures Count(events + [e], llm) == Count(events, llm) + (if e.llm == llm then 1 else 0)
  {
    AboutAppend(events, e, llm);
    hide About;
    assert About(events, llm) + [] == About(events, llm);
  }

  /** An event about an LLM whose state changes keeps every LLM in step. */
  lemma Emit(events: seq<Event>, e: Event, on: set<string>)
    requires AllInStep(events, on) && (e.CeilingWait? <==> e.llm !in on)
    ensures AllInStep(events + [e], Toggled(on, e))
    ensures forall llm :: Count(events + [e], llm) == Count(events, llm) + (if e.llm == llm then 1 else 0)
  {
    hide InStep, Count, Toggled;
    forall llm
      ensures InStep(events + [e], llm, Toggled(on, e))
      ensures Count(events + [e], llm) == Count(events, llm) + (if e.llm == llm then 1 else 0)
    {
      assert InStep(events, llm, on);
      EmitOne(events, e, on, llm);
    }
  }

  /** One more event per LLM that entered or left the list, none for the others. */
  ghost predicate OnePerChange(before: seq<Event>, events: seq<Event>, wasOn: set<string>, on: set<string>) {
    forall llm :: Count(events, llm) == Count(before, llm) + (if llm in wasOn <==> llm in on then 0 else 1)
  }

  lemma NothingChanged(events: seq<Event>, on: set<string>)
    ensures OnePerChange(events, events, on, on)
  {
  }

  /** Changes of LLMs that had not changed yet add up. */
  lemma MoreChanges(start: seq<Event>, was: seq<Event>, now: seq<Event>, first: set<string>, before: set<string>,
                    after: set<string>)
    requires OnePerChange(start, was, first, before) && OnePerChange(was, now, before, after)
    requires forall llm :: (llm in first <==> llm in before) || (llm in before <==> llm in after)
    ensures OnePerChange(start, now, first, after)
  {
    hide Count;
  }

  predicate DistinctLlms(status: seq<Status>) {
    forall i, j :: 0 <= i < j < |status| ==> status[i].llm != status[j].llm
  }

  class Auditor {
    var full: map<string, bool>
    var events: seq<Event>

    ghost predicate Valid()
      reads this
    {
      AllInStep(events, FullLlms(full))
    }

    constructor ()
      ensures Valid() && full == map[] && events == []
    {
      full, events := map[], [];
    }

    /**
     One tick. Over any run of ticks Valid says that each LLM's events strictly
     alternate starting with a wait; after each tick the map is true for exactly
     the LLMs reported full, and a listing that names each LLM once yields one
     event per LLM whose state changed and none for the others.
     */
    method Tick(status: seq<Status>)
      requires Valid()
      modifies this
      ensures Valid() && old(events) <= events
      ensures forall llm :: llm in full && full[llm] <==>
                exists i :: LastReport(status, i, llm) && status[i].full
      ensures DistinctLlms(status) ==> OnePerChange(old(events), events, FullLlms(old(full)), FullLlms(full))
    {
      hide AllInStep, Count, Reported, OnePerChange, FullLlms;
      NothingReported();
      NothingChanged(events, FullLlms(full));
      var seen: set<string> := {};
      for i := 0 to |status|
        invariant Valid() && old(events) <= events
        invariant forall llm :: llm in seen <==> Reported(status[..i], llm).Some?
        invariant forall llm :: llm in seen ==> Reported(status[..i], llm) == Some(llm in FullLlms(full))
        invariant forall llm :: llm !in seen ==> (llm in FullLlms(full) <==> llm in FullLlms(old(full)))
        invariant forall llm :: llm in seen ==> exists j :: 0 <= j < i && status[j].llm == llm
        invariant DistinctLlms(status) ==> OnePerChange(old(events), events, FullLlms(old(full)), FullLlms(full))
      {
        var st := status[i];
        ghost var was, on := events, FullLlms(full);
        assert status[..i + 1] == status[..i] + [st];
        ReportedAppend(status[..i], st);
        assert DistinctLlms(status) ==> st.llm !in seen;
        seen := seen + {st.llm};
        Note(st);
        if DistinctLlms(status) {
          MoreChanges(old(events), was, events, FullLlms(old(full)), on, FullLlms(full));
        }
      }
      assert status[..|status|] == status;
      ghost var was, on := events, FullLlms(full);
      DropUnseen(seen);
      if DistinctLlms(status) {
        MoreChanges(old(events), was, events, FullLlms(old(full)), on, FullLlms(full));
      }
      FullExact(full);
      forall llm { ReportedExact(status, llm, true); }
    }

    /** One reported LLM: an event exactly if its state changed. */
    method Note(st: Status)
      requires Valid()
      modifies this
      ensures Valid() && old(events) <= events
      ensures forall llm :: llm in FullLlms(full) <==> if llm == st.llm then st.full else llm in FullLlms(old(full))
      ensures OnePerChange(old(events), events, FullLlms(old(full)), FullLlms(full))
    {
      hide AllInStep, Count;
      if st.full == (st.llm in full && full[st.llm]) {
        return;
      }
      var e := if st.full then CeilingWait(st.llm) else WindowResumed(st.llm);
      Emit(events, e, FullLlms(full));
      assert FullLlms(full[st.llm := st.full]) == Toggled(FullLlms(full), e);
      full := full[st.llm := st.full];
      events := events + [e];
    }

    /** The first loop: unseen LLMs leave the map; those that were full are listed. */
    method TakeUnseen(seen: set<string>) returns (gone: seq<string>)
      modifies this`full
      ensures full == map k | k in old(full) && k in seen :: old(full)[k]
      ensures forall llm :: llm in gone <==> llm in FullLlms(old(full)) - seen
      ensures forall i, j :: 0 <= i < j < |gone| ==> gone[i] != gone[j]
    {
      gone := [];
      var keys := full.Keys;
      ghost var before := full;
      while keys != {}
        invariant keys <= before.Keys
        invariant full == map k | k in before && (k in keys || k in seen) :: before[k]
        invariant forall llm :: llm in gone <==> llm in FullLlms(before) - keys - seen
        invariant forall i, j :: 0 <= i < j < |gone| ==> gone[i] != gone[j]
        decreases keys
      {
        NonEmpty(keys);
        var llm :| llm in keys;
        assert llm !in gone;
        keys := keys - {llm};
        if llm !in seen {
          if full[llm] {
            gone := gone + [llm];
          }
          full := full - {llm};
        }
      }
    }

    /** The second loop: one event for each name, in order. */
    method Resume(names: seq<string>, ghost on: set<string>)
      requires AllInStep(events, on) && forall i :: 0 <= i < |names| ==> names[i] in on
      requires forall i, j :: 0 <= i < j < |names| ==> names[i] != names[j]
      modifies this`events
      ensures AllInStep(events, on - set n | n in names)
      ensures events == old(events) + Resumes(names)
      ensures forall llm :: Count(events, llm) == Count(old(events), llm) + if llm in names then 1 else 0
    {
      hide AllInStep, Count, Resumes;
      ghost var now := on;
      assert Resumes(names[..0]) == [] by { ResumesNone(); }
      assert old(events) + [] == old(events);
      for i := 0 to |names|
        invariant now == on - set n | n in names[..i]
        invariant AllInStep(events, now) && events == old(events) + Resumes(names[..i])
        invariant forall llm :: Count(events, llm) == Count(old(events), llm) + if llm in names[..i] then 1 else 0
      {
        var e := WindowResumed(names[i]);
        assert names[..i + 1] == names[..i] + [names[i]];
        assert names[i] !in names[..i];
        Emit(events, e, now);
        ResumesAppend(names[..i], names[i]);
        Associate(old(events), Resumes(names[..i]), [e]);
        now := Toggled(now, e);
        events := events + [e];
      }
      assert names[..|names|] == names;
    }

    /** The second half of a tick: LLMs no longer reported are dropped, and resume in name order if they were full. */
    method DropUnseen(seen: set<string>)
      requires Valid()
      modifies this
      ensures Valid() && old(events) <= events
      ensures FullLlms(full) == FullLlms(old(full)) * seen
      ensures OnePerChange(old(events), events, FullLlms(old(full)), FullLlms(full))
      ensures forall i :: |old(events)| <= i < |events| ==> events[i].WindowResumed?
      ensures forall i, j :: |old(events)| <= i < j < |events| ==> AtMost(events[i].llm, events[j].llm)
    {
      hide AllInStep, Count, AtMost;
      ghost var on := FullLlms(full);
      var gone := TakeUnseen(seen);
      var sorted := Sort(gone, AtMost);
      SortKeepsDistinct(gone, sorted);
      SortedNames(gone);
      assert forall i :: 0 <= i < |sorted| ==> sorted[i] in sorted && sorted[i] in gone;
      Resume(sorted, on);
      assert on - (set n | n in sorted) == FullLlms(full);
    }
  }

  function Resumes(names: seq<string>): (r: seq<Event>)
    ensures |r| == |names| && forall i :: 0 <= i < |names| ==> r[i] == WindowResumed(names[i])
  {
    seq(|names|, i requires 0 <= i < |names| => WindowResumed(names[i]))
  }

  lemma ResumesNone()
    ensures Resumes([]) == []
  {
  }

  lemma ResumesAppend(names: seq<string>, n: string)
    ensures Resumes(names + [n]) == Resumes(names) + [WindowResumed(n)]
  {
  }

  lemma SortedNames(s: seq<string>)
    ensures forall i, j :: 0 <= i < j < |Sort(s, AtMost)| ==> AtMost(Sort(s, AtMost)[i], Sort(s, AtMost)[j])
  {
    StringsInOrder();
    SortSorts(s, AtMost);
  }

  lemma SortKeepsDistinct(s: seq<string>, r: seq<string>)
    requires r == Sort(s, AtMost) && forall i, j :: 0 <= i < j < |s| ==> s[i] != s[j]
    ensures forall x :: x in r <==> x in s
    ensures forall i, j :: 0 <= i < j < |r| ==> r[i] != r[j]
  {
    StringsInOrder();
    SortSorts(s, AtMost);
    assert forall x :: x in r <==> x in multiset(r);
    assert forall x :: x in s <==> x in multiset(s);
    Multiplicity(s);
    DistinctFromMultiset(r);
  }

  lemma {:induction false} Multiplicity(s: seq<string>)
    requires forall i, j :: 0 <= i < j < |s| ==> s[i] != s[j]
    ensures forall x :: multiset(s)[x] <= 1
  {
    if s != [] {
      var front, last := s[..|s| - 1], s[|s| - 1];
      assert s == front + [last];
      Multiplicity(front);
      assert last !in front && last !in multiset(front);
    }
  }

  lemma {:induction false} DistinctFromMultiset(s: seq<string>)
    requires forall x :: multiset(s)[x] <= 1
    ensures forall i, j :: 0 <= i < j < |s| ==> s[i] != s[j]
  {
    if s != [] {
      var front, last := s[..|s| - 1], s[|s| - 1];
      assert s == front + [last];
      assert forall x :: multiset(front)[x] <= multiset(s)[x];
      assert multiset(front)[last] == 0 && last !in front;
      DistinctFromMultiset(front);
    }
  }
}

module LongWaitAlerts {

  datatype Waiter = Waiter(holder: string, waited: int)
  datatype Alert = Alert(tick: nat, holder: string)

  const THRESHOLD_SECONDS := 1800

  predicate Waits(waiting: seq<Waiter>, holder: string) {
    exists w :: w in waiting && w.holder == holder
  }

  predicate Overdue(waiting: seq<Waiter>, holder: string) {
    exists w :: w in waiting && w.holder == holder && w.waited >= THRESHOLD_SECONDS
  }

  /** Every tick from `from` on saw the holder waiting. */
  ghost predicate WaitsSince(history: seq<seq<Waiter>>, holder: string, from: nat) {
    forall k :: from <= k < |history| ==> Waits(history[k], holder)
  }

  /** Between the two ticks lies one at which the holder was not waiting. */
  ghost predicate Apart(history: seq<seq<Waiter>>, a: Alert, b: Alert) {
    exists k :: a.tick < k < b.tick && k < |history| && !Waits(history[k], a.holder)
  }

  /** The marks and the alerts raised fit the waiting lists seen so far. */
  ghost predicate Consistent(history: seq<seq<Waiter>>, alerted: set<string>, alerts: seq<Alert>) {
    && (forall a :: a in alerts ==> a.tick < |history| && Overdue(history[a.tick], a.holder))
    && (forall h :: h in alerted ==> exists a :: a in alerts && a.holder == h && WaitsSince(history, h, a.tick))
    && (forall a :: a in alerts && a.holder !in alerted ==> Lapsed(history, a))
    && (forall i, j :: 0 <= i < j < |alerts| && alerts[i].holder == alerts[j].holder ==>
          Apart(history, alerts[i], alerts[j]))
  }

  /** A tick after the alert saw its holder not waiting. */
  ghost predicate Lapsed(history: seq<seq<Waiter>>, a: Alert) {
    exists k :: a.tick < k < |history| && !Waits(history[k], a.holder)
  }

  class Alerter {
    var alerted: set<string>
    ghost var alerts: seq<Alert>           // the alerts raised, each with the tick that raised it
    ghost var history: seq<seq<Waiter>>    // the waiting lists of the ticks so far

    ghost predicate Valid()
      reads this
    {
      Consistent(history, alerted, alerts)
    }

    constructor ()
      ensures Valid() && alerted == {} && alerts == [] && history == []
    {
      alerted, alerts, history := {}, [], [];
    }

    /**
     One tick over the ledger's waiting list. Over any run, two alerts for one
     holder are separated by a tick at which it was not waiting, and a holder is
     alerted at a tick exactly when it is overdue then and not alerted already.
     */
    method Tick(waiting: seq<Waiter>)
      requires Valid()
      modifies this
      ensures Valid() && history == old(history) + [waiting] && old(alerts) <= alerts
      ensures forall h :: Alert(|old(history)|, h) in alerts <==>
                h !in old(alerted) && exists w :: w in waiting && w.holder == h && w.waited >= 30 * 60
      ensures forall h :: h in alerted <==>
                exists w :: w in waiting && w.holder == h && (h in old(alerted) || w.waited >= 30 * 60)
    {
      assert forall a :: a in alerts ==> a.tick < |history|;
      hide Consistent, Waits, Overdue;
      var seen: set<string> := {};
      ghost var now, marked, before := |history|, alerted, alerts;
      NobodyWaits();
      for i := 0 to |waiting|
        invariant history == old(history) && before <= alerts
        invariant forall h :: h in seen <==> Waits(waiting[..i], h)
        invariant forall h :: h in alerted <==> h in marked || Overdue(waiting[..i], h)
        invariant NewAlerts(now, marked, alerted, before, alerts)
      {
        var w := waiting[i];
        assert waiting[..i + 1] == waiting[..i] + [w];
        OneMoreWaiter(waiting[..i], w);
        seen := seen + {w.holder};
        if w.waited >= THRESHOLD_SECONDS && w.holder !in alerted {
          RaiseAlert(now, marked, alerted, before, alerts, w.holder);
          alerted := alerted + {w.holder};
          alerts := alerts + [Alert(now, w.holder)];
        }
      }
      assert waiting[..|waiting|] == waiting;
      ghost var raised := alerted;
      alerted := alerted * seen;
      WaitingIfOverdue(waiting);
      KeepsConsistent(history, waiting, marked, before, raised, alerted, alerts);
      AlertsOfTick(now, marked, raised, before, alerts);
      WaitsExact(waiting);
      history := history + [waiting];
    }
  }

  lemma NobodyWaits()
    ensures forall h :: !Waits([], h) && !Overdue([], h)
  {
  }

  lemma WaitsExact(waiting: seq<Waiter>)
    ensures forall h :: Overdue(waiting, h) <==> exists w :: w in waiting && w.holder == h && w.waited >= 30 * 60
    ensures forall h :: Waits(waiting, h) <==> exists w :: w in waiting && w.holder == h
  {
  }

  lemma WaitingIfOverdue(waiting: seq<Waiter>)
    ensures forall h :: Overdue(waiting, h) ==> Waits(waiting, h)
  {
  }

  lemma OneMoreWaiter(waiting: seq<Waiter>, w: Waiter)
    ensures forall h :: Waits(waiting + [w], h) <==> Waits(waiting, h) || h == w.holder
    ensures forall h :: Overdue(waiting + [w], h) <==>
        Overdue(waiting, h) || (h == w.holder && w.waited >= THRESHOLD_SECONDS)
  {
    assert forall x :: x in waiting + [w] <==> x in waiting || x == w;
  }

  /** Exactly one alert was added for each holder newly marked, all at this tick. */
  ghost predicate NewAlerts(now: nat, marked: set<string>, alerted: set<string>, before: seq<Alert>,
                            alerts: seq<Alert>)
  {
    && |before| <= |alerts|
    && (forall j :: |before| <= j < |alerts| ==>
          alerts[j].tick == now && alerts[j].holder !in marked && alerts[j].holder in alerted)
    && (forall h :: h in alerted && h !in marked ==> Alert(now, h) in alerts)
    && (forall j, k :: |before| <= j < k < |alerts| ==> alerts[j].holder != alerts[k].holder)
  }

  lemma RaiseAlert(now: nat, marked: set<string>, alerted: set<string>, before: seq<Alert>, alerts: seq<Alert>,
                   h: string)
    requires NewAlerts(now, marked, alerted, before, alerts) && h !in alerted && marked <= alerted
    ensures NewAlerts(now, marked, alerted + {h}, before, alerts + [Alert(now, h)])
  {
    var more := alerts + [Alert(now, h)];
    assert more[|alerts|] == Alert(now, h);
    assert forall a :: a in alerts ==> a in more;
  }

  lemma AlertsOfTick(now: nat, marked: set<string>, raised: set<string>, before: seq<Alert>, alerts: seq<Alert>)
    requires NewAlerts(now, marked, raised, before, alerts) && before <= alerts
    requires forall a :: a in before ==> a.tick < now
    ensures forall h :: Alert(now, h) in alerts <==> h in raised && h !in marked
  {
    assert forall j :: 0 <= j < |before| ==> before[j] in before && alerts[j] == before[j];
    forall h | Alert(now, h) in alerts ensures h in raised && h !in marked {
      var j :| 0 <= j < |alerts| && alerts[j] == Alert(now, h);
      assert j >= |before|;
    }
  }

  /** The alerts and marks after a tick, from those before it. */
  lemma KeepsConsistent(history: seq<seq<Waiter>>, waiting: seq<Waiter>, marked: set<string>, before: seq<Alert>,
                        raised: set<string>, alerted: set<string>, alerts: seq<Alert>)
    requires Consistent(history, marked, before) && before <= alerts
    requires NewAlerts(|history|, marked, raised, before, alerts)
    requires forall h :: h in raised <==> h in marked || Overdue(waiting, h)
    requires forall h :: h in alerted <==> h in raised && Waits(waiting, h)
    ensures Consistent(history + [waiting], alerted, alerts)
  {
    var after := history + [waiting];
    WaitingIfOverdue(waiting);
    hide Waits, Overdue;
    forall a | a in alerts
      ensures a.tick < |after| && Overdue(after[a.tick], a.holder) && (a.holder !in alerted ==> Lapsed(after, a))
    {
      AlertKept(history, waiting, marked, before, raised, alerted, alerts, a);
    }
    forall h | h in alerted ensures exists a :: a in alerts && a.holder == h && WaitsSince(after, h, a.tick) {
      if h in marked {
        var a :| a in before && a.holder == h && WaitsSince(history, h, a.tick);
        assert a in alerts;
      } else {
        assert WaitsSince(after, h, Alert(|history|, h).tick);
      }
    }
    forall i, j | 0 <= i < j < |alerts| && alerts[i].holder == alerts[j].holder
      ensures Apart(after, alerts[i], alerts[j])
    {
      assert i < |before| && alerts[i] == before[i] && before[i] in before;
      var k;
      if j < |before| {
        assert Apart(history, before[i], before[j]);
        k :| before[i].tick < k < before[j].tick && k < |history| && !Waits(history[k], before[i].holder);
      } else {
        assert Lapsed(history, before[i]);
        k :| before[i].tick < k < |history| && !Waits(history[k], before[i].holder);
      }
      assert after[k] == history[k];
    }
  }

  lemma AlertKept(history: seq<seq<Waiter>>, waiting: seq<Waiter>, marked: set<string>, before: seq<Alert>,
                  raised: set<string>, alerted: set<string>, alerts: seq<Alert>, a: Alert)
    requires Consistent(history, marked, before) && before <= alerts
    requires NewAlerts(|history|, marked, raised, before, alerts)
    requires forall h :: h in raised <==> h in marked || Overdue(waiting, h)
    requires forall h :: h in alerted <==> h in raised && Waits(waiting, h)
    requires a in alerts
    ensures var after := history + [waiting];
      a.tick < |after| && Overdue(after[a.tick], a.holder) && (a.holder !in alerted ==> Lapsed(after, a))
  {
    var after := history + [waiting];
    WaitingIfOverdue(waiting);
    hide Waits, Overdue;
    assert after[|history|] == waiting;
    var i :| 0 <= i < |alerts| && alerts[i] == a;
    if i < |before| {
      assert a in before && after[a.tick] == history[a.tick];
      if a.holder !in alerted && a.holder !in marked {
        assert Lapsed(history, a);
        var k :| a.tick < k < |history| && !Waits(history[k], a.holder);
        assert after[k] == history[k];
      }
    }
  }
}
