/**
 Active time in the status report (scripts/v10-status.py): stretches without
 task activity, and explicit windows, are merged and taken out of the clock.

 Times are integer instants (microseconds, the resolution of Python's
 datetime); a window covers the instants from its start up to its end.
 */
module ActiveHours {
  import opened Basics
  import opened Encoding

  datatype Window = Window(start: int, end: int, kind: string)

  // active_hours never reports less than 0.1 hours.
  const FLOOR := 360_000_000

  predicate Covers(w: Window, t: int) {
    w.start <= t < w.end
  }

  /** t lies in one of the windows. */
  ghost predicate Covered(ws: seq<Window>, t: int) {
    exists w :: w in ws && Covers(w, t)
  }

  predicate Proper(ws: seq<Window>) {
    forall w :: w in ws ==> w.start <= w.end
  }

  /** In time order, with a gap of at least one instant between neighbours. */
  predicate Separated(ws: seq<Window>) {
    forall i, j :: 0 <= i < j < |ws| ==> ws[i].end < ws[j].start
  }

  predicate EarlierStart(a: Window, b: Window) {
    a.start <= b.start
  }

  predicate Earlier(a: int, b: int) {
    a <= b
  }

  // ---- Building the windows ----

  /** Stretches of at least gap without an event, then the explicit windows that are not empty. */
  method BuildWindows(events: seq<int>, gap: int, explicit: seq<Window>) returns (ws: seq<Window>)
    ensures Proper(ws)
    ensures forall t :: Covered(ws, t) <==> Covered(explicit, t) || InGap(events, gap, t)
    ensures forall w :: w in ws ==> w in explicit || (w.kind == "inactive" && w.start in events && w.end in events)
  {
    var evs := Sort(events, Earlier);
    SortSorts(events, Earlier);
    SameMembers(events, evs);
    ws := Stretches(evs, gap);
    GapsAreStretches(events, evs, gap, ws);
    assert forall w :: w in ws ==> w.kind == "inactive" && w.start in evs && w.end in evs;
    hide Sort, Sorted, InGap;
    ghost var gaps := ws;
    for i := 0 to |explicit|
      invariant Proper(ws)
      invariant forall w :: w in ws ==>
                  w in explicit || (w.kind == "inactive" && w.start in events && w.end in events)
      invariant forall t :: Covered(ws, t) <==> Covered(gaps, t) || Covered(explicit[..i], t)
    {
      var w := explicit[i];
      assert explicit[..i + 1] == explicit[..i] + [w];
      CoveredAppend(explicit[..i], w);
      CoveredAppend(ws, w);
      if w.end > w.start {
        ws := ws + [w];
      }
    }
    assert explicit[..|explicit|] == explicit;
  }

  /** The pairs of neighbouring events that are at least gap apart. */
  method Stretches(evs: seq<int>, gap: int) returns (ws: seq<Window>)
    requires Sorted(evs, Earlier)
    ensures Proper(ws)
    ensures forall w :: w in ws <==> exists k :: 0 <= k < |evs| - 1 && w == Stretch(evs, k) && w.end - w.start >= gap
  {
    ws := [];
    for i := 0 to Max(|evs| - 1, 0)
      invariant Proper(ws)
      invariant forall w :: w in ws <==> exists k :: 0 <= k < i && w == Stretch(evs, k) && w.end - w.start >= gap
    {
      assert Earlier(evs[i], evs[i + 1]);
      if evs[i + 1] - evs[i] >= gap {
        ws := ws + [Stretch(evs, i)];
      }
    }
  }

  function Stretch(evs: seq<int>, k: int): Window
    requires 0 <= k < |evs| - 1
  {
    Window(evs[k], evs[k + 1], "inactive")
  }

  /** a and b are events at least gap apart with none in between. */
  ghost predicate IsGap(events: seq<int>, gap: int, a: int, b: int) {
    a in events && b in events && a < b && b - a >= gap && forall e :: e in events ==> e <= a || b <= e
  }

  /** t lies in such a gap. */
  ghost predicate InGap(events: seq<int>, gap: int, t: int) {
    exists a, b :: IsGap(events, gap, a, b) && a <= t < b
  }

  lemma CoveredAppend(ws: seq<Window>, w: Window)
    ensures forall t :: Covered(ws + [w], t) <==> Covered(ws, t) || Covers(w, t)
  {
    assert forall x :: x in ws + [w] <==> x in ws || x == w;
  }

  lemma GapsAreStretches(events: seq<int>, evs: seq<int>, gap: int, ws: seq<Window>)
    requires Sorted(evs, Earlier) && forall x :: x in events <==> x in evs
    requires forall w :: w in ws <==> exists k :: 0 <= k < |evs| - 1 && w == Stretch(evs, k) && w.end - w.start >= gap
    ensures forall t :: Covered(ws, t) <==> InGap(events, gap, t)
  {
    forall t ensures Covered(ws, t) <==> InGap(events, gap, t) {
      if w :| w in ws && Covers(w, t) {
        StretchIsGap(events, evs, gap, ws, w);
      }
      if a, b :| IsGap(events, gap, a, b) && a <= t < b {
        GapIsStretch(events, evs, gap, a, b, ws);
        assert Covers(Window(a, b, "inactive"), t);
      }
    }
  }

  lemma StretchIsGap(events: seq<int>, evs: seq<int>, gap: int, ws: seq<Window>, w: Window)
    requires Sorted(evs, Earlier) && forall x :: x in events <==> x in evs
    requires exists k :: 0 <= k < |evs| - 1 && w == Stretch(evs, k) && w.end - w.start >= gap
    ensures w.start < w.end ==> IsGap(events, gap, w.start, w.end)
  {
    var k :| 0 <= k < |evs| - 1 && w == Stretch(evs, k) && w.end - w.start >= gap;
    assert evs[k] in evs && evs[k + 1] in evs;
    forall e | e in events ensures e <= w.start || w.end <= e {
      var m :| 0 <= m < |evs| && evs[m] == e;
      assert m < k ==> Earlier(evs[m], evs[k]);
      assert m > k + 1 ==> Earlier(evs[k + 1], evs[m]);
    }
  }

  lemma GapIsStretch(events: seq<int>, evs: seq<int>, gap: int, a: int, b: int, ws: seq<Window>)
    requires Sorted(evs, Earlier) && forall x :: x in events <==> x in evs
    requires forall w :: w in ws <==> exists k :: 0 <= k < |evs| - 1 && w == Stretch(evs, k) && w.end - w.start >= gap
    requires IsGap(events, gap, a, b)
    ensures Window(a, b, "inactive") in ws
  {
    var k := LastIndex(evs, a);
    assert evs[k + 1] in evs;
    var m :| 0 <= m < |evs| && evs[m] == b;
    assert m > k;
    assert m == k + 1 || Earlier(evs[k + 1], evs[m]);
    assert Window(a, b, "inactive") == Stretch(evs, k);
  }

  /** The last position of a, which is not the largest element. */
  lemma LastIndex(evs: seq<int>, a: int) returns (k: nat)
    requires Sorted(evs, Earlier) && a in evs && exists b :: b in evs && a < b
    ensures k < |evs| - 1 && evs[k] == a < evs[k + 1]
  {
    k :| 0 <= k < |evs| && evs[k] == a;
    var b :| b in evs && a < b;
    var m :| 0 <= m < |evs| && evs[m] == b;
    assert k < m;
    while evs[k + 1] == a
      invariant k < m && evs[k] == a
      decreases m - k
    {
      k := k + 1;
    }
    assert Earlier(evs[k], evs[k + 1]);
  }

  // ---- Merging ----

  /** What merging keeps: the same instants as the windows done so far, separated. */
  ghost predicate MergeInv(merged: seq<Window>, done: seq<Window>) {
    && Proper(merged) && Separated(merged)
    && (forall t :: Covered(merged, t) <==> Covered(done, t))
    && (forall m :: m in merged ==> HasSource(done, m))
  }

  /** The start and label of m come from one window, its end from one as well. */
  ghost predicate HasSource(done: seq<Window>, m: Window) {
    (exists w :: w in done && w.start == m.start && w.kind == m.kind) && (exists w :: w in done && w.end == m.end)
  }

  lemma SourceKept(done: seq<Window>, w: Window, m: Window)
    ensures HasSource(done, m) ==> HasSource(done + [w], m)
    ensures HasSource(done + [w], w)
    ensures HasSource(done, m) ==> HasSource(done + [w], Window(m.start, Max(m.end, w.end), m.kind))
  {
    assert forall x :: x in done + [w] <==> x in done || x == w;
  }

  /** A window that starts within the last merged one is absorbed by it. */
  lemma Absorb(merged: seq<Window>, done: seq<Window>, w: Window)
    requires MergeInv(merged, done) && merged != [] && w.start <= w.end
    requires merged[|merged| - 1].start <= w.start <= merged[|merged| - 1].end
    ensures var last := merged[|merged| - 1];
      MergeInv(merged[|merged| - 1 := Window(last.start, Max(last.end, w.end), last.kind)], done + [w])
  {
    var front, last := merged[..|merged| - 1], merged[|merged| - 1];
    var longer := Window(last.start, Max(last.end, w.end), last.kind);
    assert merged == front + [last] && merged[|merged| - 1 := longer] == front + [longer];
    hide Covered, Covers, HasSource, Proper, Separated;
    Lengthened(front, last, longer);
    AbsorbCover(front, last, longer, done, w);
    AbsorbSource(front, last, done, w);
  }

  lemma Lengthened(front: seq<Window>, last: Window, longer: Window)
    requires Proper(front + [last]) && Separated(front + [last])
    requires longer.start == last.start && last.end <= longer.end
    ensures Proper(front + [longer]) && Separated(front + [longer])
  {
    var before, after := front + [last], front + [longer];
    assert last == before[|front|] && last in before;
    assert forall m :: m in after ==> m in before || m == longer;
    assert forall i :: 0 <= i < |front| ==> before[i] == after[i];
  }

  lemma AbsorbCover(front: seq<Window>, last: Window, longer: Window, done: seq<Window>, w: Window)
    requires forall t :: Covered(front + [last], t) <==> Covered(done, t)
    requires last.start <= w.start <= last.end && w.start <= w.end
    requires longer.start == last.start && longer.end == Max(last.end, w.end)
    ensures forall t :: Covered(front + [longer], t) <==> Covered(done + [w], t)
  {
    CoveredAppend(front, last);
    CoveredAppend(front, longer);
    CoveredAppend(done, w);
    hide Covered;
  }

  lemma AbsorbSource(front: seq<Window>, last: Window, done: seq<Window>, w: Window)
    requires forall m :: m in front + [last] ==> HasSource(done, m)
    ensures forall m :: m in front + [Window(last.start, Max(last.end, w.end), last.kind)] ==> HasSource(done + [w], m)
  {
    hide HasSource;
    assert last in front + [last];
    forall m | m in front + [Window(last.start, Max(last.end, w.end), last.kind)] ensures HasSource(done + [w], m) {
      assert m in front ==> m in front + [last];
      SourceKept(done, w, m);
      SourceKept(done, w, last);
    }
  }

  /** A window that starts after the last merged one ends stands on its own. */
  lemma StandAlone(merged: seq<Window>, done: seq<Window>, w: Window)
    requires MergeInv(merged, done) && w.start <= w.end
    requires merged != [] ==> merged[|merged| - 1].end < w.start
    ensures MergeInv(merged + [w], done + [w])
  {
    CoveredAppend(merged, w);
    CoveredAppend(done, w);
    hide Covered, Covers, HasSource;
    forall k | 0 <= k < |merged| ensures merged[k].end < w.start {
      assert merged[|merged| - 1] in merged;
      assert k < |merged| - 1 ==> merged[k].end < merged[|merged| - 1].start;
    }
    assert Separated(merged + [w]);
    forall m | m in merged + [w] ensures HasSource(done + [w], m) {
      SourceKept(done, w, m);
    }
  }

  /** One turn of the merge loop. */
  method AddWindow(merged: seq<Window>, w: Window, ghost done: seq<Window>) returns (after: seq<Window>)
    requires MergeInv(merged, done) && w.start <= w.end
    requires merged != [] ==> merged[|merged| - 1].start <= w.start
    ensures MergeInv(after, done + [w])
    ensures after != [] && after[|after| - 1].start <= w.start
  {
    hide MergeInv;
    var last := |merged| - 1;
    if merged != [] && w.start <= merged[last].end {
      Absorb(merged, done, w);
      if w.end > merged[last].end {
        after := merged[last := Window(merged[last].start, w.end, merged[last].kind)];
      } else {
        after := merged;
        assert merged[last := Window(merged[last].start, merged[last].end, merged[last].kind)] == merged;
      }
    } else {
      StandAlone(merged, done, w);
      after := merged + [w];
    }
  }

  /** Merging covers exactly the same instants, sorted, with strict gaps; each result keeps its first window's label. */
  method Merge(windows: seq<Window>) returns (merged: seq<Window>)
    requires Proper(windows)
    ensures Proper(merged) && Separated(merged)
    ensures forall t :: Covered(merged, t) <==> Covered(windows, t)
    ensures forall m :: m in merged ==> exists w :: w in windows && w.start == m.start && w.kind == m.kind
    ensures forall m :: m in merged ==> exists w :: w in windows && w.end == m.end
  {
    var ws := Sort(windows, EarlierStart);
    SortByStart(windows, ws);
    merged := [];
    assert MergeInv([], ws[..0]);
    hide MergeInv, Covered, Separated, Sort, EarlierStart, Proper;
    ProperMember(windows);
    for i := 0 to |ws|
      invariant MergeInv(merged, ws[..i])
      invariant i < |ws| && merged != [] ==> merged[|merged| - 1].start <= ws[i].start
    {
      assert ws[i] in ws;
      PrefixStep(ws, i);
      merged := AddWindow(merged, ws[i], ws[..i]);
    }
    assert ws[..|ws|] == ws;
    MergeDone(merged, ws, windows);
  }

  lemma PrefixStep(ws: seq<Window>, i: nat)
    requires i < |ws|
    ensures ws[..i + 1] == ws[..i] + [ws[i]]
  {
  }

  lemma ProperMember(ws: seq<Window>)
    requires Proper(ws)
    ensures forall w :: w in ws ==> w.start <= w.end
  {
  }

  lemma SortByStart(windows: seq<Window>, ws: seq<Window>)
    requires ws == Sort(windows, EarlierStart)
    ensures forall w :: w in ws <==> w in windows
    ensures forall i, j :: 0 <= i < j < |ws| ==> ws[i].start <= ws[j].start
  {
    SortSorts(windows, EarlierStart);
    SameMembers(windows, ws);
    forall i, j | 0 <= i < j < |ws| ensures ws[i].start <= ws[j].start { assert EarlierStart(ws[i], ws[j]); }
  }

  lemma MergeDone(merged: seq<Window>, ws: seq<Window>, windows: seq<Window>)
    requires MergeInv(merged, ws) && forall w :: w in ws <==> w in windows
    ensures Proper(merged) && Separated(merged)
    ensures forall t :: Covered(merged, t) <==> Covered(windows, t)
    ensures forall m :: m in merged ==> exists w :: w in windows && w.start == m.start && w.kind == m.kind
    ensures forall m :: m in merged ==> exists w :: w in windows && w.end == m.end
  {
    assert forall t :: Covered(ws, t) <==> Covered(windows, t);
  }

  // ---- Measuring ----

  /** The instants from lo up to hi that a window covers. */
  ghost function CoveredIn(ws: seq<Window>, lo: int, hi: int): set<int> {
    set t | lo <= t < hi && Covered(ws, t)
  }

  /** The instants from lo up to hi that no window covers: active time. */
  ghost function ActiveIn(ws: seq<Window>, lo: int, hi: int): set<int> {
    set t | lo <= t < hi && !Covered(ws, t)
  }

  predicate Between(lo: int, t: int, hi: int) {
    lo <= t < hi
  }

  ghost function Span(lo: int, hi: int): set<int> {
    set t | lo <= t < hi && Between(lo, t, hi)
  }

  lemma {:induction false} SpanSize(lo: int, hi: int)
    ensures |Span(lo, hi)| == if lo <= hi then hi - lo else 0
    decreases hi - lo
  {
    if lo < hi {
      SpanSize(lo, hi - 1);
      assert Span(lo, hi) == Span(lo, hi - 1) + {hi - 1};
    } else {
      assert Span(lo, hi) == {};
    }
  }

  function Max(a: int, b: int): int {
    if a > b then a else b
  }

  function Min(a: int, b: int): int {
    if a < b then a else b
  }

  /** One more separated window adds exactly its overlap. */
  lemma OverlapAdds(ws: seq<Window>, i: nat, lo: int, hi: int)
    requires Proper(ws) && Separated(ws) && i < |ws|
    ensures |CoveredIn(ws[..i + 1], lo, hi)| ==
            |CoveredIn(ws[..i], lo, hi)| + Max(0, Min(ws[i].end, hi) - Max(ws[i].start, lo))
  {
    var before, overlap := CoveredIn(ws[..i], lo, hi), Span(Max(ws[i].start, lo), Min(ws[i].end, hi));
    assert ws[..i + 1] == ws[..i] + [ws[i]];
    CoveredInAppend(ws[..i], ws[i], lo, hi);
    SpanSize(Max(ws[i].start, lo), Min(ws[i].end, hi));
    EarlierWindowsEnd(ws, i, lo, hi);
    assert before !! overlap;
  }

  lemma CoveredInAppend(ws: seq<Window>, w: Window, lo: int, hi: int)
    ensures CoveredIn(ws + [w], lo, hi) == CoveredIn(ws, lo, hi) + Span(Max(w.start, lo), Min(w.end, hi))
  {
    CoveredAppend(ws, w);
  }

  lemma EarlierWindowsEnd(ws: seq<Window>, i: nat, lo: int, hi: int)
    requires Separated(ws) && i < |ws|
    ensures forall t :: t in CoveredIn(ws[..i], lo, hi) ==> t < ws[i].start
  {
    forall t | t in CoveredIn(ws[..i], lo, hi) ensures t < ws[i].start {
      var w :| w in ws[..i] && Covers(w, t);
      var k :| 0 <= k < i && ws[k] == w;
    }
  }

  lemma SplitSpan(ws: seq<Window>, lo: int, hi: int)
    ensures |CoveredIn(ws, lo, hi)| + |ActiveIn(ws, lo, hi)| == if lo <= hi then hi - lo else 0
  {
    SpanSize(lo, hi);
    assert Span(lo, hi) == CoveredIn(ws, lo, hi) + ActiveIn(ws, lo, hi);
    assert CoveredIn(ws, lo, hi) !! ActiveIn(ws, lo, hi);
  }

  /**
   The running total of active_hours over merged windows: from t0 to t1 it is
   exactly the number of instants no window covers, so it is never negative;
   the reported value is that, or the floor.
   */
  method ActiveTime(windows: seq<Window>, t0: int, t1: int) returns (active: int, total: int)
    requires Proper(windows) && Separated(windows)
    ensures t0 <= t1 ==> total == |ActiveIn(windows, t0, t1)|
    ensures t1 < t0 ==> total == t1 - t0
    ensures active == Max(total, FLOOR)
  {
    total := t1 - t0;
    assert windows[..0] == [];
    assert CoveredIn([], t0, t1) == {};
    for i := 0 to |windows|
      invariant total == t1 - t0 - |CoveredIn(windows[..i], t0, t1)|
    {
      var lo, hi := Max(windows[i].start, t0), Min(windows[i].end, t1);
      OverlapAdds(windows, i, t0, t1);
      if hi > lo {
        total := total - (hi - lo);
      }
    }
    assert windows[..|windows|] == windows;
    SplitSpan(windows, t0, t1);
    active := Max(total, FLOOR);
  }

  /** The excluded total over merged windows is the size of their union, within any bounds that hold them all. */
  method Excluded(windows: seq<Window>, ghost lo: int, ghost hi: int) returns (sum: int)
    requires Proper(windows) && Separated(windows)
    requires forall w :: w in windows ==> lo <= w.start && w.end <= hi
    ensures sum == |CoveredIn(windows, lo, hi)|
  {
    sum := 0;
    assert windows[..0] == [] && CoveredIn([], lo, hi) == {};
    for i := 0 to |windows|
      invariant sum == |CoveredIn(windows[..i], lo, hi)|
    {
      assert windows[i] in windows;
      OverlapAdds(windows, i, lo, hi);
      sum := sum + (windows[i].end - windows[i].start);
    }
    assert windows[..|windows|] == windows;
  }

  /** Active time is additive over adjacent intervals. */
  lemma ActiveAdds(ws: seq<Window>, t0: int, t1: int, t2: int)
    requires t0 <= t1 <= t2
    ensures |ActiveIn(ws, t0, t2)| == |ActiveIn(ws, t0, t1)| + |ActiveIn(ws, t1, t2)|
  {
    assert ActiveIn(ws, t0, t2) == ActiveIn(ws, t0, t1) + ActiveIn(ws, t1, t2);
    assert ActiveIn(ws, t0, t1) !! ActiveIn(ws, t1, t2);
  }

  /** The instants the report leaves out: gaps between events, and the explicit windows. */
  ghost predicate LeftOut(events: seq<int>, gap: int, explicit: seq<Window>, t: int) {
    Covered(explicit, t) || InGap(events, gap, t)
  }

  /**
   The report end to end, without a word about merging: active time is the
   number of instants of the interval that are not left out (or the floor, as
   for an interval that ends before it starts), and the excluded total is the
   number of instants that are, wherever they lie.
   */
  method Report(events: seq<int>, gap: int, explicit: seq<Window>, t0: int, t1: int, ghost lo: int, ghost hi: int)
      returns (active: int, excluded: int)
    requires forall e :: e in events ==> lo <= e <= hi
    requires forall w :: w in explicit ==> lo <= w.start && w.end <= hi
    ensures var n := |set t | t0 <= t < t1 && !LeftOut(events, gap, explicit, t)|;
      active == if n > 360_000_000 then n else 360_000_000
    ensures excluded == |set t | lo <= t < hi && LeftOut(events, gap, explicit, t)|
  {
    var ws := BuildWindows(events, gap, explicit);
    var merged := Merge(ws);
    var total;
    active, total := ActiveTime(merged, t0, t1);
    excluded := Excluded(merged, lo, hi);
    assert (set t | t0 <= t < t1 && !LeftOut(events, gap, explicit, t)) == ActiveIn(merged, t0, t1);
    assert (set t | lo <= t < hi && LeftOut(events, gap, explicit, t)) == CoveredIn(merged, lo, hi);
  }
}
