/**
 The clean-up passes after a merge (scripts/plans_registry_hygiene.py): headings
 over nothing are dropped and runs of blank lines collapsed. Which lines are
 blank and which are section headings (level two or deeper) is a parameter.
 */
module PlanCleanup {
  import opened Basics

  datatype Kinds = Kinds(blank: string -> bool, heading: string -> bool)

  predicate IsContent(k: Kinds, line: string) {
    !k.blank(line) && !k.heading(line)
  }

  /** The lines that are neither blank nor headings, in order: table rows among them. */
  function Content(k: Kinds, lines: seq<string>): seq<string> {
    if lines == [] then []
    else
      var front, last := Content(k, lines[..|lines| - 1]), lines[|lines| - 1];
      if IsContent(k, last) then front + [last] else front
  }

  lemma ContentAppend(k: Kinds, lines: seq<string>, l: string)
    ensures Content(k, lines + [l]) == Content(k, lines) + if IsContent(k, l) then [l] else []
  {
    assert (lines + [l])[..|lines|] == lines;
  }

  predicate BlankAt(k: Kinds, lines: seq<string>, i: int) {
    0 <= i < |lines| && k.blank(lines[i])
  }

  /** No two neighbouring lines are blank. */
  ghost predicate NoBlankRun(k: Kinds, lines: seq<string>) {
    forall i, j :: BlankAt(k, lines, i) && BlankAt(k, lines, j) ==> i + 1 != j
  }

  lemma NothingBlank(k: Kinds)
    ensures NoBlankRun(k, []) && forall lines :: !BlankAt(k, lines, -1)
    ensures Content(k, []) == []
  {
  }

  lemma BlankHere(k: Kinds, lines: seq<string>, i: nat)
    requires i < |lines|
    ensures BlankAt(k, lines, i) <==> k.blank(lines[i])
    ensures k.blank(lines[i]) ==> !IsContent(k, lines[i])
  {
  }

  lemma BlankPair(k: Kinds, lines: seq<string>, i: int)
    requires BlankAt(k, lines, i - 1) && BlankAt(k, lines, i)
    ensures !NoBlankRun(k, lines)
  {
  }

  lemma AppendNoRun(k: Kinds, out: seq<string>, l: string)
    requires NoBlankRun(k, out) && (k.blank(l) ==> !BlankAt(k, out, |out| - 1))
    ensures NoBlankRun(k, out + [l]) && (BlankAt(k, out + [l], |out|) <==> k.blank(l))
  {
    assert forall j :: BlankAt(k, out + [l], j) <==> BlankAt(k, out, j) || (j == |out| && k.blank(l));
  }

  /** A blank line goes when the line before it is blank too. */
  function Collapsed(k: Kinds, lines: seq<string>): seq<string> {
    if lines == [] then []
    else
      var n := |lines| - 1;
      var front := Collapsed(k, lines[..n]);
      if BlankAt(k, lines, n) && BlankAt(k, lines, n - 1) then front else front + [lines[n]]
  }

  lemma CollapsedStep(k: Kinds, lines: seq<string>, i: nat)
    requires i < |lines|
    ensures Collapsed(k, lines[..i + 1]) ==
            Collapsed(k, lines[..i]) + if BlankAt(k, lines, i) && BlankAt(k, lines, i - 1) then [] else [lines[i]]
  {
    var now := lines[..i + 1];
    assert now[..i] == lines[..i] && now[i] == lines[i] && (i > 0 ==> now[i - 1] == lines[i - 1]);
  }

  /** Line i and the line before it are blank. */
  predicate Repeats(k: Kinds, lines: seq<string>, i: nat) {
    0 < i < |lines| && k.blank(lines[i]) && k.blank(lines[i - 1])
  }

  /** Exactly the blank lines that follow a blank line go; the others stay, in order. */
  lemma {:induction false} CollapsedExact(k: Kinds, lines: seq<string>) returns (js: seq<nat>)
    ensures Picks(lines, js, Collapsed(k, lines))
    ensures forall i: nat :: i in js <==> i < |lines| && !Repeats(k, lines, i)
  {
    hide Picks, Collapsed;
    if lines == [] {
      js := [];
      NothingPicked();
      NothingCollapsed(k);
    } else {
      var n := |lines| - 1;
      var front := lines[..n];
      var ks := CollapsedExact(k, front);
      assert lines == front + [lines[n]] && lines[..n + 1] == lines;
      CollapsedStep(k, lines, n);
      PickOneMore(front, ks, Collapsed(k, front), lines[n]);
      js := if Repeats(k, lines, n) then ks else ks + [n];
      assert forall i: nat :: i < n ==> (Repeats(k, front, i) <==> Repeats(k, lines, i));
    }
  }

  lemma NothingCollapsed(k: Kinds)
    ensures Collapsed(k, []) == []
  {
  }

  lemma NothingPicked()
    ensures Picks<string>([], [], [])
  {
  }

  /** Runs of blank lines shrink to one; every other line stays, in order. */
  method CollapseBlankRuns(k: Kinds, lines: seq<string>) returns (out: seq<string>)
    ensures out == Collapsed(k, lines)
    ensures NoBlankRun(k, out) && Content(k, out) == Content(k, lines)
    ensures NoBlankRun(k, lines) ==> out == lines
  {
    out := [];
    var blank := 0;
    hide Content, NoBlankRun, Collapsed, BlankAt, IsContent;
    NothingCollapsed(k);
    NothingBlank(k);
    for i := 0 to |lines|
      invariant out == Collapsed(k, lines[..i])
      invariant NoBlankRun(k, out) && Content(k, out) == Content(k, lines[..i])
      invariant blank > 0 <==> BlankAt(k, lines, i - 1)
      invariant blank > 0 <==> BlankAt(k, out, |out| - 1)
      invariant NoBlankRun(k, lines) ==> out == lines[..i]
    {
      assert lines[..i + 1] == lines[..i] + [lines[i]];
      ContentAppend(k, lines[..i], lines[i]);
      ContentAppend(k, out, lines[i]);
      CollapsedStep(k, lines, i);
      BlankHere(k, lines, i);
      if k.blank(lines[i]) {
        blank := blank + 1;
        if blank > 1 {
          BlankPair(k, lines, i);
          continue;
        }
      } else {
        blank := 0;
      }
      AppendNoRun(k, out, lines[i]);
      out := out + [lines[i]];
    }
    assert lines[..|lines|] == lines;
  }

  // ---- Empty sections ----

  /** The lines from h up to e are a heading and nothing but blanks, and e is the next heading or the end. */
  ghost predicate EmptySection(k: Kinds, lines: seq<string>, h: int, e: int) {
    && 0 <= h < e <= |lines| && k.heading(lines[h])
    && (forall j :: h < j < e ==> k.blank(lines[j]) && !k.heading(lines[j]))
    && (e < |lines| ==> k.heading(lines[e]))
  }

  ghost predicate IsEmpty(k: Kinds, lines: seq<string>, h: int) {
    exists e :: EmptySection(k, lines, h, e)
  }

  ghost predicate InEmpty(k: Kinds, lines: seq<string>, h: int, x: int) {
    exists e :: EmptySection(k, lines, h, e) && h <= x < e
  }

  ghost predicate Dropped(k: Kinds, lines: seq<string>, x: int) {
    exists h, e :: EmptySection(k, lines, h, e) && h <= x < e
  }

  function Without(lines: seq<string>, drop: set<int>): seq<string> {
    if lines == [] then []
    else
      var n := |lines| - 1;
      var front := Without(lines[..n], drop);
      if n in drop then front else front + [lines[n]]
  }

  lemma WithoutAppend(front: seq<string>, l: string, drop: set<int>)
    ensures Without(front + [l], drop) == Without(front, drop) + if |front| in drop then [] else [l]
    ensures Without([], drop) == []
  {
    assert (front + [l])[..|front|] == front;
  }

  /** What is left is exactly the lines whose index is not dropped, in order. */
  lemma {:induction false} WithoutExact(lines: seq<string>, drop: set<int>) returns (js: seq<nat>)
    ensures Picks(lines, js, Without(lines, drop))
    ensures forall i: nat :: i in js <==> i < |lines| && i !in drop
  {
    hide Picks, Without;
    if lines == [] {
      js := [];
      NothingPicked();
      WithoutAppend(lines, "", drop);
    } else {
      var n := |lines| - 1;
      var front := lines[..n];
      var ks := WithoutExact(front, drop);
      assert lines == front + [lines[n]];
      WithoutAppend(front, lines[n], drop);
      PickOneMore(front, ks, Without(front, drop), lines[n]);
      js := if n in drop then ks else ks + [n];
    }
  }

  lemma {:induction false} ContentWithout(k: Kinds, lines: seq<string>, drop: set<int>)
    requires forall x :: x in drop && 0 <= x < |lines| ==> !IsContent(k, lines[x])
    ensures Content(k, Without(lines, drop)) == Content(k, lines)
  {
    if lines != [] {
      var n := |lines| - 1;
      ContentWithout(k, lines[..n], drop);
      ContentAppend(k, Without(lines[..n], drop), lines[n]);
    }
  }

  predicate InRange(from: int, x: int, to: int) {
    from <= x < to
  }

  function Range(from: int, to: int): set<int> {
    set x: int | from <= x < to && InRange(from, x, to)
  }

  ghost predicate HeadingList(k: Kinds, lines: seq<string>, hs: seq<nat>) {
    && (forall h :: h in hs <==> 0 <= h < |lines| && k.heading(lines[h]))
    && (forall i, j :: 0 <= i < j < |hs| ==> hs[i] < hs[j])
  }

  /** The heading lines, in order. */
  method Headings(k: Kinds, lines: seq<string>) returns (hs: seq<nat>)
    ensures HeadingList(k, lines, hs)
  {
    hs := [];
    for i := 0 to |lines|
      invariant forall h :: h in hs <==> 0 <= h < i && k.heading(lines[h])
      invariant forall a, b :: 0 <= a < b < |hs| ==> hs[a] < hs[b]
    {
      if k.heading(lines[i]) {
        assert forall a :: 0 <= a < |hs| ==> hs[a] in hs;
        hs := hs + [i];
      }
    }
  }

  method AllBlank(k: Kinds, lines: seq<string>, from: nat, to: nat) returns (r: bool)
    requires from <= to <= |lines|
    ensures r <==> forall j :: from <= j < to ==> k.blank(lines[j])
  {
    for j := from to to
      invariant forall i :: from <= i < j ==> k.blank(lines[i])
    {
      if !k.blank(lines[j]) {
        return false;
      }
    }
    return true;
  }

  /** The lines of the empty sections, and where each starts. */
  method MarkEmpty(k: Kinds, lines: seq<string>, hs: seq<nat>)
      returns (gone: set<int>, count: nat, ghost starts: set<int>)
    requires HeadingList(k, lines, hs)
    ensures forall x :: x in gone <==> GoneBy(k, lines, hs, x)
    ensures count == |starts| && forall h :: h in starts <==> h in hs && IsEmpty(k, lines, h)
  {
    gone, count, starts := {}, 0, {};
    hide IsEmpty, InEmpty, GoneBy, Range, HeadingList;
    NoneGone(k, lines);
    for p := 0 to |hs|
      invariant count == |starts|
      invariant forall h :: h in starts <==> h in hs[..p] && IsEmpty(k, lines, h)
      invariant forall x :: x in gone <==> GoneBy(k, lines, hs[..p], x)
    {
      SectionEnd(k, lines, hs, p);
      var h, e := hs[p], if p + 1 < |hs| then hs[p + 1] else |lines|;
      var empty := AllBlank(k, lines, h + 1, e);
      SectionMembers(k, lines, hs, p, e, empty);
      OneMoreSection(k, lines, hs[..p], gone, h, e, empty);
      assert hs[..p + 1] == hs[..p] + [h];
      if empty {
        gone := gone + Range(h, e);
        count, starts := count + 1, starts + {h};
      }
    }
    assert hs[..|hs|] == hs;
  }

  /** Drops exactly the empty sections, heading and blanks, and nothing else. */
  method RemoveEmptySections(k: Kinds, lines: seq<string>)
      returns (out: seq<string>, count: nat, ghost drop: set<int>, ghost starts: set<int>)
    ensures forall x :: x in drop <==> Dropped(k, lines, x)
    ensures count == |starts| && forall h :: h in starts <==> IsEmpty(k, lines, h)
    ensures out == Without(lines, drop) && Content(k, out) == Content(k, lines)
  {
    hide IsEmpty, GoneBy, Dropped, Content, Without, HeadingList;
    var hs := Headings(k, lines);
    var gone;
    gone, count, starts := MarkEmpty(k, lines, hs);
    drop := gone;
    DroppedFrom(k, lines, hs);
    ContentWithout(k, lines, drop);
    out := Compact(lines, gone);
  }

  lemma DroppedFrom(k: Kinds, lines: seq<string>, hs: seq<nat>)
    requires HeadingList(k, lines, hs)
    ensures forall h :: IsEmpty(k, lines, h) ==> h in hs
    ensures forall x :: Dropped(k, lines, x) <==> GoneBy(k, lines, hs, x)
    ensures forall x :: Dropped(k, lines, x) && 0 <= x < |lines| ==> !IsContent(k, lines[x])
  {
    forall x ensures Dropped(k, lines, x) <==> GoneBy(k, lines, hs, x) {
      if h, e :| EmptySection(k, lines, h, e) && h <= x < e {
        assert h in hs && InEmpty(k, lines, h, x);
      }
    }
  }

  ghost predicate GoneBy(k: Kinds, lines: seq<string>, hs: seq<nat>, x: int) {
    exists h :: h in hs && InEmpty(k, lines, h, x)
  }

  lemma NoneGone(k: Kinds, lines: seq<string>)
    ensures forall x :: !GoneBy(k, lines, [], x)
  {
  }

  lemma OneMoreSection(k: Kinds, lines: seq<string>, hs: seq<nat>, gone: set<int>, h: nat, e: nat, empty: bool)
    requires forall x :: x in gone <==> GoneBy(k, lines, hs, x)
    requires forall x :: InEmpty(k, lines, h, x) <==> empty && h <= x < e
    ensures forall x :: x in (if empty then gone + Range(h, e) else gone) <==> GoneBy(k, lines, hs + [h], x)
  {
    hide InEmpty;
    forall x ensures GoneBy(k, lines, hs + [h], x) <==> GoneBy(k, lines, hs, x) || InEmpty(k, lines, h, x) {
      assert h in hs + [h] && forall i :: i in hs + [h] <==> i in hs || i == h;
    }
    assert forall x :: x in Range(h, e) <==> h <= x < e && InRange(h, x, e);
  }

  lemma SectionMembers(k: Kinds, lines: seq<string>, hs: seq<nat>, p: nat, e: nat, empty: bool)
    requires HeadingList(k, lines, hs) && p < |hs| && e == if p + 1 < |hs| then hs[p + 1] else |lines|
    requires empty <==> forall j :: hs[p] < j < e ==> 0 <= j < |lines| && k.blank(lines[j])
    ensures (IsEmpty(k, lines, hs[p]) <==> empty) && forall q :: 0 <= q < p ==> hs[q] != hs[p]
    ensures forall x :: InEmpty(k, lines, hs[p], x) <==> empty && hs[p] <= x < e
  {
    SectionEnd(k, lines, hs, p);
    assert empty <==> EmptySection(k, lines, hs[p], e);
  }

  /** Between two neighbouring headings there is none. */
  lemma SectionEnd(k: Kinds, lines: seq<string>, hs: seq<nat>, p: nat)
    requires HeadingList(k, lines, hs) && p < |hs|
    ensures var e := if p + 1 < |hs| then hs[p + 1] else |lines|;
      && hs[p] < e <= |lines| && k.heading(lines[hs[p]]) && (e < |lines| ==> k.heading(lines[e]))
      && (forall j :: hs[p] < j < e ==> !k.heading(lines[j]))
      && (forall e' :: EmptySection(k, lines, hs[p], e') ==> e' == e)
  {
    var e := if p + 1 < |hs| then hs[p + 1] else |lines|;
    assert hs[p] in hs && (p + 1 < |hs| ==> hs[p + 1] in hs);
    assert forall q :: 0 <= q < |hs| ==> hs[q] <= hs[p] || e <= hs[q];
    assert forall j :: hs[p] < j < e ==> j !in hs;
  }

  /** The lines whose index is not dropped. */
  method Compact(lines: seq<string>, drop: set<int>) returns (out: seq<string>)
    ensures out == Without(lines, drop)
  {
    out := [];
    for i := 0 to |lines|
      invariant out == Without(lines[..i], drop)
    {
      assert lines[..i + 1][..i] == lines[..i];
      if i !in drop {
        out := out + [lines[i]];
      }
    }
    assert lines[..|lines|] == lines;
  }
}
