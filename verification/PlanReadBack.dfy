/**
 The merged plans registry read back (scripts/plans_registry_hygiene.py): when
 the file that a merge and its clean-up leave is parsed again, are its tables
 the merged ones, and are its row keys those of the file before?
 */
module PlanReadBack {
  import opened Basics
  import opened PlanTables
  import opened PlanDedupe
  import opened PlanMerge
  import opened PlanCleanup

  // ---- Where a deleted table leaves a joint ----

  /** The line that follows once the closed tables at the start are gone. */
  function NextLine(closed: Table -> bool, segs: seq<Segment>): Option<string> {
    if segs == [] then None
    else if IsClosed(closed, segs[0]) then NextLine(closed, segs[1..])
    else Some(Lines(segs[0])[0])
  }

  /** At i a row line outside the tables stands right before closed tables, and a separator right after them. */
  ghost predicate Joint(sx: Syntax, closed: Table -> bool, segs: seq<Segment>, i: int) {
    && 0 <= i < |segs| - 1 && segs[i].Plain? && sx.isRow(segs[i].line) && IsClosed(closed, segs[i + 1])
    && NextLine(closed, segs[i + 1..]).Some? && sx.isSep(NextLine(closed, segs[i + 1..]).value)
  }

  ghost predicate NoJoint(sx: Syntax, closed: Table -> bool, segs: seq<Segment>) {
    forall i :: !Joint(sx, closed, segs, i)
  }

  /** The merge deletes only tables after the first closed one, so only joints after it matter. */
  ghost predicate NoJointAfterFirst(sx: Syntax, closed: Table -> bool, segs: seq<Segment>) {
    forall h, i :: 0 <= h < i && h < |segs| && IsClosed(closed, segs[h]) ==> !Joint(sx, closed, segs, i)
  }

  lemma JointShift(sx: Syntax, closed: Table -> bool, segs: seq<Segment>, i: int)
    requires segs != [] && i > 0
    ensures Joint(sx, closed, segs, i) <==> Joint(sx, closed, segs[1..], i - 1)
  {
    hide NextLine;
    if 0 < i < |segs| - 1 {
      assert segs[1..][i - 1] == segs[i] && segs[1..][i] == segs[i + 1] && segs[1..][i..] == segs[i + 1..];
    }
  }

  // ---- First lines ----

  /** The text does not go on with a body row. */
  predicate BodyEnds(sx: Syntax, lines: seq<string>) {
    lines != [] ==> !IsBody(sx, lines[0])
  }

  lemma LinesStart(s: Segment, rest: seq<string>)
    ensures Lines(s) != [] && Lines(s) + rest != [] && (Lines(s) + rest)[0] == Lines(s)[0]
  {
  }

  /** After deletion the text goes on with the next line that stays. */
  lemma {:induction false} DropStart(closed: Table -> bool, segs: seq<Segment>)
    ensures var rest, next := Render(DropClosed(closed, segs)), NextLine(closed, segs);
      if next.None? then rest == [] else rest != [] && rest[0] == next.value
  {
    hide Lines;
    if segs != [] {
      DropStart(closed, segs[1..]);
      LinesStart(segs[0], Render(DropClosed(closed, segs[1..])));
      assert ([segs[0]] + DropClosed(closed, segs[1..]))[1..] == DropClosed(closed, segs[1..]);
    }
  }

  lemma {:induction false} DropEndsBody(sx: Syntax, closed: Table -> bool, segs: seq<Segment>)
    requires Canonical(sx, segs) && BodyEnds(sx, Render(segs))
    ensures BodyEnds(sx, Render(DropClosed(closed, segs)))
  {
    hide Lines;
    if segs != [] {
      if IsClosed(closed, segs[0]) {
        DropEndsBody(sx, closed, segs[1..]);
      } else {
        LinesStart(segs[0], Render(DropClosed(closed, segs[1..])));
        LinesStart(segs[0], Render(segs[1..]));
        assert ([segs[0]] + DropClosed(closed, segs[1..]))[1..] == DropClosed(closed, segs[1..]);
      }
    }
  }

  // ---- When the result parses back ----

  /** A line outside the tables that stood well before the deletion stands well after it unless it is a joint. */
  lemma PlainReads(sx: Syntax, closed: Table -> bool, segs: seq<Segment>)
    requires segs != [] && segs[0].Plain? && Canonical(sx, segs)
    ensures Reads(sx, segs[0], Render(DropClosed(closed, segs[1..]))) <==> !Joint(sx, closed, segs, 0)
  {
    var rest := segs[1..];
    DropStart(closed, rest);
    if rest != [] && !IsClosed(closed, rest[0]) {
      LinesStart(rest[0], Render(rest[1..]));
      assert rest[0] == segs[1];
    }
    hide Lines, Render, DropClosed, Canonical;
    assert |segs| > 1 ==> segs[1..][0] == segs[1];
  }

  /** Deleting closed tables leaves a text that parses back exactly when there is no joint. */
  lemma {:induction false} DropCanonical(sx: Syntax, closed: Table -> bool, segs: seq<Segment>)
    requires Canonical(sx, segs)
    ensures Canonical(sx, DropClosed(closed, segs)) <==> NoJoint(sx, closed, segs)
  {
    if segs != [] {
      DropCanonical(sx, closed, segs[1..]);
      NoJointStep(sx, closed, segs);
      if IsClosed(closed, segs[0]) {
        assert !Joint(sx, closed, segs, 0);
      } else {
        var rest := DropClosed(closed, segs[1..]);
        CanonicalCons(sx, segs[0], rest);
        if segs[0].Plain? {
          PlainReads(sx, closed, segs);
        } else {
          DropEndsBody(sx, closed, segs[1..]);
        }
      }
    }
  }

  lemma NoJointStep(sx: Syntax, closed: Table -> bool, segs: seq<Segment>)
    requires segs != []
    ensures NoJoint(sx, closed, segs) <==> !Joint(sx, closed, segs, 0) && NoJoint(sx, closed, segs[1..])
  {
    hide Joint;
    forall i | i > 0 ensures Joint(sx, closed, segs, i) <==> Joint(sx, closed, segs[1..], i - 1) {
      JointShift(sx, closed, segs, i);
    }
    forall i | i < 0 ensures !Joint(sx, closed, segs, i) { NoNegativeJoint(sx, closed, segs, i); }
    if !NoJoint(sx, closed, segs[1..]) {
      var i :| Joint(sx, closed, segs[1..], i);
      if i < 0 { NoNegativeJoint(sx, closed, segs[1..], i); }
      assert Joint(sx, closed, segs, i + 1);
    }
  }

  lemma NoNegativeJoint(sx: Syntax, closed: Table -> bool, segs: seq<Segment>, i: int)
    requires i < 0
    ensures !Joint(sx, closed, segs, i)
  {
  }

  lemma {:induction false} ClosedRowsAreBody(sx: Syntax, closed: Table -> bool, segs: seq<Segment>)
    requires Canonical(sx, segs)
    ensures forall r :: r in ClosedRows(closed, segs) ==> IsBody(sx, r)
  {
    if segs != [] {
      ClosedRowsAreBody(sx, closed, segs[1..]);
    }
  }

  /** Merging does not touch the first line of the file. */
  lemma MergedStart(sx: Syntax, closed: Table -> bool, segs: seq<Segment>)
    ensures SameStart(Render(segs), Render(Merged(sx, closed, segs)))
  {
    if segs != [] {
      LinesStart(segs[0], Render(segs[1..]));
      var m := Merged(sx, closed, segs);
      LinesStart(m[0], Render(m[1..]));
    }
  }

  lemma SurvivorReads(sx: Syntax, closed: Table -> bool, t: Table, rest: seq<Segment>)
    requires Canonical(sx, rest) && Reads(sx, Tab(t), Render(rest))
    ensures Reads(sx, Tab(t.(rows := t.rows + Gained(sx, closed, t, rest))), Render(DropClosed(closed, rest)))
  {
    ClosedRowsAreBody(sx, closed, rest);
    FreshTwice(sx, ClosedRows(closed, rest), Keys(sx, t.rows));
    DropEndsBody(sx, closed, rest);
    hide IsBody, Canonical, Render, DropClosed, ClosedRows, Fresh, Keys;
    var gained := Gained(sx, closed, t, rest);
    assert forall r :: r in t.rows + gained ==> r in t.rows || r in gained;
  }

  lemma {:induction false} MergedCanonical(sx: Syntax, closed: Table -> bool, segs: seq<Segment>)
    requires Canonical(sx, segs)
    ensures Canonical(sx, Merged(sx, closed, segs)) <==> NoJointAfterFirst(sx, closed, segs)
  {
    if segs != [] {
      assert segs == [segs[0]] + segs[1..];
      if IsClosed(closed, segs[0]) {
        var t, rest := segs[0].table, segs[1..];
        SurvivorReads(sx, closed, t, rest);
        CanonicalCons(sx, Tab(t.(rows := t.rows + Gained(sx, closed, t, rest))), DropClosed(closed, rest));
        DropCanonical(sx, closed, rest);
        AfterFirstIsAll(sx, closed, segs);
      } else {
        MergedCanonical(sx, closed, segs[1..]);
        CanonicalCons(sx, segs[0], Merged(sx, closed, segs[1..]));
        MergedStart(sx, closed, segs[1..]);
        SameStartReads(sx, segs[0], Render(segs[1..]), Render(Merged(sx, closed, segs[1..])));
        AfterFirstShift(sx, closed, segs);
      }
    }
  }

  lemma SameStartReads(sx: Syntax, s: Segment, a: seq<string>, b: seq<string>)
    requires SameStart(a, b)
    ensures Reads(sx, s, a) <==> Reads(sx, s, b)
  {
  }

  lemma AfterFirstIsAll(sx: Syntax, closed: Table -> bool, segs: seq<Segment>)
    requires segs != [] && IsClosed(closed, segs[0])
    ensures NoJointAfterFirst(sx, closed, segs) <==> NoJoint(sx, closed, segs[1..])
  {
    assert !Joint(sx, closed, segs, 0);
    hide Joint;
    NoJointStep(sx, closed, segs);
    forall i | i < 0 ensures !Joint(sx, closed, segs, i) { NoNegativeJoint(sx, closed, segs, i); }
    if i :| Joint(sx, closed, segs, i) {
      assert IsClosed(closed, segs[0]) && 0 < i;
    }
  }

  lemma AfterFirstShift(sx: Syntax, closed: Table -> bool, segs: seq<Segment>)
    requires segs != [] && !IsClosed(closed, segs[0])
    ensures NoJointAfterFirst(sx, closed, segs) <==> NoJointAfterFirst(sx, closed, segs[1..])
  {
    hide Joint, IsClosed;
    if NoJointAfterFirst(sx, closed, segs) {
      forall h, i | 0 <= h < i && h < |segs[1..]| && IsClosed(closed, segs[1..][h])
        ensures !Joint(sx, closed, segs[1..], i)
      {
        assert segs[1..][h] == segs[h + 1];
        JointShift(sx, closed, segs, i + 1);
      }
    }
    if NoJointAfterFirst(sx, closed, segs[1..]) {
      forall h, i | 0 <= h < i && h < |segs| && IsClosed(closed, segs[h]) ensures !Joint(sx, closed, segs, i) {
        assert segs[1..][h - 1] == segs[h];
        JointShift(sx, closed, segs, i);
      }
    }
  }

  /**
   The merged file is read back as the merged segments if and only if no closed
   table after the first one is deleted from between a row line outside the
   tables and a separator line.
   */
  lemma MergedReadBack(sx: Syntax, closed: Table -> bool, lines: seq<string>)
    ensures var merged := Merged(sx, closed, Parse(sx, lines));
      Parse(sx, Render(merged)) == merged <==> NoJointAfterFirst(sx, closed, Parse(sx, lines))
  {
    hide Parse, Render, Merged, Canonical, NoJointAfterFirst;
    var segs := Parse(sx, lines);
    var merged := Merged(sx, closed, segs);
    ParseCanonical(sx, lines);
    MergedCanonical(sx, closed, segs);
    if Canonical(sx, merged) {
      CanonicalParses(sx, merged);
    }
    ParseCanonical(sx, Render(merged));
  }

  /** Read back without joints, the file has the row keys it had, and exactly the rows counted as dropped are gone. */
  lemma KeysReadBack(sx: Syntax, closed: Table -> bool, lines: seq<string>)
    requires NoJointAfterFirst(sx, closed, Parse(sx, lines))
    ensures var segs := Parse(sx, lines);
      var rows := AllRows(Parse(sx, Render(Merged(sx, closed, segs))));
      && Keys(sx, rows) == Keys(sx, AllRows(segs))
      && |rows| == |AllRows(segs)| - (|LaterRows(closed, segs)| - |Appended(sx, closed, segs)|)
  {
    hide *;
    MergedReadBack(sx, closed, lines);
    KeysPreserved(sx, closed, Parse(sx, lines));
    RowsConserved(sx, closed, Parse(sx, lines));
  }

  // ---- A joint that changes the rows ----

  predicate IsNeutral(sx: Syntax, l: string) {
    !sx.isRow(l) && !sx.isSep(l)
  }

  function RowsIn(sx: Syntax, lines: seq<string>): seq<string> {
    AllRows(Parse(sx, lines))
  }

  ghost predicate IsTable(sx: Syntax, t: Table) {
    sx.isRow(t.header) && sx.isSep(t.sep) && forall r :: r in t.rows ==> IsBody(sx, r)
  }

  /** A table, a line, then a row line, a second table, a separator and one more row line. */
  function JointFile(t: Table, gap: string, p: string, u: Table, sep: string, q: string): seq<Segment> {
    [Tab(t)] + ([Plain(gap)] + ([Plain(p)] + ([Tab(u)] + ([Plain(sep)] + ([Plain(q)] + [])))))
  }

  ghost predicate IsJointFile(sx: Syntax, t: Table, gap: string, p: string, u: Table, sep: string, q: string) {
    && IsTable(sx, t) && IsTable(sx, u) && !sx.isSep(u.header)
    && IsNeutral(sx, gap) && sx.isRow(p) && sx.isSep(sep) && IsBody(sx, q)
  }

  lemma RenderCons(s: Segment, rest: seq<Segment>)
    ensures Render([s] + rest) == Lines(s) + Render(rest)
    ensures AllRows([s] + rest) == (if s.Tab? then s.table.rows else []) + AllRows(rest)
  {
    hide Lines;
    assert ([s] + rest)[1..] == rest;
  }

  lemma DropCons(closed: Table -> bool, s: Segment, rest: seq<Segment>)
    ensures DropClosed(closed, [s] + rest) ==
            if IsClosed(closed, s) then DropClosed(closed, rest) else [s] + DropClosed(closed, rest)
    ensures ClosedRows(closed, [s] + rest) ==
        (if IsClosed(closed, s) then s.table.rows else []) + ClosedRows(closed, rest)
  {
    hide IsClosed;
    assert ([s] + rest)[1..] == rest;
  }

  lemma ReadsCons(sx: Syntax, s: Segment, rest: seq<string>)
    requires Reads(sx, s, rest)
    ensures RowsIn(sx, Lines(s) + rest) == (if s.Tab? then s.table.rows else []) + RowsIn(sx, rest)
  {
    SegmentParses(sx, s, rest);
    hide Reads, Parse, Lines, Render;
    RenderCons(s, Parse(sx, rest));
  }

  lemma JointFileParses(sx: Syntax, t: Table, gap: string, p: string, u: Table, sep: string, q: string)
    requires IsJointFile(sx, t, gap, p, u, sep, q)
    ensures Parse(sx, Render(JointFile(t, gap, p, u, sep, q))) == JointFile(t, gap, p, u, sep, q)
  {
    hide Render, Canonical;
    var s5 := [Plain(q)] + [];
    var s4 := [Plain(sep)] + s5;
    var s3 := [Tab(u)] + s4;
    var s2 := [Plain(p)] + s3;
    var s1 := [Plain(gap)] + s2;
    NothingToRead(sx);
    RenderCons(Plain(q), []);
    RenderCons(Plain(sep), s5);
    RenderCons(Tab(u), s4);
    RenderCons(Plain(p), s3);
    RenderCons(Plain(gap), s2);
    assert Canonical(sx, []) by { NoSegments(sx); }
    CanonicalCons(sx, Plain(q), []);
    CanonicalCons(sx, Plain(sep), s5);
    CanonicalCons(sx, Tab(u), s4);
    CanonicalCons(sx, Plain(p), s3);
    CanonicalCons(sx, Plain(gap), s2);
    CanonicalCons(sx, Tab(t), s1);
    CanonicalParses(sx, [Tab(t)] + s1);
  }

  lemma NoSegments(sx: Syntax)
    ensures Canonical(sx, [])
  {
  }

  /** The file as it stands: only the rows of its two tables are rows. */
  lemma JointFileRows(sx: Syntax, t: Table, gap: string, p: string, u: Table, sep: string, q: string)
    requires IsJointFile(sx, t, gap, p, u, sep, q)
    ensures RowsIn(sx, Render(JointFile(t, gap, p, u, sep, q))) == t.rows + u.rows
  {
    JointFileParses(sx, t, gap, p, u, sep, q);
    hide Parse, Render;
    var s4 := [Plain(sep)] + ([Plain(q)] + []);
    RenderCons(Plain(q), []);
    RenderCons(Plain(sep), [Plain(q)] + []);
    RenderCons(Tab(u), s4);
    RenderCons(Plain(p), [Tab(u)] + s4);
    RenderCons(Plain(gap), [Plain(p)] + ([Tab(u)] + s4));
    RenderCons(Tab(t), [Plain(gap)] + ([Plain(p)] + ([Tab(u)] + s4)));
  }

  lemma NothingToRead(sx: Syntax)
    ensures Render([]) == [] && RowsIn(sx, []) == []
  {
  }

  /** What merging makes of the file when both tables are closed. */
  lemma JointFileMerged(sx: Syntax, closed: Table -> bool, t: Table, gap: string, p: string, u: Table, sep: string,
                        q: string)
    requires closed(t) && closed(u)
    ensures Merged(sx, closed, JointFile(t, gap, p, u, sep, q)) ==
            [Tab(t.(rows := t.rows + Fresh(sx, u.rows, Keys(sx, t.rows))))]
            + ([Plain(gap)] + ([Plain(p)] + ([Plain(sep)] + ([Plain(q)] + []))))
  {
    hide Fresh, Keys;
    var s4 := [Plain(sep)] + ([Plain(q)] + []);
    var s1 := [Plain(gap)] + ([Plain(p)] + ([Tab(u)] + s4));
    DropCons(closed, Plain(q), []);
    DropCons(closed, Plain(sep), [Plain(q)] + []);
    DropCons(closed, Tab(u), s4);
    DropCons(closed, Plain(p), [Tab(u)] + s4);
    DropCons(closed, Plain(gap), [Plain(p)] + ([Tab(u)] + s4));
    assert ClosedRows(closed, s1) == u.rows;
    assert JointFile(t, gap, p, u, sep, q)[1..] == s1;
  }

  /**
   Once the second table is deleted, the row line and the separator head a table
   of their own, and the line after them has become a row.
   */
  lemma JointAddsRow(sx: Syntax, closed: Table -> bool, t: Table, gap: string, p: string, u: Table, sep: string,
                     q: string)
    requires IsJointFile(sx, t, gap, p, u, sep, q) && closed(t) && closed(u)
    ensures RowsIn(sx, Render(Merged(sx, closed, JointFile(t, gap, p, u, sep, q)))) ==
            (t.rows + Fresh(sx, u.rows, Keys(sx, t.rows))) + [q]
  {
    hide RowsIn, Render, Parse, AllRows, Fresh, Keys, Merged, JointFile, Reads, IsTable, Lines;
    var gained := Fresh(sx, u.rows, Keys(sx, t.rows));
    var longer := Tab(t.(rows := t.rows + gained));
    JointFileMerged(sx, closed, t, gap, p, u, sep, q);
    JointText(sx, longer, gap, p, sep, q);
    JointReads(sx, t, gap, p, u, sep, q);
    var joined := Tab(Table(p, sep, [q]));
    NothingToRead(sx);
    ReadsCons(sx, joined, []);
    ReadsCons(sx, Plain(gap), Lines(joined) + []);
    ReadsCons(sx, longer, Lines(Plain(gap)) + (Lines(joined) + []));
    assert (t.rows + gained) + ([] + ([q] + [])) == (t.rows + gained) + [q];
  }

  /** Without the second table the lines are those of a table of their own. */
  lemma JointText(sx: Syntax, first: Segment, gap: string, p: string, sep: string, q: string)
    ensures Render([first] + ([Plain(gap)] + ([Plain(p)] + ([Plain(sep)] + ([Plain(q)] + []))))) ==
            Lines(first) + (Lines(Plain(gap)) + (Lines(Tab(Table(p, sep, [q]))) + []))
  {
    hide Render, AllRows;
    var s4: seq<Segment> := [];
    var s3, s2 := [Plain(q)] + s4, [Plain(sep)] + ([Plain(q)] + s4);
    RenderCons(Plain(q), s4);
    RenderCons(Plain(sep), s3);
    RenderCons(Plain(p), s2);
    RenderCons(Plain(gap), [Plain(p)] + s2);
    RenderCons(first, [Plain(gap)] + ([Plain(p)] + s2));
    NothingToRead(sx);
    assert [p] + ([sep] + ([q] + [])) == [p, sep] + [q] + [];
  }

  lemma JointReads(sx: Syntax, t: Table, gap: string, p: string, u: Table, sep: string, q: string)
    requires IsJointFile(sx, t, gap, p, u, sep, q)
    ensures var joined := Tab(Table(p, sep, [q]));
      && Reads(sx, joined, []) && Reads(sx, Plain(gap), Lines(joined) + [])
      && Reads(sx, Tab(t.(rows := t.rows + Fresh(sx, u.rows, Keys(sx, t.rows)))),
               Lines(Plain(gap)) + (Lines(joined) + []))
  {
    FreshTwice(sx, u.rows, Keys(sx, t.rows));
    hide Fresh, Keys;
    var gained := Fresh(sx, u.rows, Keys(sx, t.rows));
    assert forall r :: r in t.rows + gained ==> r in t.rows || r in gained;
  }

  const PIPES: Syntax := Syntax(s => s != "" && s[0] == '|', s => s == "|-|", s => s)

  predicate IsDone(t: Table) {
    t.rows == ["|done|"]
  }

  /** For example: the merged file read back has the row |q|, which was no row before. */
  lemma JointExample()
    ensures var t := Table("|h|", "|-|", ["|done|"]);
      var file := Render(JointFile(t, "", "|p|", t, "|-|", "|q|"));
      && RowsIn(PIPES, file) == ["|done|", "|done|"]
      && RowsIn(PIPES, Render(Merged(PIPES, IsDone, Parse(PIPES, file)))) == ["|done|", "|q|"]
  {
    var t := Table("|h|", "|-|", ["|done|"]);
    var segs := JointFile(t, "", "|p|", t, "|-|", "|q|");
    assert IsJointFile(PIPES, t, "", "|p|", t, "|-|", "|q|");
    JointFileRows(PIPES, t, "", "|p|", t, "|-|", "|q|");
    JointAddsRow(PIPES, IsDone, t, "", "|p|", t, "|-|", "|q|");
    JointFileParses(PIPES, t, "", "|p|", t, "|-|", "|q|");
    assert Fresh(PIPES, ["|done|"], Keys(PIPES, ["|done|"])) == [] by {
      assert "|done|" in ["|done|"] && ["|done|"][1..] == [];
    }
    hide RowsIn, Render, Merged, JointFile, Parse;
    assert ["|done|"] + ["|done|"] == ["|done|", "|done|"] && (["|done|"] + []) + ["|q|"] == ["|done|", "|q|"];
  }

  // ---- The clean-up ----

  /** Blank lines and headings are neither rows nor separators. */
  ghost predicate Neutral(sx: Syntax, k: Kinds) {
    forall l :: k.blank(l) || k.heading(l) ==> !sx.isRow(l) && !sx.isSep(l)
  }

  lemma {:induction false} BodyStops(sx: Syntax, a: seq<string>, x: string, b: seq<string>)
    requires !sx.isRow(x)
    ensures BodyLength(sx, a + [x] + b) == BodyLength(sx, a)
  {
    var all := a + [x] + b;
    if a == [] {
      assert all[0] == x;
    } else {
      assert all[0] == a[0] && all[1..] == a[1..] + [x] + b;
      BodyStops(sx, a[1..], x, b);
    }
  }

  /** No table reaches across a line that is neither a row nor a separator. */
  lemma {:induction false} ParseAround(sx: Syntax, a: seq<string>, x: string, b: seq<string>)
    requires IsNeutral(sx, x)
    ensures Parse(sx, a + [x] + b) == Parse(sx, a) + ([Plain(x)] + Parse(sx, b))
    decreases |a|
  {
    var all := a + [x] + b;
    if a == [] {
      assert all[0] == x && all[1..] == b;
      assert Parse(sx, a) + ([Plain(x)] + Parse(sx, b)) == [Plain(x)] + Parse(sx, b);
    } else if TableStarts(sx, a) {
      TableAround(sx, a, x, b);
      var n := 2 + |TableAt(sx, a).rows|;
      ParseAround(sx, a[n..], x, b);
      ParsedTable(sx, a, TableAt(sx, a), a[n..]);
      ParsedTable(sx, all, TableAt(sx, a), a[n..] + [x] + b);
      hide Parse, TableAt;
      Associate([Tab(TableAt(sx, a))], Parse(sx, a[n..]), [Plain(x)] + Parse(sx, b));
    } else {
      assert all[0] == a[0] && all[1..] == a[1..] + [x] + b;
      assert !TableStarts(sx, all);
      ParseAround(sx, a[1..], x, b);
      ParsedPlain(sx, a, a[1..]);
      ParsedPlain(sx, all, a[1..] + [x] + b);
      hide Parse;
      Associate([Plain(a[0])], Parse(sx, a[1..]), [Plain(x)] + Parse(sx, b));
    }
  }

  lemma TableAround(sx: Syntax, a: seq<string>, x: string, b: seq<string>)
    requires IsNeutral(sx, x) && TableStarts(sx, a)
    ensures var all, n := a + [x] + b, 2 + |TableAt(sx, a).rows|;
      TableStarts(sx, all) && TableAt(sx, all) == TableAt(sx, a) && n <= |a| && all[n..] == a[n..] + [x] + b
  {
    var all := a + [x] + b;
    assert all[..2] == a[..2] && all[2..] == a[2..] + [x] + b;
    BodyStops(sx, a[2..], x, b);
    hide BodyLength;
    var m := BodyLength(sx, a[2..]);
    assert all[2..2 + m] == a[2..2 + m];
  }

  lemma {:induction false} AllRowsConcat(a: seq<Segment>, b: seq<Segment>)
    ensures AllRows(a + b) == AllRows(a) + AllRows(b)
  {
    if a == [] {
      assert a + b == b;
    } else {
      assert (a + b)[0] == a[0] && (a + b)[1..] == a[1..] + b;
      AllRowsConcat(a[1..], b);
    }
  }

  lemma RowsAround(sx: Syntax, a: seq<string>, x: string, b: seq<string>)
    requires IsNeutral(sx, x)
    ensures RowsIn(sx, a + [x] + b) == RowsIn(sx, a) + RowsIn(sx, b)
  {
    ParseAround(sx, a, x, b);
    hide Parse;
    AllRowsConcat(Parse(sx, a), [Plain(x)] + Parse(sx, b));
    assert ([Plain(x)] + Parse(sx, b))[1..] == Parse(sx, b);
  }

  /** A neutral line can go when the text goes on with another one, or ends. */
  lemma DropBefore(sx: Syntax, a: seq<string>, x: string, b: seq<string>)
    requires IsNeutral(sx, x) && (b != [] ==> IsNeutral(sx, b[0]))
    ensures RowsIn(sx, a + [x] + b) == RowsIn(sx, a + b)
  {
    hide RowsIn;
    RowsAround(sx, a, x, b);
    if b == [] {
      NothingToRead(sx);
      assert a + b == a;
    } else {
      assert b == [] + [b[0]] + b[1..] && a + b == a + [b[0]] + b[1..];
      RowsAround(sx, [], b[0], b[1..]);
      RowsAround(sx, a, b[0], b[1..]);
      NothingToRead(sx);
    }
  }

  /** A neutral line can go when the line before it is one too. */
  lemma DropAfter(sx: Syntax, a: seq<string>, x: string, b: seq<string>)
    requires IsNeutral(sx, x) && a != [] && IsNeutral(sx, a[|a| - 1])
    ensures RowsIn(sx, a + [x] + b) == RowsIn(sx, a + b)
  {
    var front, y := a[..|a| - 1], a[|a| - 1];
    assert a + [x] + b == front + [y] + ([] + [x] + b) && a + b == front + [y] + b;
    hide RowsIn;
    RowsAround(sx, front, y, [] + [x] + b);
    RowsAround(sx, front, y, b);
    RowsAround(sx, [], x, b);
    NothingToRead(sx);
  }

  /** Collapsing blank runs keeps the rows, whatever follows. */
  lemma {:induction false} CollapseKeepsRows(sx: Syntax, k: Kinds, lines: seq<string>, b: seq<string>)
    requires Neutral(sx, k)
    ensures RowsIn(sx, Collapsed(k, lines) + b) == RowsIn(sx, lines + b)
    ensures BlankAt(k, lines, |lines| - 1) ==>
        Collapsed(k, lines) != [] && k.blank(Collapsed(k, lines)[|Collapsed(k, lines)| - 1])
    decreases |lines|
  {
    hide RowsIn;
    if lines != [] {
      var n := |lines| - 1;
      var front, x := Collapsed(k, lines[..n]), lines[n];
      assert lines == lines[..n] + [x];
      CollapseKeepsRows(sx, k, lines[..n], [x] + b);
      assert lines[..n] + ([x] + b) == lines + b && front + ([x] + b) == front + [x] + b;
      if BlankAt(k, lines, n) && BlankAt(k, lines, n - 1) {
        assert BlankAt(k, lines[..n], n - 1);
        DropAfter(sx, front, x, b);
      }
    }
  }

  /** Dropping neutral lines, each before another one or the end, keeps the rows. */
  lemma {:induction false} WithoutKeepsRows(sx: Syntax, lines: seq<string>, drop: set<int>, b: seq<string>)
    requires forall x :: x in drop && 0 <= x < |lines| ==>
        IsNeutral(sx, lines[x]) && (x + 1 < |lines| ==> IsNeutral(sx, lines[x + 1]))
    requires lines != [] && |lines| - 1 in drop && b != [] ==> IsNeutral(sx, b[0])
    ensures RowsIn(sx, Without(lines, drop) + b) == RowsIn(sx, lines + b)
    decreases |lines|
  {
    hide RowsIn, IsNeutral;
    if lines != [] {
      var n := |lines| - 1;
      var front, x := lines[..n], lines[n];
      assert lines == front + [x] && front + [x] + b == front + ([x] + b);
      if n in drop {
        DropBefore(sx, front, x, b);
        assert n > 0 && n - 1 in drop && b != [] ==> IsNeutral(sx, b[0]);
        WithoutKeepsRows(sx, front, drop, b);
      } else {
        assert n > 0 && n - 1 in drop ==> IsNeutral(sx, lines[n - 1 + 1]);
        WithoutKeepsRows(sx, front, drop, [x] + b);
        assert Without(front, drop) + ([x] + b) == Without(lines, drop) + b;
      }
    }
  }

  /** A line of an empty section is neutral, and so is the line after it. */
  lemma DroppedNeutral(sx: Syntax, k: Kinds, lines: seq<string>, x: int)
    requires Neutral(sx, k) && Dropped(k, lines, x)
    ensures 0 <= x < |lines| && IsNeutral(sx, lines[x]) && (x + 1 < |lines| ==> IsNeutral(sx, lines[x + 1]))
  {
    var h, e :| EmptySection(k, lines, h, e) && h <= x < e;
  }

  lemma SectionsKeepRows(sx: Syntax, k: Kinds, lines: seq<string>, drop: set<int>)
    requires Neutral(sx, k) && forall x :: x in drop <==> Dropped(k, lines, x)
    ensures RowsIn(sx, Without(lines, drop)) == RowsIn(sx, lines)
  {
    hide RowsIn, IsNeutral, Neutral, Dropped;
    forall x | x in drop && 0 <= x < |lines|
      ensures IsNeutral(sx, lines[x]) && (x + 1 < |lines| ==> IsNeutral(sx, lines[x + 1]))
    {
      DroppedNeutral(sx, k, lines, x);
    }
    WithoutKeepsRows(sx, lines, drop, []);
    assert Without(lines, drop) + [] == Without(lines, drop) && lines + [] == lines;
  }

  lemma BlanksKeepRows(sx: Syntax, k: Kinds, lines: seq<string>)
    requires Neutral(sx, k)
    ensures RowsIn(sx, Collapsed(k, lines)) == RowsIn(sx, lines)
  {
    CollapseKeepsRows(sx, k, lines, []);
    assert Collapsed(k, lines) + [] == Collapsed(k, lines) && lines + [] == lines;
  }

  /**
   The whole step. With fewer than two closed tables the file is left alone;
   otherwise its content lines are exactly those of the merged file, in order.
   Read back, its rows are those of the merged file; without joints they have
   the keys of the file before, and exactly the rows counted as dropped are gone.
   */
  method MergeStep(sx: Syntax, closed: Table -> bool, k: Kinds, lines: seq<string>)
      returns (out: seq<string>, appended: nat, dropped: nat)
    requires Neutral(sx, k)
    ensures |ClosedOnly(closed, TablesFrom(Parse(sx, lines), 0))| < 2 ==> out == lines
    ensures |ClosedOnly(closed, TablesFrom(Parse(sx, lines), 0))| >= 2 ==>
              NoBlankRun(k, out) && Content(k, out) == Content(k, Render(Merged(sx, closed, Parse(sx, lines))))
    ensures RowsIn(sx, out) == RowsIn(sx, Render(Merged(sx, closed, Parse(sx, lines))))
    ensures NoJointAfterFirst(sx, closed, Parse(sx, lines)) ==>
              && Keys(sx, RowsIn(sx, out)) == Keys(sx, RowsIn(sx, lines))
              && |RowsIn(sx, out)| == |RowsIn(sx, lines)| - dropped
  {
    ghost var segs := Parse(sx, lines);
    assert RowsIn(sx, lines) == AllRows(segs);
    ghost var text := Render(Merged(sx, closed, segs));
    assert RowsIn(sx, text) == AllRows(Parse(sx, text));
    hide *;
    if NoJointAfterFirst(sx, closed, segs) {
      KeysReadBack(sx, closed, lines);
    }
    var tables := FindTables(sx, lines);
    var only := ClosedTables(closed, tables);
    var merged;
    merged, appended, dropped := MergeClosedTables(sx, closed, lines);
    if |only| < 2 {
      NothingToMerge(sx, closed, segs, 0);
      RenderParse(sx, lines);
      return lines, appended, dropped;
    }
    var kept, count;
    ghost var drop, starts;
    kept, count, drop, starts := RemoveEmptySections(k, merged);
    SectionsKeepRows(sx, k, merged, drop);
    BlanksKeepRows(sx, k, kept);
    kept := CollapseBlankRuns(k, kept);
    BlanksKeepRows(sx, k, kept);
    out := CollapseBlankRuns(k, kept);
  }
}
