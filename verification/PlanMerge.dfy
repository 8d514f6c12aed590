/**
 Folding the closed tables of the plans registry into the first one
 (scripts/plans_registry_hygiene.py). Which tables count as closed is a
 parameter.
 */
module PlanMerge {
  import opened Basics
  import opened PlanTables
  import opened PlanDedupe

  // ---- What merging means ----

  predicate IsClosed(closed: Table -> bool, s: Segment) {
    s.Tab? && closed(s.table)
  }

  function ClosedRows(closed: Table -> bool, segs: seq<Segment>): seq<string> {
    if segs == [] then []
    else if IsClosed(closed, segs[0]) then segs[0].table.rows + ClosedRows(closed, segs[1..])
    else ClosedRows(closed, segs[1..])
  }

  function DropClosed(closed: Table -> bool, segs: seq<Segment>): seq<Segment> {
    if segs == [] then []
    else if IsClosed(closed, segs[0]) then DropClosed(closed, segs[1..])
    else [segs[0]] + DropClosed(closed, segs[1..])
  }

  /** The rows the first closed table gains: those of later closed tables with a key of their own. */
  function Gained(sx: Syntax, closed: Table -> bool, first: Table, later: seq<Segment>): seq<string> {
    Fresh(sx, ClosedRows(closed, later), Keys(sx, first.rows))
  }

  /** The first closed table takes in the new rows of the later ones, which go. */
  function Merged(sx: Syntax, closed: Table -> bool, segs: seq<Segment>): seq<Segment> {
    if segs == [] then []
    else if !IsClosed(closed, segs[0]) then [segs[0]] + Merged(sx, closed, segs[1..])
    else
      var t := segs[0].table;
      [Tab(t.(rows := t.rows + Gained(sx, closed, t, segs[1..])))] + DropClosed(closed, segs[1..])
  }

  /** The rows of every closed table but the first: the rows whose table is deleted. */
  function LaterRows(closed: Table -> bool, segs: seq<Segment>): seq<string> {
    if segs == [] then []
    else if IsClosed(closed, segs[0]) then ClosedRows(closed, segs[1..])
    else LaterRows(closed, segs[1..])
  }

  /** The rows appended to the first closed table. */
  function Appended(sx: Syntax, closed: Table -> bool, segs: seq<Segment>): seq<string> {
    if segs == [] then []
    else if IsClosed(closed, segs[0]) then Gained(sx, closed, segs[0].table, segs[1..])
    else Appended(sx, closed, segs[1..])
  }

  // ---- The edits ----

  function Deletions(closed: Table -> bool, segs: seq<Segment>): (r: seq<Change>)
    ensures |r| == |segs|
  {
    if segs == [] then []
    else [if IsClosed(closed, segs[0]) then Become([]) else Same] + Deletions(closed, segs[1..])
  }

  function Changes(sx: Syntax, closed: Table -> bool, segs: seq<Segment>): (r: seq<Change>)
    ensures |r| == |segs|
  {
    if segs == [] then []
    else if !IsClosed(closed, segs[0]) then [Same] + Changes(sx, closed, segs[1..])
    else
      var t := segs[0].table;
      [Become([t.header, t.sep] + (t.rows + Gained(sx, closed, t, segs[1..])))] + Deletions(closed, segs[1..])
  }

  lemma {:induction false} DeletionsDrop(closed: Table -> bool, segs: seq<Segment>)
    ensures Outcome(segs, Deletions(closed, segs)) == Render(DropClosed(closed, segs))
  {
    if segs != [] {
      DeletionsDrop(closed, segs[1..]);
      assert Deletions(closed, segs)[1..] == Deletions(closed, segs[1..]);
      if IsClosed(closed, segs[0]) {
        assert [] + Outcome(segs[1..], Deletions(closed, segs[1..])) ==
            Outcome(segs[1..], Deletions(closed, segs[1..]));
      } else {
        assert DropClosed(closed, segs)[1..] == DropClosed(closed, segs[1..]);
      }
    }
  }

  lemma {:induction false} ChangesMerge(sx: Syntax, closed: Table -> bool, segs: seq<Segment>)
    ensures Outcome(segs, Changes(sx, closed, segs)) == Render(Merged(sx, closed, segs))
  {
    if segs != [] {
      var changes, result := Changes(sx, closed, segs), Merged(sx, closed, segs);
      if IsClosed(closed, segs[0]) {
        DeletionsDrop(closed, segs[1..]);
        assert changes[1..] == Deletions(closed, segs[1..]) && result[1..] == DropClosed(closed, segs[1..]);
      } else {
        ChangesMerge(sx, closed, segs[1..]);
        assert changes[1..] == Changes(sx, closed, segs[1..]) && result[1..] == Merged(sx, closed, segs[1..]);
      }
    }
  }

  function ClosedOnly(closed: Table -> bool, tables: seq<Found>): seq<Found> {
    if tables == [] then []
    else if closed(tables[0].table) then [tables[0]] + ClosedOnly(closed, tables[1..])
    else ClosedOnly(closed, tables[1..])
  }

  function RowsOf(tables: seq<Found>): seq<string> {
    if tables == [] then [] else tables[0].table.rows + RowsOf(tables[1..])
  }

  function DeleteEdits(tables: seq<Found>): (r: seq<Edit>)
    ensures |r| == |tables|
  {
    if tables == [] then []
    else [Edit(tables[0].start, tables[0].start + 2 + |tables[0].table.rows|, [])] + DeleteEdits(tables[1..])
  }

  function MergeEdits(sx: Syntax, tables: seq<Found>): seq<Edit> {
    if tables == [] then []
    else
      var t, at := tables[0].table, tables[0].start;
      var gained := Fresh(sx, RowsOf(tables[1..]), Keys(sx, t.rows));
      [Edit(at, at + 2 + |t.rows|, [t.header, t.sep] + (t.rows + gained))] + DeleteEdits(tables[1..])
  }

  /** The tables found, seen from the first segment. */
  lemma TablesStep(closed: Table -> bool, segs: seq<Segment>, at: nat)
    requires segs != []
    ensures var rest, only := TablesFrom(segs[1..], at + |Lines(segs[0])|), ClosedOnly(closed, TablesFrom(segs, at));
      if IsClosed(closed, segs[0]) then only == [Found(at, segs[0].table)] + ClosedOnly(closed, rest)
      else only == ClosedOnly(closed, rest)
  {
    var tables, rest := TablesFrom(segs, at), TablesFrom(segs[1..], at + |Lines(segs[0])|);
    if segs[0].Tab? {
      assert tables[0] == Found(at, segs[0].table) && tables[1..] == rest;
    }
  }

  lemma {:induction false} DeleteEditsMatch(closed: Table -> bool, segs: seq<Segment>, at: nat)
    ensures DeleteEdits(ClosedOnly(closed, TablesFrom(segs, at))) == EditsFor(segs, Deletions(closed, segs), at)
    ensures RowsOf(ClosedOnly(closed, TablesFrom(segs, at))) == ClosedRows(closed, segs)
    decreases |segs|
  {
    if segs != [] {
      hide EditsFor;
      var next := at + |Lines(segs[0])|;
      DeleteEditsMatch(closed, segs[1..], next);
      EditsStep(segs, Deletions(closed, segs), at);
      assert Deletions(closed, segs)[1..] == Deletions(closed, segs[1..]);
      TablesStep(closed, segs, at);
      hide TablesFrom, ClosedOnly, Deletions;
      var rest := ClosedOnly(closed, TablesFrom(segs[1..], next));
      if IsClosed(closed, segs[0]) {
        assert ([Found(at, segs[0].table)] + rest)[1..] == rest;
      }
    }
  }

  /** The edits at the first closed table and after it. */
  lemma SurvivorEdits(sx: Syntax, closed: Table -> bool, segs: seq<Segment>, at: nat, rest: seq<Found>)
    requires segs != [] && IsClosed(closed, segs[0])
    requires DeleteEdits(rest) == EditsFor(segs[1..], Deletions(closed, segs[1..]), at + |Lines(segs[0])|)
    requires RowsOf(rest) == ClosedRows(closed, segs[1..])
    ensures MergeEdits(sx, [Found(at, segs[0].table)] + rest) == EditsFor(segs, Changes(sx, closed, segs), at)
  {
    hide Deletions, ClosedRows, Fresh, RowsOf, DeleteEdits;
    var changes, only := Changes(sx, closed, segs), [Found(at, segs[0].table)] + rest;
    assert changes[1..] == Deletions(closed, segs[1..]) && only[1..] == rest;
  }

  lemma {:induction false} MergeEditsMatch(sx: Syntax, closed: Table -> bool, segs: seq<Segment>, at: nat)
    ensures MergeEdits(sx, ClosedOnly(closed, TablesFrom(segs, at))) == EditsFor(segs, Changes(sx, closed, segs), at)
    decreases |segs|
  {
    if segs != [] {
      var next := at + |Lines(segs[0])|;
      TablesStep(closed, segs, at);
      if IsClosed(closed, segs[0]) {
        DeleteEditsMatch(closed, segs[1..], next);
        SurvivorEdits(sx, closed, segs, at, ClosedOnly(closed, TablesFrom(segs[1..], next)));
      } else {
        MergeEditsMatch(sx, closed, segs[1..], next);
        hide MergeEdits, ClosedOnly, TablesFrom;
        assert Changes(sx, closed, segs)[1..] == Changes(sx, closed, segs[1..]);
      }
    }
  }

  lemma {:induction false} LaterRowsMatch(sx: Syntax, closed: Table -> bool, segs: seq<Segment>, at: nat)
    requires ClosedOnly(closed, TablesFrom(segs, at)) != []
    ensures var only := ClosedOnly(closed, TablesFrom(segs, at));
      && RowsOf(only[1..]) == LaterRows(closed, segs)
      && Fresh(sx, RowsOf(only[1..]), Keys(sx, only[0].table.rows)) == Appended(sx, closed, segs)
    decreases |segs|
  {
    if segs != [] {
      var next := at + |Lines(segs[0])|;
      TablesStep(closed, segs, at);
      if IsClosed(closed, segs[0]) {
        DeleteEditsMatch(closed, segs[1..], next);
        hide Fresh, ClosedOnly, TablesFrom;
        var rest := ClosedOnly(closed, TablesFrom(segs[1..], next));
        assert ([Found(at, segs[0].table)] + rest)[1..] == rest;
      } else {
        LaterRowsMatch(sx, closed, segs[1..], next);
      }
    }
  }

  /** With fewer than two closed tables there is nothing to merge. */
  lemma {:induction false} NothingToMerge(sx: Syntax, closed: Table -> bool, segs: seq<Segment>, at: nat)
    requires |ClosedOnly(closed, TablesFrom(segs, at))| <= 1
    ensures Merged(sx, closed, segs) == segs && LaterRows(closed, segs) == []
    decreases |segs|
  {
    if segs != [] {
      var next := at + |Lines(segs[0])|;
      TablesStep(closed, segs, at);
      assert segs == [segs[0]] + segs[1..];
      if IsClosed(closed, segs[0]) {
        NoneClosed(closed, segs[1..], next);
        assert segs[0].table.rows + [] == segs[0].table.rows;
      } else {
        NothingToMerge(sx, closed, segs[1..], next);
      }
    }
  }

  lemma {:induction false} NoneClosed(closed: Table -> bool, segs: seq<Segment>, at: nat)
    requires ClosedOnly(closed, TablesFrom(segs, at)) == []
    ensures DropClosed(closed, segs) == segs && ClosedRows(closed, segs) == []
    decreases |segs|
  {
    if segs != [] {
      TablesStep(closed, segs, at);
      assert segs == [segs[0]] + segs[1..];
      NoneClosed(closed, segs[1..], at + |Lines(segs[0])|);
    }
  }

  // ---- The method ----

  method ClosedTables(closed: Table -> bool, tables: seq<Found>) returns (only: seq<Found>)
    ensures only == ClosedOnly(closed, tables)
  {
    only := [];
    assert tables[0..] == tables;
    for i := 0 to |tables|
      invariant only + ClosedOnly(closed, tables[i..]) == ClosedOnly(closed, tables)
    {
      assert tables[i..][0] == tables[i] && tables[i..][1..] == tables[i + 1..];
      if closed(tables[i].table) {
        Associate(only, [tables[i]], ClosedOnly(closed, tables[i + 1..]));
        only := only + [tables[i]];
      }
    }
  }

  /** The rows of the later closed tables whose key is new, and the count of the others. */
  method CollectGained(sx: Syntax, first: Table, later: seq<Found>) returns (gained: seq<string>, dropped: nat)
    ensures gained == Fresh(sx, RowsOf(later), Keys(sx, first.rows))
    ensures |gained| + dropped == |RowsOf(later)|
  {
    var seen := Keys(sx, first.rows);
    gained, dropped := [], 0;
    assert later[0..] == later;
    for i := 0 to |later|
      invariant gained + Fresh(sx, RowsOf(later[i..]), seen) == Fresh(sx, RowsOf(later), Keys(sx, first.rows))
      invariant |gained| + dropped + |RowsOf(later[i..])| == |RowsOf(later)|
    {
      var rows := later[i].table.rows;
      ghost var rest := RowsOf(later[i + 1..]);
      assert later[i..][0] == later[i] && later[i..][1..] == later[i + 1..];
      assert RowsOf(later[i..]) == rows + rest;
      hide RowsOf, Fresh, Keys;
      FreshConcat(sx, rows, rest, seen);
      var kept, after, lost := KeepFresh(sx, rows, seen);
      Associate(gained, kept, Fresh(sx, rest, after));
      seen, gained, dropped := after, gained + kept, dropped + lost;
    }
  }

  method ListDeletions(later: seq<Found>) returns (edits: seq<Edit>)
    ensures edits == DeleteEdits(later)
  {
    edits := [];
    for i := 0 to |later|
      invariant edits == DeleteEdits(later[..i])
    {
      assert later[..i + 1] == later[..i] + [later[i]];
      DeleteEditsAppend(later[..i], later[i]);
      edits := edits + [Edit(later[i].start, later[i].start + 2 + |later[i].table.rows|, [])];
    }
    assert later[..|later|] == later;
  }

  lemma {:induction false} DeleteEditsAppend(tables: seq<Found>, f: Found)
    ensures DeleteEdits(tables + [f]) == DeleteEdits(tables) + [Edit(f.start, f.start + 2 + |f.table.rows|, [])]
  {
    if tables == [] {
      assert [] + [f] == [f] && [f][1..] == [];
    } else {
      assert (tables + [f])[0] == tables[0] && (tables + [f])[1..] == tables[1..] + [f];
      DeleteEditsAppend(tables[1..], f);
    }
  }

  /**
   Merging by slice edits, the later tables deleted last first and the survivor
   expanded at the end: the file becomes exactly the merged one, and the rows
   appended and the rows counted as dropped add up to the rows deleted.
   */
  method MergeClosedTables(sx: Syntax, closed: Table -> bool, lines: seq<string>)
      returns (out: seq<string>, appended: nat, dropped: nat)
    ensures out == Render(Merged(sx, closed, Parse(sx, lines)))
    ensures appended == |Appended(sx, closed, Parse(sx, lines))|
    ensures appended + dropped == |LaterRows(closed, Parse(sx, lines))|
  {
    hide Parse, Render, Merged, Changes, EditsFor, Outcome, Fresh, RowsOf, LaterRows, Appended, TablesFrom;
    hide ClosedOnly, DeleteEdits;
    ghost var segs := Parse(sx, lines);
    RenderParse(sx, lines);
    var tables := FindTables(sx, lines);
    var only := ClosedTables(closed, tables);
    MergeEditsMatch(sx, closed, segs, 0);
    if |only| < 2 {
      NothingToMerge(sx, closed, segs, 0);
      AppendedBound(sx, closed, segs);
      return lines, 0, 0;
    }
    LaterRowsMatch(sx, closed, segs, 0);
    var first, later := only[0], only[1..];
    var gained, lost := CollectGained(sx, first.table, later);
    var deletions := ListDeletions(later);
    ChangesMerge(sx, closed, segs);
    var t := first.table;
    var edits := [Edit(first.start, first.start + 2 + |t.rows|, [t.header, t.sep] + (t.rows + gained))] + deletions;
    out := ApplyBackwards(lines, edits, segs, Changes(sx, closed, segs));
    appended, dropped := |gained|, lost;
  }

  lemma {:induction false} AppendedBound(sx: Syntax, closed: Table -> bool, segs: seq<Segment>)
    ensures |Appended(sx, closed, segs)| <= |LaterRows(closed, segs)|
  {
    if segs != [] {
      if IsClosed(closed, segs[0]) {
        FreshTwice(sx, ClosedRows(closed, segs[1..]), Keys(sx, segs[0].table.rows));
      } else {
        AppendedBound(sx, closed, segs[1..]);
      }
    }
  }

  // ---- What merging guarantees ----

  lemma {:induction false} DropClosedRows(closed: Table -> bool, segs: seq<Segment>)
    ensures multiset(AllRows(segs)) == multiset(AllRows(DropClosed(closed, segs))) + multiset(ClosedRows(closed, segs))
  {
    if segs != [] {
      DropClosedRows(closed, segs[1..]);
      var rest := DropClosed(closed, segs[1..]);
      assert AllRows([segs[0]] + rest) == (if segs[0].Tab? then segs[0].table.rows else []) + AllRows(rest) by {
        assert ([segs[0]] + rest)[1..] == rest;
      }
      assert [] + rest == rest;
    }
  }

  /** No key is lost and none is new: the rows have the same keys before and after. */
  lemma {:induction false} KeysPreserved(sx: Syntax, closed: Table -> bool, segs: seq<Segment>)
    ensures Keys(sx, AllRows(Merged(sx, closed, segs))) == Keys(sx, AllRows(segs))
  {
    if segs != [] {
      var s := segs[0];
      if IsClosed(closed, s) {
        SurvivorKeys(sx, closed, s.table, segs[1..]);
      } else {
        KeysPreserved(sx, closed, segs[1..]);
        var rest, own := Merged(sx, closed, segs[1..]), if s.Tab? then s.table.rows else [];
        assert ([s] + rest)[1..] == rest;
        KeysConcat(sx, own, AllRows(rest));
        KeysConcat(sx, own, AllRows(segs[1..]));
      }
    }
  }

  lemma KeysConcat(sx: Syntax, a: seq<string>, b: seq<string>)
    ensures Keys(sx, a + b) == Keys(sx, a) + Keys(sx, b)
  {
    assert forall r :: r in a + b <==> r in a || r in b;
  }

  lemma SurvivorKeys(sx: Syntax, closed: Table -> bool, t: Table, later: seq<Segment>)
    requires closed(t)
    ensures Keys(sx, AllRows(Merged(sx, closed, [Tab(t)] + later))) == Keys(sx, AllRows([Tab(t)] + later))
  {
    var segs := [Tab(t)] + later;
    assert segs[1..] == later;
    var rest, folded, gained := DropClosed(closed, later), ClosedRows(closed, later), Gained(sx, closed, t, later);
    var merged := [Tab(t.(rows := t.rows + gained))] + rest;
    assert merged[1..] == rest;
    KeysConcat(sx, t.rows + gained, AllRows(rest));
    KeysConcat(sx, t.rows, gained);
    KeysConcat(sx, t.rows, AllRows(later));
    FreshTwice(sx, folded, Keys(sx, t.rows));
    DropClosedRows(closed, later);
    SameRowsSameKeys(sx, AllRows(later), AllRows(rest) + folded);
    KeysConcat(sx, AllRows(rest), folded);
  }

  lemma SameRowsSameKeys(sx: Syntax, a: seq<string>, b: seq<string>)
    requires multiset(a) == multiset(b)
    ensures Keys(sx, a) == Keys(sx, b)
  {
    assert forall r :: r in a <==> r in multiset(a);
    assert forall r :: r in b <==> r in multiset(b);
  }

  /** The file loses exactly the rows counted as dropped: those deleted and not appended. */
  lemma {:induction false} RowsConserved(sx: Syntax, closed: Table -> bool, segs: seq<Segment>)
    ensures |AllRows(Merged(sx, closed, segs))| ==
            |AllRows(segs)| - (|LaterRows(closed, segs)| - |Appended(sx, closed, segs)|)
  {
    if segs != [] {
      var result := Merged(sx, closed, segs);
      if IsClosed(closed, segs[0]) {
        var rest := DropClosed(closed, segs[1..]);
        assert result[1..] == rest;
        DropClosedRows(closed, segs[1..]);
        SameSize(AllRows(segs[1..]), AllRows(rest) + ClosedRows(closed, segs[1..]));
      } else {
        RowsConserved(sx, closed, segs[1..]);
        assert result[1..] == Merged(sx, closed, segs[1..]);
      }
    }
  }
}
