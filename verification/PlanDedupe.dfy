/**
 Dropping duplicate rows across all tables of the plans registry
 (scripts/plans_registry_hygiene.py).
 */
module PlanDedupe {
  import opened Basics
  import opened PlanTables

  // ---- What dedupe means ----

  function AllRows(segs: seq<Segment>): seq<string> {
    if segs == [] then []
    else if segs[0].Tab? then segs[0].table.rows + AllRows(segs[1..])
    else AllRows(segs[1..])
  }

  /** Every table keeps its fresh rows; keys are remembered from table to table. */
  function Dedupe(sx: Syntax, segs: seq<Segment>, seen: set<string>): (r: seq<Segment>)
    ensures |r| == |segs|
  {
    if segs == [] then []
    else match segs[0]
      case Plain(l) => [segs[0]] + Dedupe(sx, segs[1..], seen)
      case Tab(t) => [Tab(t.(rows := Fresh(sx, t.rows, seen)))] + Dedupe(sx, segs[1..], seen + Keys(sx, t.rows))
  }

  /** The file after dedupe. */
  function Deduped(sx: Syntax, lines: seq<string>): seq<string> {
    Render(Dedupe(sx, Parse(sx, lines), {}))
  }

  // ---- Fresh rows ----

  /** Fresh rows have the keys that were new, are rows of the table, and are fresh again. */
  lemma {:induction false} FreshTwice(sx: Syntax, rows: seq<string>, seen: set<string>)
    ensures Fresh(sx, Fresh(sx, rows, seen), seen) == Fresh(sx, rows, seen)
    ensures seen + Keys(sx, Fresh(sx, rows, seen)) == seen + Keys(sx, rows)
    ensures forall r :: r in Fresh(sx, rows, seen) ==> r in rows
    ensures |Fresh(sx, rows, seen)| <= |rows|
    ensures |Fresh(sx, rows, seen)| == |rows| ==> Fresh(sx, rows, seen) == rows
    decreases |rows|
  {
    if rows != [] {
      var k := sx.key(rows[0]);
      assert rows == [rows[0]] + rows[1..];
      if k in seen {
        FreshTwice(sx, rows[1..], seen);
        assert seen + Keys(sx, rows) == seen + Keys(sx, rows[1..]);
      } else {
        var rest := Fresh(sx, rows[1..], seen + {k});
        FreshTwice(sx, rows[1..], seen + {k});
        var kept := [rows[0]] + rest;
        assert kept[0] == rows[0] && kept[1..] == rest;
        assert seen + Keys(sx, kept) == seen + {k} + Keys(sx, rest);
        assert seen + Keys(sx, rows) == seen + {k} + Keys(sx, rows[1..]);
      }
    }
  }

  // ---- The edits ----

  function ChangeFor(t: Table, kept: seq<string>): Change {
    if |kept| != |t.rows| then Become([t.header, t.sep] + kept) else Same
  }

  function Changes(sx: Syntax, segs: seq<Segment>, seen: set<string>): (r: seq<Change>)
    ensures |r| == |segs|
  {
    if segs == [] then []
    else match segs[0]
      case Plain(_) => [Same] + Changes(sx, segs[1..], seen)
      case Tab(t) => [ChangeFor(t, Fresh(sx, t.rows, seen))] + Changes(sx, segs[1..], seen + Keys(sx, t.rows))
  }

  lemma {:induction false} ChangesDedupe(sx: Syntax, segs: seq<Segment>, seen: set<string>)
    ensures Outcome(segs, Changes(sx, segs, seen)) == Render(Dedupe(sx, segs, seen))
    decreases |segs|
  {
    if segs != [] {
      var changes, result := Changes(sx, segs, seen), Dedupe(sx, segs, seen);
      match segs[0]
      case Plain(_) =>
        ChangesDedupe(sx, segs[1..], seen);
        assert changes[1..] == Changes(sx, segs[1..], seen) && result[1..] == Dedupe(sx, segs[1..], seen);
      case Tab(t) =>
        var next := seen + Keys(sx, t.rows);
        FreshTwice(sx, t.rows, seen);
        ChangesDedupe(sx, segs[1..], next);
        assert changes[1..] == Changes(sx, segs[1..], next) && result[1..] == Dedupe(sx, segs[1..], next);
    }
  }

  function EditOf(f: Found, kept: seq<string>): seq<Edit> {
    if |kept| != |f.table.rows| then
      [Edit(f.start, f.start + 2 + |f.table.rows|, [f.table.header, f.table.sep] + kept)]
    else []
  }

  /** The edits in table order. */
  function TableEdits(sx: Syntax, tables: seq<Found>, seen: set<string>): seq<Edit> {
    if tables == [] then []
    else
      var rows := tables[0].table.rows;
      EditOf(tables[0], Fresh(sx, rows, seen)) + TableEdits(sx, tables[1..], seen + Keys(sx, rows))
  }

  lemma {:induction false} EditsOfTables(sx: Syntax, segs: seq<Segment>, at: nat, seen: set<string>)
    ensures TableEdits(sx, TablesFrom(segs, at), seen) == EditsFor(segs, Changes(sx, segs, seen), at)
    decreases |segs|
  {
    if segs != [] {
      var rest := segs[1..];
      assert segs == [segs[0]] + rest;
      match segs[0]
      case Plain(l) =>
        EditsOfTables(sx, rest, at + 1, seen);
        PlainEdits(sx, l, rest, at, seen);
      case Tab(t) =>
        EditsOfTables(sx, rest, at + 2 + |t.rows|, seen + Keys(sx, t.rows));
        TabEdits(sx, t, rest, at, seen);
    }
  }

  lemma PlainEdits(sx: Syntax, l: string, rest: seq<Segment>, at: nat, seen: set<string>)
    requires TableEdits(sx, TablesFrom(rest, at + 1), seen) == EditsFor(rest, Changes(sx, rest, seen), at + 1)
    ensures var segs := [Plain(l)] + rest;
      TableEdits(sx, TablesFrom(segs, at), seen) == EditsFor(segs, Changes(sx, segs, seen), at)
  {
    var segs := [Plain(l)] + rest;
    TablesOfPlain(l, rest, at);
    assert Changes(sx, segs, seen) == [Same] + Changes(sx, rest, seen) by { assert segs[1..] == rest; }
    hide EditsFor, TableEdits, TablesFrom, Changes;
    EditsCons(Plain(l), rest, Same, Changes(sx, rest, seen), at);
  }

  lemma TabEdits(sx: Syntax, t: Table, rest: seq<Segment>, at: nat, seen: set<string>)
    requires var next, after := seen + Keys(sx, t.rows), at + 2 + |t.rows|;
      TableEdits(sx, TablesFrom(rest, after), next) == EditsFor(rest, Changes(sx, rest, next), after)
    ensures var segs := [Tab(t)] + rest;
      TableEdits(sx, TablesFrom(segs, at), seen) == EditsFor(segs, Changes(sx, segs, seen), at)
  {
    var segs, kept, next := [Tab(t)] + rest, Fresh(sx, t.rows, seen), seen + Keys(sx, t.rows);
    ChangesOfTable(sx, t, rest, seen);
    TablesOfTable(t, rest, at);
    hide EditsFor, TableEdits, TablesFrom, Changes, Fresh, Keys, EditOf, ChangeFor, Lines;
    EditsCons(Tab(t), rest, ChangeFor(t, kept), Changes(sx, rest, next), at);
    EditMatches(t, at, kept, EditsFor(rest, Changes(sx, rest, next), at + 2 + |t.rows|));
    TableEditsCons(sx, Found(at, t), TablesFrom(rest, at + 2 + |t.rows|), seen);
  }

  lemma ChangesOfTable(sx: Syntax, t: Table, rest: seq<Segment>, seen: set<string>)
    ensures Changes(sx, [Tab(t)] + rest, seen) ==
            [ChangeFor(t, Fresh(sx, t.rows, seen))] + Changes(sx, rest, seen + Keys(sx, t.rows))
  {
    hide ChangeFor, Fresh, Keys;
    assert ([Tab(t)] + rest)[1..] == rest;
  }

  /** The edit of a changed table is the one its change asks for. */
  lemma EditMatches(t: Table, at: nat, kept: seq<string>, rest: seq<Edit>)
    ensures |Lines(Tab(t))| == 2 + |t.rows|
    ensures EditOf(Found(at, t), kept) + rest ==
            if ChangeFor(t, kept).Same? then rest else [Edit(at, at + |Lines(Tab(t))|, ChangeFor(t, kept).text)] + rest
  {
    LinesOfTable(t);
    hide Lines;
    if |kept| == |t.rows| {
      assert EditOf(Found(at, t), kept) == [] && [] + rest == rest;
    } else {
      assert ChangeFor(t, kept) == Become([t.header, t.sep] + kept);
    }
  }

  lemma LinesOfTable(t: Table)
    ensures |Lines(Tab(t))| == 2 + |t.rows|
  {
  }

  lemma TableEditsCons(sx: Syntax, f: Found, tables: seq<Found>, seen: set<string>)
    ensures TableEdits(sx, [f] + tables, seen) ==
            EditOf(f, Fresh(sx, f.table.rows, seen)) + TableEdits(sx, tables, seen + Keys(sx, f.table.rows))
  {
    hide TableEdits;
    TableEditsStep(sx, [f] + tables, seen);
    assert ([f] + tables)[0] == f && ([f] + tables)[1..] == tables;
  }

  /** How many lines the edits take away. */
  function Shrinkage(edits: seq<Edit>): int {
    if edits == [] then 0 else (edits[0].end - edits[0].start - |edits[0].text|) + Shrinkage(edits[1..])
  }

  lemma {:induction false} OutcomeLength(segs: seq<Segment>, changes: seq<Change>, at: nat)
    requires |segs| == |changes|
    ensures |Outcome(segs, changes)| == |Render(segs)| - Shrinkage(EditsFor(segs, changes, at))
    decreases |segs|
  {
    if segs != [] {
      hide Lines;
      var n := |Lines(segs[0])|;
      var rest, out := EditsFor(segs[1..], changes[1..], at + n), Outcome(segs[1..], changes[1..]);
      OutcomeLength(segs[1..], changes[1..], at + n);
      assert |Render(segs)| == n + |Render(segs[1..])|;
      if changes[0].Become? {
        var e := Edit(at, at + n, changes[0].text);
        assert EditsFor(segs, changes, at) == [e] + rest && Outcome(segs, changes) == changes[0].text + out;
        hide EditsFor, Outcome, Render;
        assert ([e] + rest)[0] == e && ([e] + rest)[1..] == rest;
      } else {
        assert EditsFor(segs, changes, at) == rest && Outcome(segs, changes) == Lines(segs[0]) + out;
        hide EditsFor, Outcome, Render;
      }
    }
  }

  lemma {:induction false} ShrinkageAppend(edits: seq<Edit>, e: Edit)
    ensures Shrinkage(edits + [e]) == Shrinkage(edits) + (e.end - e.start - |e.text|)
    decreases |edits|
  {
    if edits == [] {
      assert [] + [e] == [e] && [e][1..] == [];
    } else {
      assert (edits + [e])[1..] == edits[1..] + [e];
      ShrinkageAppend(edits[1..], e);
    }
  }

  /**
   The edit loop: every line outside the tables stays, each table keeps its
   fresh rows, and the count is exactly the number of rows taken out.
   */
  method DedupeRows(sx: Syntax, lines: seq<string>) returns (out: seq<string>, removed: nat)
    ensures out == Deduped(sx, lines)
    ensures removed == |lines| - |out|
  {
    var tables := FindTables(sx, lines);
    ghost var segs := Parse(sx, lines);
    var edits: seq<Edit>;
    edits, removed := CollectEdits(sx, tables);
    RenderParse(sx, lines);
    EditsOfTables(sx, segs, 0, {});
    ChangesDedupe(sx, segs, {});
    OutcomeLength(segs, Changes(sx, segs, {}), 0);
    out := ApplyBackwards(lines, edits, segs, Changes(sx, segs, {}));
  }

  lemma NoEdits(sx: Syntax)
    ensures Shrinkage([]) == 0 && forall seen :: TableEdits(sx, [], seen) == []
  {
  }

  lemma TableEditsStep(sx: Syntax, tables: seq<Found>, seen: set<string>)
    requires tables != []
    ensures var rows := tables[0].table.rows;
      TableEdits(sx, tables, seen) ==
          EditOf(tables[0], Fresh(sx, rows, seen)) + TableEdits(sx, tables[1..], seen + Keys(sx, rows))
  {
    hide EditOf, Fresh, Keys;
  }

  method CollectEdits(sx: Syntax, tables: seq<Found>) returns (edits: seq<Edit>, removed: nat)
    ensures edits == TableEdits(sx, tables, {}) && removed == Shrinkage(edits)
  {
    edits, removed := [], 0;
    var seen: set<string> := {};
    assert tables[0..] == tables && tables[|tables|..] == [];
    NoEdits(sx);
    for i := 0 to |tables|
      invariant edits + TableEdits(sx, tables[i..], seen) == TableEdits(sx, tables, {})
      invariant removed == Shrinkage(edits)
    {
      hide TableEdits, Fresh, Keys, Shrinkage, EditOf;
      var f := tables[i];
      var kept, after, dropped := KeepFresh(sx, f.table.rows, seen);
      ghost var rest := TableEdits(sx, tables[i + 1..], after);
      assert tables[i..][0] == f && tables[i..][1..] == tables[i + 1..];
      TableEditsStep(sx, tables[i..], seen);
      seen := after;
      removed := removed + dropped;
      ShrinkageEdit(edits, f, kept);
      Associate(edits, EditOf(f, kept), rest);
      edits := edits + EditOf(f, kept);
    }
  }

  lemma ShrinkageEdit(edits: seq<Edit>, f: Found, kept: seq<string>)
    ensures Shrinkage(edits + EditOf(f, kept)) == Shrinkage(edits) + |f.table.rows| - |kept|
  {
    if |kept| != |f.table.rows| {
      ShrinkageAppend(edits, EditOf(f, kept)[0]);
    } else {
      assert edits + [] == edits;
    }
  }

  // ---- What dedupe guarantees ----

  /** Across the whole file exactly the first row of each key survives, in order. */
  lemma {:induction false} RowsKept(sx: Syntax, segs: seq<Segment>, seen: set<string>)
    ensures AllRows(Dedupe(sx, segs, seen)) == Fresh(sx, AllRows(segs), seen)
    decreases |segs|
  {
    if segs != [] {
      var result := Dedupe(sx, segs, seen);
      match segs[0]
      case Plain(_) =>
        RowsKept(sx, segs[1..], seen);
        assert result[1..] == Dedupe(sx, segs[1..], seen);
        assert AllRows(segs) == AllRows(segs[1..]);
      case Tab(t) =>
        var next := seen + Keys(sx, t.rows);
        RowsKept(sx, segs[1..], next);
        FreshConcat(sx, t.rows, AllRows(segs[1..]), seen);
        assert result[1..] == Dedupe(sx, segs[1..], next);
    }
  }

  function Emptied(s: Segment): Segment {
    match s case Plain(_) => s case Tab(t) => Tab(t.(rows := []))
  }

  /** Plain lines, headers and separators stay where they are. */
  lemma {:induction false} OutsideUnchanged(sx: Syntax, segs: seq<Segment>, seen: set<string>, i: nat)
    requires i < |segs|
    ensures Emptied(Dedupe(sx, segs, seen)[i]) == Emptied(segs[i])
    decreases |segs|
  {
    if i > 0 {
      var next := if segs[0].Tab? then seen + Keys(sx, segs[0].table.rows) else seen;
      OutsideUnchanged(sx, segs[1..], next, i - 1);
    }
  }

  lemma {:induction false} DedupeTwice(sx: Syntax, segs: seq<Segment>, seen: set<string>)
    ensures Dedupe(sx, Dedupe(sx, segs, seen), seen) == Dedupe(sx, segs, seen)
    decreases |segs|
  {
    if segs != [] {
      var result := Dedupe(sx, segs, seen);
      match segs[0]
      case Plain(_) =>
        DedupeTwice(sx, segs[1..], seen);
        assert result[1..] == Dedupe(sx, segs[1..], seen);
      case Tab(t) =>
        var next := seen + Keys(sx, t.rows);
        FreshTwice(sx, t.rows, seen);
        DedupeTwice(sx, segs[1..], next);
        assert result[1..] == Dedupe(sx, segs[1..], next);
    }
  }

  // ---- Parsing what was written ----

  /** Written before rest, the segment is read back as itself. */
  ghost predicate Reads(sx: Syntax, s: Segment, rest: seq<string>) {
    match s
    case Plain(l) => !(sx.isRow(l) && rest != [] && sx.isSep(rest[0]))
    case Tab(t) =>
      && sx.isRow(t.header) && sx.isSep(t.sep) && (forall r :: r in t.rows ==> sx.isRow(r) && !sx.isSep(r))
      && (rest != [] && sx.isRow(rest[0]) ==> sx.isSep(rest[0]))
  }

  /** The segments are what parsing their text gives. */
  ghost predicate Canonical(sx: Syntax, segs: seq<Segment>) {
    segs == [] || (Canonical(sx, segs[1..]) && Reads(sx, segs[0], Render(segs[1..])))
  }

  lemma {:induction false} ParseCanonical(sx: Syntax, lines: seq<string>)
    ensures Canonical(sx, Parse(sx, lines))
    decreases |lines|
  {
    if lines != [] {
      hide BodyLength, Reads, Lines;
      if TableStarts(sx, lines) {
        var t := TableAt(sx, lines);
        var rest := lines[2 + |t.rows|..];
        ParseCanonical(sx, rest);
        RenderParse(sx, rest);
        ParsedTableReads(sx, lines);
        CanonicalCons(sx, Tab(t), Parse(sx, rest));
      } else {
        ParseCanonical(sx, lines[1..]);
        RenderParse(sx, lines[1..]);
        ParsedPlainReads(sx, lines);
        CanonicalCons(sx, Plain(lines[0]), Parse(sx, lines[1..]));
      }
    }
  }

  lemma CanonicalCons(sx: Syntax, s: Segment, rest: seq<Segment>)
    ensures Canonical(sx, [s] + rest) <==> Canonical(sx, rest) && Reads(sx, s, Render(rest))
  {
    hide Reads, Render;
    assert ([s] + rest)[1..] == rest;
  }

  lemma ParsedTableReads(sx: Syntax, lines: seq<string>)
    requires TableStarts(sx, lines)
    ensures var t := TableAt(sx, lines); Reads(sx, Tab(t), lines[2 + |t.rows|..])
  {
    var n := BodyLength(sx, lines[2..]);
    hide BodyLength;
    var rest := lines[2 + n..];
    assert rest != [] ==> rest[0] == lines[2..][n];
  }

  lemma ParsedPlainReads(sx: Syntax, lines: seq<string>)
    requires lines != [] && !TableStarts(sx, lines)
    ensures Reads(sx, Plain(lines[0]), lines[1..])
  {
  }

  lemma {:induction false} BodyLengthOf(sx: Syntax, rows: seq<string>, rest: seq<string>)
    requires (forall r :: r in rows ==> IsBody(sx, r)) && (rest != [] ==> !IsBody(sx, rest[0]))
    ensures BodyLength(sx, rows + rest) == |rows|
    decreases |rows|
  {
    if rows == [] {
      assert rows + rest == rest;
    } else {
      assert rows[0] in rows && (rows + rest)[1..] == rows[1..] + rest;
      BodyLengthOf(sx, rows[1..], rest);
    }
  }

  lemma {:induction false} CanonicalParses(sx: Syntax, segs: seq<Segment>)
    requires Canonical(sx, segs)
    ensures Parse(sx, Render(segs)) == segs
    decreases |segs|
  {
    if segs != [] {
      CanonicalParses(sx, segs[1..]);
      SegmentParses(sx, segs[0], Render(segs[1..]));
      hide Parse, Reads, Lines, Canonical;
      assert segs == [segs[0]] + segs[1..];
    }
  }

  /** The segments of a file are the one way to cut it so that each reads as itself. */
  lemma ParseUnique(sx: Syntax, lines: seq<string>, segs: seq<Segment>)
    ensures segs == Parse(sx, lines) <==> Render(segs) == lines && Canonical(sx, segs)
  {
    hide Parse, Render, Canonical;
    RenderParse(sx, lines);
    ParseCanonical(sx, lines);
    if Canonical(sx, segs) {
      CanonicalParses(sx, segs);
    }
  }

  lemma SegmentParses(sx: Syntax, s: Segment, rest: seq<string>)
    requires Reads(sx, s, rest)
    ensures Parse(sx, Lines(s) + rest) == [s] + Parse(sx, rest)
  {
    match s
    case Plain(l) => ParsedPlain(sx, [l] + rest, rest);
    case Tab(t) => TableParses(sx, t, rest);
  }

  lemma TableParses(sx: Syntax, t: Table, rest: seq<string>)
    requires sx.isRow(t.header) && sx.isSep(t.sep) && (forall r :: r in t.rows ==> IsBody(sx, r))
    requires rest != [] ==> !IsBody(sx, rest[0])
    ensures Parse(sx, Lines(Tab(t)) + rest) == [Tab(t)] + Parse(sx, rest)
  {
    var lines := Lines(Tab(t)) + rest;
    assert lines[2..] == t.rows + rest;
    BodyLengthOf(sx, t.rows, rest);
    hide BodyLength;
    assert lines[2..2 + |t.rows|] == t.rows && lines[2 + |t.rows|..] == rest;
    assert TableAt(sx, lines) == t;
  }

  /** Dedupe never touches the first line of what follows, so the result parses back. */
  lemma {:induction false} DedupeCanonical(sx: Syntax, segs: seq<Segment>, seen: set<string>)
    requires Canonical(sx, segs)
    ensures Canonical(sx, Dedupe(sx, segs, seen))
    ensures SameStart(Render(segs), Render(Dedupe(sx, segs, seen)))
    decreases |segs|
  {
    if segs != [] {
      var next := if segs[0].Tab? then seen + Keys(sx, segs[0].table.rows) else seen;
      DedupeCanonical(sx, segs[1..], next);
      var result := Dedupe(sx, segs, seen);
      assert result[1..] == Dedupe(sx, segs[1..], next);
      if segs[0].Tab? {
        FreshTwice(sx, segs[0].table.rows, seen);
      }
    }
  }

  predicate SameStart(a: seq<string>, b: seq<string>) {
    if a == [] then b == [] else b != [] && a[0] == b[0]
  }

  /** Running dedupe on its own result changes nothing. */
  lemma DedupeIdempotent(sx: Syntax, lines: seq<string>)
    ensures Deduped(sx, Deduped(sx, lines)) == Deduped(sx, lines)
  {
    hide Canonical;
    var segs := Parse(sx, lines);
    ParseCanonical(sx, lines);
    DedupeCanonical(sx, segs, {});
    CanonicalParses(sx, Dedupe(sx, segs, {}));
    DedupeTwice(sx, segs, {});
  }

  /** The rows of the deduped file, read back, are exactly the first row of each key of the file, in order. */
  lemma FirstOccurrenceKept(sx: Syntax, lines: seq<string>) returns (js: seq<nat>)
    ensures var rows := AllRows(Parse(sx, lines));
      && Picks(rows, js, AllRows(Parse(sx, Deduped(sx, lines))))
      && forall i: nat :: i in js <==> i < |rows| && forall j :: 0 <= j < i ==> sx.key(rows[j]) != sx.key(rows[i])
  {
    hide Canonical, Picks;
    var segs := Parse(sx, lines);
    ParseCanonical(sx, lines);
    DedupeCanonical(sx, segs, {});
    CanonicalParses(sx, Dedupe(sx, segs, {}));
    RowsKept(sx, segs, {});
    js := FreshExact(sx, AllRows(segs), {});
    hide Parse, Dedupe, AllRows, Fresh;
  }

  // ---- Table by table ----

  /** Row p of table h stands before row j of table i. */
  predicate Before(segs: seq<Segment>, h: nat, p: nat, i: nat, j: nat) {
    h < |segs| && segs[h].Tab? && p < |segs[h].table.rows| && (h < i || (h == i && p < j))
  }

  /** Row j of table i shares its key with no row of the file before it. */
  ghost predicate IsFirst(sx: Syntax, segs: seq<Segment>, i: nat, j: nat)
    requires i < |segs| && segs[i].Tab?
  {
    && j < |segs[i].table.rows|
    && forall h: nat, p: nat :: Before(segs, h, p, i, j) ==>
         sx.key(segs[h].table.rows[p]) != sx.key(segs[i].table.rows[j])
  }

  predicate RowAt(segs: seq<Segment>, h: nat, p: nat, r: string) {
    h < |segs| && segs[h].Tab? && p < |segs[h].table.rows| && segs[h].table.rows[p] == r
  }

  lemma {:induction false} RowPlaces(segs: seq<Segment>, r: string)
    ensures r in AllRows(segs) <==> exists h: nat, p: nat :: RowAt(segs, h, p, r)
  {
    if segs != [] {
      RowPlaces(segs[1..], r);
      assert forall h: nat, p: nat :: RowAt(segs, h + 1, p, r) <==> RowAt(segs[1..], h, p, r);
      if h: nat, p: nat :| RowAt(segs[1..], h, p, r) {
        assert RowAt(segs, h + 1, p, r);
      }
      if h: nat, p: nat :| RowAt(segs, h, p, r) {
        assert h > 0 ==> RowAt(segs[1..], h - 1, p, r);
      }
      if segs[0].Tab? && r in segs[0].table.rows {
        var p: nat :| p < |segs[0].table.rows| && segs[0].table.rows[p] == r;
        assert RowAt(segs, 0, p, r);
      }
    }
  }

  lemma {:induction false} DedupeAt(sx: Syntax, segs: seq<Segment>, seen: set<string>, i: nat)
    requires i < |segs| && segs[i].Tab?
    ensures Dedupe(sx, segs, seen)[i].Tab?
    ensures Dedupe(sx, segs, seen)[i].table.rows ==
            Fresh(sx, segs[i].table.rows, seen + Keys(sx, AllRows(segs[..i])))
    decreases i
  {
    hide Fresh, Keys;
    if i == 0 {
      NoRows(sx, seen);
      assert seen + Keys(sx, AllRows(segs[..0])) == seen;
    } else {
      var next := if segs[0].Tab? then seen + Keys(sx, segs[0].table.rows) else seen;
      DedupeAt(sx, segs[1..], next, i - 1);
      KeysBefore(sx, segs, seen, i);
    }
  }

  lemma KeysBefore(sx: Syntax, segs: seq<Segment>, seen: set<string>, i: nat)
    requires 0 < i <= |segs|
    ensures var next := if segs[0].Tab? then seen + Keys(sx, segs[0].table.rows) else seen;
      next + Keys(sx, AllRows(segs[1..][..i - 1])) == seen + Keys(sx, AllRows(segs[..i]))
  {
    assert segs[..i][0] == segs[0] && segs[..i][1..] == segs[1..][..i - 1];
    var rest := AllRows(segs[1..][..i - 1]);
    if segs[0].Tab? {
      var own := segs[0].table.rows;
      assert AllRows(segs[..i]) == own + rest;
      assert forall r :: r in own + rest <==> r in own || r in rest;
    }
  }

  lemma FirstIsNew(sx: Syntax, segs: seq<Segment>, i: nat, j: nat)
    requires i < |segs| && segs[i].Tab?
    ensures IsFirst(sx, segs, i, j) <==> IsNew(sx, segs[i].table.rows, {} + Keys(sx, AllRows(segs[..i])), j)
  {
    hide AllRows;
    var rows, seen := segs[i].table.rows, {} + Keys(sx, AllRows(segs[..i]));
    if IsFirst(sx, segs, i, j) {
      assert forall p: nat :: p < j ==> Before(segs, i, p, i, j);
      forall r | r in AllRows(segs[..i]) ensures sx.key(r) != sx.key(rows[j]) {
        RowPlaces(segs[..i], r);
        var h: nat, p: nat :| RowAt(segs[..i], h, p, r);
        assert Before(segs, h, p, i, j);
      }
    }
    if IsNew(sx, rows, seen, j) {
      forall h: nat, p: nat | Before(segs, h, p, i, j) ensures sx.key(segs[h].table.rows[p]) != sx.key(rows[j]) {
        if h < i {
          assert RowAt(segs[..i], h, p, segs[h].table.rows[p]);
          RowPlaces(segs[..i], segs[h].table.rows[p]);
        }
      }
    }
  }

  /** Each table keeps exactly the rows that share their key with no row before them, in order. */
  lemma DedupedExact(sx: Syntax, segs: seq<Segment>, i: nat) returns (js: seq<nat>)
    requires i < |segs| && segs[i].Tab?
    ensures Dedupe(sx, segs, {})[i].Tab? && Picks(segs[i].table.rows, js, Dedupe(sx, segs, {})[i].table.rows)
    ensures forall j: nat :: j in js <==> IsFirst(sx, segs, i, j)
  {
    hide Dedupe, Fresh, AllRows, Keys, Picks, IsFirst, IsNew;
    DedupeAt(sx, segs, {}, i);
    js := FreshExact(sx, segs[i].table.rows, {} + Keys(sx, AllRows(segs[..i])));
    forall j: nat ensures IsFirst(sx, segs, i, j) <==>
      IsNew(sx, segs[i].table.rows, {} + Keys(sx, AllRows(segs[..i])), j) {
      FirstIsNew(sx, segs, i, j);
    }
  }
}
