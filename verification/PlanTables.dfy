/**
 The markdown tables of the plans registry (scripts/plans_registry_hygiene.py):
 how they are found by line index and rewritten by slice assignment, last table
 first, and which rows of a list have a key of their own.

 What counts as a table row, as a separator and as a row's key is a parameter:
 the results hold for every choice of these three.
 */
module PlanTables {
  import opened Basics

  datatype Syntax = Syntax(isRow: string -> bool, isSep: string -> bool, key: string -> string)

  datatype Table = Table(header: string, sep: string, rows: seq<string>)

  /** A file is a sequence of plain lines and tables. */
  datatype Segment = Plain(line: string) | Tab(table: Table)

  // ---- The file as segments ----

  predicate IsBody(sx: Syntax, line: string) {
    sx.isRow(line) && !sx.isSep(line)
  }

  /** How many lines from the start are body rows. */
  function BodyLength(sx: Syntax, lines: seq<string>): (n: nat)
    ensures n <= |lines| && (forall i :: 0 <= i < n ==> IsBody(sx, lines[i])) && (n < |lines| ==> !IsBody(sx, lines[n]))
  {
    if lines != [] && IsBody(sx, lines[0]) then 1 + BodyLength(sx, lines[1..]) else 0
  }

  predicate TableStarts(sx: Syntax, lines: seq<string>) {
    |lines| >= 2 && sx.isRow(lines[0]) && sx.isSep(lines[1])
  }

  /** Header, separator and the body rows that follow. */
  function TableAt(sx: Syntax, lines: seq<string>): Table
    requires TableStarts(sx, lines)
  {
    Table(lines[0], lines[1], lines[2..2 + BodyLength(sx, lines[2..])])
  }

  function Parse(sx: Syntax, lines: seq<string>): seq<Segment>
    decreases |lines|
  {
    if lines == [] then []
    else if TableStarts(sx, lines) then
      var t := TableAt(sx, lines);
      [Tab(t)] + Parse(sx, lines[2 + |t.rows|..])
    else [Plain(lines[0])] + Parse(sx, lines[1..])
  }

  function Lines(s: Segment): seq<string> {
    match s case Plain(l) => [l] case Tab(t) => [t.header, t.sep] + t.rows
  }

  function Render(segs: seq<Segment>): seq<string> {
    if segs == [] then [] else Lines(segs[0]) + Render(segs[1..])
  }

  lemma {:induction false} RenderParse(sx: Syntax, lines: seq<string>)
    ensures Render(Parse(sx, lines)) == lines
    decreases |lines|
  {
    if lines != [] {
      if TableStarts(sx, lines) {
        var t := TableAt(sx, lines);
        RenderParse(sx, lines[2 + |t.rows|..]);
        assert lines == Lines(Tab(t)) + lines[2 + |t.rows|..];
      } else {
        RenderParse(sx, lines[1..]);
      }
    }
  }

  // ---- Finding tables by index ----

  /** A table and the index of its header line. */
  datatype Found = Found(start: nat, table: Table)

  function TablesFrom(segs: seq<Segment>, at: nat): seq<Found> {
    if segs == [] then []
    else
      var rest := TablesFrom(segs[1..], at + |Lines(segs[0])|);
      if segs[0].Tab? then [Found(at, segs[0].table)] + rest else rest
  }

  /** The scan finds exactly the tables of the file, each at its line. */
  method FindTables(sx: Syntax, lines: seq<string>) returns (tables: seq<Found>)
    ensures tables == TablesFrom(Parse(sx, lines), 0)
  {
    NoLinesNoTables(sx, |lines|);
    hide Parse, TablesFrom, TableStarts, TableAt;
    tables := [];
    var i := 0;
    assert lines[0..] == lines && lines[|lines|..] == [];
    while i < |lines|
      invariant i <= |lines|
      invariant tables + TablesFrom(Parse(sx, lines[i..]), i) == TablesFrom(Parse(sx, lines), 0)
      decreases |lines| - i
    {
      var found, j := ScanAt(sx, lines, i);
      ghost var rest := TablesFrom(Parse(sx, lines[j..]), j);
      Associate(tables, found, rest);
      tables := tables + found;
      i := j;
    }
  }

  lemma NoLinesNoTables(sx: Syntax, at: nat)
    ensures TablesFrom(Parse(sx, []), at) == []
  {
  }

  /** One step of the scan: the table that starts at line i, or none, and where to go on. */
  method ScanAt(sx: Syntax, lines: seq<string>, i: nat) returns (found: seq<Found>, next: nat)
    requires i < |lines|
    ensures i < next <= |lines|
    ensures TablesFrom(Parse(sx, lines[i..]), i) == found + TablesFrom(Parse(sx, lines[next..]), next)
  {
    hide Parse, TablesFrom, BodyLength, TableAt;
    ghost var here := lines[i..];
    if sx.isRow(lines[i]) && i + 1 < |lines| && sx.isSep(lines[i + 1]) {
      next := CollectRows(sx, lines, i + 2);
      var t := Table(lines[i], lines[i + 1], lines[i + 2..next]);
      found := [Found(i, t)];
      TableHere(sx, lines, i, next);
      ParsedTable(sx, here, t, lines[next..]);
      TablesOfTable(t, Parse(sx, lines[next..]), i);
    } else {
      next, found := i + 1, [];
      assert here[1..] == lines[i + 1..] && !TableStarts(sx, here);
      ParsedPlain(sx, here, lines[i + 1..]);
      TablesOfPlain(lines[i], Parse(sx, lines[i + 1..]), i);
      assert [] + TablesFrom(Parse(sx, lines[next..]), next) == TablesFrom(Parse(sx, lines[next..]), next);
    }
  }

  method CollectRows(sx: Syntax, lines: seq<string>, from: nat) returns (j: nat)
    requires from <= |lines|
    ensures from <= j <= |lines| && j == from + BodyLength(sx, lines[from..])
  {
    j := from;
    while j < |lines| && sx.isRow(lines[j]) && !sx.isSep(lines[j])
      invariant from <= j <= |lines|
      invariant j + BodyLength(sx, lines[j..]) == from + BodyLength(sx, lines[from..])
    {
      assert lines[j..][1..] == lines[j + 1..];
      j := j + 1;
    }
  }

  lemma TableHere(sx: Syntax, lines: seq<string>, i: nat, j: nat)
    requires i + 1 < |lines| && sx.isRow(lines[i]) && sx.isSep(lines[i + 1])
    requires j <= |lines| && j == i + 2 + BodyLength(sx, lines[i + 2..])
    ensures TableStarts(sx, lines[i..]) && TableAt(sx, lines[i..]) == Table(lines[i], lines[i + 1], lines[i + 2..j])
    ensures lines[i..][j - i..] == lines[j..]
  {
    hide BodyLength;
    assert lines[i..][2..] == lines[i + 2..];
    assert lines[i..][2..j - i] == lines[i + 2..j];
  }

  lemma ParsedTable(sx: Syntax, lines: seq<string>, t: Table, after: seq<string>)
    requires TableStarts(sx, lines) && t == TableAt(sx, lines) && lines[2 + |t.rows|..] == after
    ensures Parse(sx, lines) == [Tab(t)] + Parse(sx, after)
  {
    hide TableAt;
  }

  lemma ParsedPlain(sx: Syntax, lines: seq<string>, after: seq<string>)
    requires lines != [] && !TableStarts(sx, lines) && lines[1..] == after
    ensures Parse(sx, lines) == [Plain(lines[0])] + Parse(sx, after)
  {
    hide TableAt, TableStarts;
  }

  lemma TablesOfTable(t: Table, rest: seq<Segment>, at: nat)
    ensures TablesFrom([Tab(t)] + rest, at) == [Found(at, t)] + TablesFrom(rest, at + 2 + |t.rows|)
  {
    assert ([Tab(t)] + rest)[1..] == rest;
  }

  lemma TablesOfPlain(l: string, rest: seq<Segment>, at: nat)
    ensures TablesFrom([Plain(l)] + rest, at) == TablesFrom(rest, at + 1)
  {
    assert ([Plain(l)] + rest)[1..] == rest;
  }

  // ---- Slice edits, last one first ----

  /** Replace the lines from start up to (not including) end. */
  datatype Edit = Edit(start: nat, end: nat, text: seq<string>)

  predicate InOrder(edits: seq<Edit>, length: nat) {
    && (forall i :: 0 <= i < |edits| ==> edits[i].start <= edits[i].end <= length)
    && (forall i, j :: 0 <= i < j < |edits| ==> edits[i].end <= edits[j].start)
  }

  function Splice(lines: seq<string>, e: Edit): seq<string>
    requires e.start <= e.end <= |lines|
  {
    lines[..e.start] + e.text + lines[e.end..]
  }

  /** One optional replacement per segment. */
  datatype Change = Same | Become(text: seq<string>)

  function Outcome(segs: seq<Segment>, changes: seq<Change>): seq<string>
    requires |segs| == |changes|
  {
    if segs == [] then []
    else (if changes[0].Same? then Lines(segs[0]) else changes[0].text) + Outcome(segs[1..], changes[1..])
  }

  function EditsFor(segs: seq<Segment>, changes: seq<Change>, at: nat): seq<Edit>
    requires |segs| == |changes|
  {
    if segs == [] then []
    else
      var n := |Lines(segs[0])|;
      var rest := EditsFor(segs[1..], changes[1..], at + n);
      if changes[0].Same? then rest else [Edit(at, at + n, changes[0].text)] + rest
  }

  lemma EditsCons(s: Segment, segs: seq<Segment>, c: Change, changes: seq<Change>, at: nat)
    requires |segs| == |changes|
    ensures var rest := EditsFor(segs, changes, at + |Lines(s)|);
      EditsFor([s] + segs, [c] + changes, at) == if c.Same? then rest else [Edit(at, at + |Lines(s)|, c.text)] + rest
  {
    hide EditsFor, Lines;
    EditsStep([s] + segs, [c] + changes, at);
    assert ([s] + segs)[1..] == segs && ([c] + changes)[1..] == changes;
  }

  predicate AllFrom(edits: seq<Edit>, at: nat) {
    forall i :: 0 <= i < |edits| ==> at <= edits[i].start
  }

  lemma {:induction false} EditsInOrder(segs: seq<Segment>, changes: seq<Change>, at: nat)
    requires |segs| == |changes|
    ensures InOrder(EditsFor(segs, changes, at), at + |Render(segs)|) && AllFrom(EditsFor(segs, changes, at), at)
    decreases |segs|
  {
    if segs != [] {
      hide EditsFor, Render, InOrder, AllFrom, Lines;
      EditsInOrder(segs[1..], changes[1..], at + |Lines(segs[0])|);
      OneMoreInOrder(segs, changes, at);
    }
  }

  lemma OneMoreInOrder(segs: seq<Segment>, changes: seq<Change>, at: nat)
    requires |segs| == |changes| && segs != []
    requires var from := at + |Lines(segs[0])|;
      var rest := EditsFor(segs[1..], changes[1..], from);
      InOrder(rest, from + |Render(segs[1..])|) && AllFrom(rest, from)
    ensures InOrder(EditsFor(segs, changes, at), at + |Render(segs)|) && AllFrom(EditsFor(segs, changes, at), at)
  {
    hide EditsFor, Lines, InOrder, AllFrom;
    var n := |Lines(segs[0])|;
    EditsStep(segs, changes, at);
    assert |Render(segs)| == n + |Render(segs[1..])|;
    var rest := EditsFor(segs[1..], changes[1..], at + n);
    ConsInOrder(Edit(at, at + n, if changes[0].Become? then changes[0].text else []), rest, at + |Render(segs)|);
  }

  lemma ConsInOrder(e: Edit, rest: seq<Edit>, length: nat)
    requires InOrder(rest, length) && e.start <= e.end <= length && AllFrom(rest, e.end)
    ensures InOrder([e] + rest, length) && AllFrom([e] + rest, e.start) && AllFrom(rest, e.start)
  {
  }

  lemma EditsStep(segs: seq<Segment>, changes: seq<Change>, at: nat)
    requires |segs| == |changes| && segs != []
    ensures var n := |Lines(segs[0])|;
      var rest := EditsFor(segs[1..], changes[1..], at + n);
      EditsFor(segs, changes, at) == if changes[0].Same? then rest else [Edit(at, at + n, changes[0].text)] + rest
  {
    hide Lines;
  }

  /** Written backwards, the edits turn the file into its outcome: no write moves an earlier index. */
  method ApplyBackwards(lines: seq<string>, edits: seq<Edit>, ghost segs: seq<Segment>, ghost changes: seq<Change>)
      returns (out: seq<string>)
    requires |segs| == |changes| && lines == Render(segs) && edits == EditsFor(segs, changes, 0)
    ensures out == Outcome(segs, changes)
  {
    EditsInOrder(segs, changes, 0);
    out := lines;
    var k := |edits|;
    assert edits[k..] == [];
    hide Applied, Outcome, EditsFor, Render;
    while k > 0
      invariant k <= |edits| && InOrder(edits[k..], |lines|) && out == Applied(lines, edits[k..])
    {
      k := k - 1;
      ApplyOne(lines, edits, k);
      var e := edits[k];
      out := out[..e.start] + e.text + out[e.end..];
    }
    assert edits[0..] == edits;
    AppliedOutcome([], segs, changes);
    assert [] + lines == lines && [] + Outcome(segs, changes) == Outcome(segs, changes);
  }

  lemma ApplyOne(lines: seq<string>, edits: seq<Edit>, k: nat)
    requires InOrder(edits, |lines|) && k < |edits|
    ensures InOrder(edits[k..], |lines|) && InOrder(edits[k + 1..], |lines|)
    ensures edits[k].start <= edits[k].end <= |Applied(lines, edits[k + 1..])|
    ensures Applied(lines, edits[k..]) == Splice(Applied(lines, edits[k + 1..]), edits[k])
  {
    assert edits[k..][0] == edits[k] && edits[k..][1..] == edits[k + 1..];
    assert k + 1 < |edits| ==> edits[k + 1..][0] == edits[k + 1];
  }

  /** The effect of in-order edits: later ones first. */
  function Applied(lines: seq<string>, edits: seq<Edit>): (r: seq<string>)
    requires InOrder(edits, |lines|)
    ensures edits != [] ==> |r| >= edits[0].start
    ensures edits == [] ==> r == lines
    ensures forall i :: 0 <= i < (if edits == [] then |lines| else edits[0].start) ==> i < |r| && r[i] == lines[i]
  {
    if edits == [] then lines
    else
      var later := Applied(lines, edits[1..]);
      assert |edits| > 1 ==> edits[1..][0] == edits[1];
      Splice(later, edits[0])
  }

  lemma {:induction false} AppliedOutcome(prefix: seq<string>, segs: seq<Segment>, changes: seq<Change>)
    requires |segs| == |changes|
    ensures InOrder(EditsFor(segs, changes, |prefix|), |prefix + Render(segs)|)
    ensures Applied(prefix + Render(segs), EditsFor(segs, changes, |prefix|)) == prefix + Outcome(segs, changes)
    decreases |segs|
  {
    hide Applied, Lines, InOrder;
    EditsInOrder(segs, changes, |prefix|);
    if segs == [] {
      assert prefix + [] == prefix;
    } else {
      var own := Lines(segs[0]);
      assert |prefix + own| == |prefix| + |own|;
      var rest, out := EditsFor(segs[1..], changes[1..], |prefix + own|), Outcome(segs[1..], changes[1..]);
      AppliedOutcome(prefix + own, segs[1..], changes[1..]);
      assert Render(segs) == own + Render(segs[1..]);
      assert Outcome(segs, changes) == (if changes[0].Same? then own else changes[0].text) + out;
      var e := Edit(|prefix|, |prefix| + |own|, if changes[0].Become? then changes[0].text else []);
      assert EditsFor(segs, changes, |prefix|) == if changes[0].Same? then rest else [e] + rest;
      hide Render, Outcome, EditsFor;
      Associate(prefix, own, Render(segs[1..]));
      if changes[0].Same? {
        Associate(prefix, own, out);
      } else {
        SpliceFirst(prefix + Render(segs), e, rest, prefix, own, out);
      }
    }
  }

  lemma SpliceFirst(lines: seq<string>, e: Edit, rest: seq<Edit>, prefix: seq<string>, own: seq<string>,
                    out: seq<string>)
    requires InOrder(rest, |lines|) && InOrder([e] + rest, |lines|)
    requires e.start == |prefix| && e.end == |prefix| + |own| && Applied(lines, rest) == prefix + own + out
    ensures Applied(lines, [e] + rest) == prefix + (e.text + out)
  {
    assert ([e] + rest)[0] == e && ([e] + rest)[1..] == rest;
    AppliedFirst(lines, [e] + rest);
    SpliceParts(prefix, own, out, e);
  }

  lemma AppliedFirst(lines: seq<string>, edits: seq<Edit>)
    requires edits != [] && InOrder(edits, |lines|) && InOrder(edits[1..], |lines|)
    ensures edits[0].end <= |Applied(lines, edits[1..])|
    ensures Applied(lines, edits) == Splice(Applied(lines, edits[1..]), edits[0])
  {
    assert |edits| > 1 ==> edits[1..][0] == edits[1];
  }

  lemma SpliceParts(prefix: seq<string>, own: seq<string>, out: seq<string>, e: Edit)
    requires e.start == |prefix| && e.end == |prefix| + |own|
    ensures Splice(prefix + own + out, e) == prefix + (e.text + out)
  {
    var all := prefix + own + out;
    assert all[..e.start] == prefix && all[e.end..] == out;
  }

  // ---- Rows and keys ----

  function Keys(sx: Syntax, rows: seq<string>): set<string> {
    set r | r in rows :: sx.key(r)
  }

  /** The rows whose key is new: not in seen and not on an earlier row. */
  function Fresh(sx: Syntax, rows: seq<string>, seen: set<string>): seq<string> {
    if rows == [] then []
    else if sx.key(rows[0]) in seen then Fresh(sx, rows[1..], seen)
    else [rows[0]] + Fresh(sx, rows[1..], seen + {sx.key(rows[0])})
  }

  lemma {:induction false} FreshConcat(sx: Syntax, a: seq<string>, b: seq<string>, seen: set<string>)
    ensures Fresh(sx, a + b, seen) == Fresh(sx, a, seen) + Fresh(sx, b, seen + Keys(sx, a))
    decreases |a|
  {
    if a == [] {
      assert a + b == b && seen + Keys(sx, a) == seen;
    } else {
      var k := sx.key(a[0]);
      assert (a + b)[0] == a[0] && (a + b)[1..] == a[1..] + b;
      assert a == [a[0]] + a[1..];
      assert seen + {k} + Keys(sx, a[1..]) == seen + Keys(sx, a);
      if k in seen {
        assert seen + {k} == seen;
        FreshConcat(sx, a[1..], b, seen);
      } else {
        FreshConcat(sx, a[1..], b, seen + {k});
      }
    }
  }

  lemma FreshAppend(sx: Syntax, rows: seq<string>, r: string, seen: set<string>)
    ensures Fresh(sx, rows + [r], seen) ==
            if sx.key(r) in seen + Keys(sx, rows) then Fresh(sx, rows, seen) else Fresh(sx, rows, seen) + [r]
    ensures Keys(sx, rows + [r]) == Keys(sx, rows) + {sx.key(r)}
  {
    FreshConcat(sx, rows, [r], seen);
    var now := seen + Keys(sx, rows);
    assert [r][1..] == [] && Fresh(sx, [], now) == [] && Fresh(sx, [], now + {sx.key(r)}) == [];
    assert Fresh(sx, rows, seen) + [] == Fresh(sx, rows, seen);
    assert forall x :: x in rows + [r] <==> x in rows || x == r;
  }

  /** Row i has a key of its own: not in seen and not on an earlier row. */
  ghost predicate IsNew(sx: Syntax, rows: seq<string>, seen: set<string>, i: nat) {
    i < |rows| && sx.key(rows[i]) !in seen && forall j :: 0 <= j < i ==> sx.key(rows[j]) != sx.key(rows[i])
  }

  /** The fresh rows are exactly the rows with a key of their own, in order. */
  lemma {:induction false} FreshExact(sx: Syntax, rows: seq<string>, seen: set<string>) returns (js: seq<nat>)
    ensures Picks(rows, js, Fresh(sx, rows, seen))
    ensures forall i: nat :: i in js <==> IsNew(sx, rows, seen, i)
  {
    hide Fresh, Keys, IsNew, Picks;
    if rows == [] {
      js := [];
      NoRows(sx, seen);
    } else {
      var n := |rows| - 1;
      var front, last := rows[..n], rows[n];
      var ks := FreshExact(sx, front, seen);
      assert rows == front + [last];
      FreshAppend(sx, front, last, seen);
      PickOneMore(front, ks, Fresh(sx, front, seen), last);
      OneMoreNew(sx, front, last, seen, ks);
      js := if sx.key(last) in seen + Keys(sx, front) then ks else ks + [n];
      assert Fresh(sx, front, seen) + [] == Fresh(sx, front, seen);
    }
  }

  lemma OneMoreNew(sx: Syntax, front: seq<string>, last: string, seen: set<string>, ks: seq<nat>)
    requires forall i: nat :: i in ks <==> IsNew(sx, front, seen, i)
    ensures var js := if sx.key(last) in seen + Keys(sx, front) then ks else ks + [|front|];
      forall i: nat :: i in js <==> IsNew(sx, front + [last], seen, i)
  {
    var rows, n := front + [last], |front|;
    if sx.key(last) in Keys(sx, front) {
      var r :| r in front && sx.key(r) == sx.key(last);
      var j :| 0 <= j < n && front[j] == r;
      assert rows[j] == r;
    }
    assert forall j :: 0 <= j < n ==> rows[j] == front[j] && sx.key(front[j]) in Keys(sx, front);
    assert forall i: nat :: i < n ==> (IsNew(sx, rows, seen, i) <==> IsNew(sx, front, seen, i));
  }

  lemma NoRows(sx: Syntax, seen: set<string>)
    ensures Fresh(sx, [], seen) == [] && Keys(sx, []) == {}
    ensures Picks<string>([], [], []) && forall i: nat :: !IsNew(sx, [], seen, i)
  {
  }

  /** The loop over one table's rows: kept rows, and the keys seen so far. */
  method KeepFresh(sx: Syntax, rows: seq<string>, seen0: set<string>)
      returns (kept: seq<string>, seen: set<string>, dropped: nat)
    ensures kept == Fresh(sx, rows, seen0) && seen == seen0 + Keys(sx, rows) && dropped == |rows| - |kept|
  {
    kept, seen, dropped := [], seen0, 0;
    NoRows(sx, seen0);
    hide Fresh, Keys;
    for i := 0 to |rows|
      invariant kept == Fresh(sx, rows[..i], seen0)
      invariant seen == seen0 + Keys(sx, rows[..i])
      invariant dropped == i - |kept|
    {
      var key := sx.key(rows[i]);
      assert rows[..i + 1] == rows[..i] + [rows[i]];
      FreshAppend(sx, rows[..i], rows[i], seen0);
      if key in seen {
        dropped := dropped + 1;
        continue;
      }
      seen := seen + {key};
      kept := kept + [rows[i]];
    }
    assert rows[..|rows|] == rows;
  }
}
