/**
 What the accepted-risks removal leaves of a file, line by line, told by the
 text of its entry lines (scripts/apply_stale_risk_removal.py).
 */
module RiskRemovalLaws {
  import opened Basics
  import opened Text
  import opened RiskRemoval

  // ---- Which lines are entries ----

  predicate HasForm(line: Line, id: string, indent: string, gap: string, gap2: string, kind: string, tail: string) {
    && IsBlank(indent) && IsBlank(gap) && IsBlank(gap2) && IsBlank(tail) && IsWord(id)
    && (kind == "cve" || kind == "osv" || kind == "dependabot" || kind == "code-scanning")
    && line == indent + ("-" + (gap + ("id:" + (gap2 + (kind + ("/" + (id + tail)))))))
  }

  /** The line is `- id: <kind>/<id>`, with any white space around the dash, the key and the value. */
  ghost predicate IsEntry(line: Line, id: string) {
    exists indent, gap, gap2, kind, tail :: HasForm(line, id, indent, gap, gap2, kind, tail)
  }

  lemma {:induction false} Skipped(s: string) returns (blanks: string)
    ensures s == blanks + SkipSpaces(s) && IsBlank(blanks)
  {
    if s != "" && IsSpace(s[0]) {
      blanks := Skipped(s[1..]);
      blanks := [s[0]] + blanks;
    } else {
      blanks := "";
    }
  }

  lemma {:induction false} KindUsed(s: string, kinds: seq<string>) returns (kind: string)
    requires AfterKind(s, kinds).Some?
    ensures kind in kinds && s == kind + ("/" + AfterKind(s, kinds).value)
  {
    if kinds[0] + "/" <= s {
      kind := kinds[0];
      assert s == s[..|kind| + 1] + s[|kind| + 1..];
    } else {
      kind := KindUsed(s, kinds[1..]);
    }
  }

  lemma ValueForm(value: string, id: string) returns (kind: string, tail: string)
    requires IdOf(value) == Some(id)
    ensures kind == "cve" || kind == "osv" || kind == "dependabot" || kind == "code-scanning"
    ensures value == kind + ("/" + (id + tail)) && IsWord(id) && IsBlank(tail)
  {
    hide AfterKind, IsBlank;
    kind := KindUsed(value, KINDS);
    var rest := AfterKind(value, KINDS).value;
    var n := WordLength(rest);
    tail := rest[n..];
    assert rest == rest[..n] + rest[n..];
  }

  lemma KeyForm(key: string, id: string) returns (gap2: string, value: string)
    requires IdAfterKey(key) == Some(id)
    ensures IdOf(value) == Some(id) && key == "id:" + (gap2 + value) && IsBlank(gap2)
  {
    hide IdOf, SkipSpaces;
    gap2 := Skipped(key[3..]);
    value := SkipSpaces(key[3..]);
    assert key == key[..3] + key[3..];
  }

  lemma DashForm(line: Line, id: string) returns (indent: string, gap: string, key: string)
    requires EntryId(line) == Some(id)
    ensures IdAfterKey(key) == Some(id) && line == indent + ("-" + (gap + key)) && IsBlank(indent) && IsBlank(gap)
  {
    hide IdAfterKey, SkipSpaces;
    indent := Skipped(line);
    var dash := SkipSpaces(line);
    gap := Skipped(dash[1..]);
    key := SkipSpaces(dash[1..]);
    assert dash == dash[..1] + dash[1..];
  }

  /** The lines taken for entries are exactly those of that form, with exactly their ids. */
  lemma EntryIdExact(line: Line, id: string)
    ensures EntryId(line) == Some(id) <==> IsEntry(line, id)
  {
    hide EntryId, IdAfterKey, IdOf, IsBlank, IsWord;
    if EntryId(line) == Some(id) {
      var indent, gap, key := DashForm(line, id);
      var gap2, value := KeyForm(key, id);
      var kind, tail := ValueForm(value, id);
      assert HasForm(line, id, indent, gap, gap2, kind, tail);
    }
    if indent, gap, gap2, kind, tail :| HasForm(line, id, indent, gap, gap2, kind, tail) {
      EntryLine(indent, gap, gap2, kind, id, tail);
    }
  }

  // ---- Which lines are left ----

  /** Line j is the entry line that line i belongs to: the last one at or before it. */
  ghost predicate Governs(lines: seq<Line>, j: nat, id: string, i: nat) {
    && j <= i < |lines| && IsEntry(lines[j], id)
    && forall k, other :: j < k <= i ==> !IsEntry(lines[k], other)
  }

  /** Line i belongs to an entry to remove. */
  ghost predicate Goes(lines: seq<Line>, i: nat, stale: set<string>) {
    exists j, id :: Governs(lines, j, id, i) && id in stale
  }

  ghost predicate Left(lines: seq<Line>, i: nat, stale: set<string>) {
    i < |lines| && !Goes(lines, i, stale)
  }

  lemma EntryGoverns(lines: seq<Line>, i: nat, id: string, stale: set<string>)
    requires i < |lines| && EntryId(lines[i]) == Some(id)
    ensures Goes(lines, i, stale) <==> id in stale
  {
    hide EntryId, IsEntry;
    EntryIdExact(lines[i], id);
    assert Governs(lines, i, id, i);
    forall j, other | Governs(lines, j, other, i) ensures other == id {
      EntryIdExact(lines[i], other);
      assert j == i;
    }
  }

  lemma CarriesOn(lines: seq<Line>, i: nat, stale: set<string>)
    requires i < |lines| && EntryId(lines[i]).None?
    ensures Goes(lines, i, stale) <==> i > 0 && Goes(lines, i - 1, stale)
  {
    hide EntryId, IsEntry;
    forall id ensures !IsEntry(lines[i], id) {
      EntryIdExact(lines[i], id);
    }
    if Goes(lines, i, stale) {
      var j, id :| Governs(lines, j, id, i) && id in stale;
      assert j != i;
      assert Governs(lines, j, id, i - 1);
    }
    if i > 0 && Goes(lines, i - 1, stale) {
      var j, id :| Governs(lines, j, id, i - 1) && id in stale;
      assert Governs(lines, j, id, i);
    }
  }

  lemma EarlierLine(front: seq<Line>, l: Line, i: nat, stale: set<string>)
    requires i < |front|
    ensures Goes(front + [l], i, stale) <==> Goes(front, i, stale)
  {
    hide IsEntry;
    forall j, id ensures Governs(front + [l], j, id, i) <==> Governs(front, j, id, i) {
      assert forall k :: 0 <= k < |front| ==> (front + [l])[k] == front[k];
    }
  }

  lemma KeptLast(front: seq<Line>, l: Line, stale: set<string>)
    ensures Kept(front + [l], stale, true) ==
            Kept(front, stale, true) + if Keeps(l, stale, KeepsOn(front, stale, true)) then [l] else []
    ensures KeepsOn(front + [l], stale, true) == Keeps(l, stale, KeepsOn(front, stale, true))
  {
    hide Keeps;
    KeptConcat(front, [l], stale, true);
    KeepsOnLast(front, l, stale, true);
    var now := Keeps(l, stale, KeepsOn(front, stale, true));
    assert Kept([l], stale, KeepsOn(front, stale, true)) == (if now then [l] else []) + [];
  }

  lemma {:induction false} KeepsOnLast(front: seq<Line>, l: Line, stale: set<string>, keeping: bool)
    ensures KeepsOn(front + [l], stale, keeping) == Keeps(l, stale, KeepsOn(front, stale, keeping))
    decreases |front|
  {
    hide Keeps;
    if front == [] {
      assert ([] + [l])[1..] == [];
    } else {
      assert (front + [l])[1..] == front[1..] + [l];
      KeepsOnLast(front[1..], l, stale, Keeps(front[0], stale, keeping));
    }
  }

  /** What is kept is exactly the lines that belong to no entry to remove. */
  lemma {:induction false} KeptExact(lines: seq<Line>, stale: set<string>) returns (js: seq<nat>)
    ensures Picks(lines, js, Kept(lines, stale, true))
    ensures forall i: nat :: i in js <==> Left(lines, i, stale)
    ensures KeepsOn(lines, stale, true) <==> lines == [] || Left(lines, |lines| - 1, stale)
  {
    hide EntryId, Kept, KeepsOn, Picks, Left;
    if lines == [] {
      js := [];
      NothingKept(stale);
    } else {
      var n := |lines| - 1;
      var front, l := lines[..n], lines[n];
      var ks := KeptExact(front, stale);
      assert lines == front + [l];
      KeptLast(front, l, stale);
      KeepsExactly(front, l, stale);
      js := if Left(lines, n, stale) then ks + [n] else ks;
      OneMoreLeft(front, l, ks, stale);
      PickOneMore(front, ks, Kept(front, stale, true), l);
    }
  }

  lemma KeepsExactly(front: seq<Line>, l: Line, stale: set<string>)
    requires KeepsOn(front, stale, true) <==> front == [] || Left(front, |front| - 1, stale)
    ensures Keeps(l, stale, KeepsOn(front, stale, true)) <==> Left(front + [l], |front|, stale)
  {
    hide EntryId, Goes, KeepsOn;
    var lines, n := front + [l], |front|;
    if EntryId(l).Some? {
      EntryGoverns(lines, n, EntryId(l).value, stale);
    } else {
      CarriesOn(lines, n, stale);
      if n > 0 { EarlierLine(front, l, n - 1, stale); }
    }
  }

  lemma OneMoreLeft(front: seq<Line>, l: Line, ks: seq<nat>, stale: set<string>)
    requires forall i: nat :: i in ks <==> Left(front, i, stale)
    ensures var lines := front + [l];
      var js := if Left(lines, |front|, stale) then ks + [|front|] else ks;
      forall i: nat :: i in js <==> Left(lines, i, stale)
  {
    hide Goes;
    var lines := front + [l];
    forall i: nat | i < |front| ensures Left(lines, i, stale) <==> Left(front, i, stale) {
      EarlierLine(front, l, i, stale);
    }
  }

  lemma NothingKept(stale: set<string>)
    ensures Kept([], stale, true) == [] && KeepsOn([], stale, true)
    ensures Picks<Line>([], [], []) && forall i: nat :: !Left([], i, stale)
  {
  }

  // ---- The whole edit ----

  /** Line i is left and is no blank line of the end. */
  ghost predicate Stays(lines: seq<Line>, i: nat, stale: set<string>) {
    Left(lines, i, stale) && exists k :: i <= k && Left(lines, k, stale) && !IsBlank(lines[k])
  }

  lemma TrimExact(lines: seq<Line>)
    ensures var n := |Trim(lines)|;
      && n <= |lines| && Trim(lines) == lines[..n] && (n > 0 ==> !IsBlank(lines[n - 1]))
      && forall i :: n <= i < |lines| ==> IsBlank(lines[i])
  {
    hide IsBlank;
    if lines != [] && IsBlank(lines[|lines| - 1]) {
      TrimExact(lines[..|lines| - 1]);
    }
  }

  /**
   A file without an entry to remove is left as it is. Any other keeps, in
   order, exactly the lines that belong to no such entry, up to the last of them
   that is not blank, and then has one empty line.
   */
  lemma RemovedExact(lines: seq<Line>, stale: set<string>)
    ensures (forall i, id :: 0 <= i < |lines| && IsEntry(lines[i], id) ==> id !in stale) ==>
              Removed(lines, stale) == lines
    ensures (exists i, id :: 0 <= i < |lines| && IsEntry(lines[i], id) && id in stale) ==>
              exists js: seq<nat>, out ::
                && Removed(lines, stale) == out + [""] && Picks(lines, js, out)
                && forall i: nat :: i in js <==> Stays(lines, i, stale)
  {
    hide EntryId, IsEntry, Kept, Picks, Stays, IsBlank, Trim;
    HitsExact(lines, stale);
    if Hits(lines, stale) {
      var kept := Kept(lines, stale, true);
      var js := KeptExact(lines, stale);
      TrimExact(kept);
      PickSize(lines, js, kept);
      TrimmedPicks(lines, js, kept, |Trim(kept)|, stale);
      js := js[..|Trim(kept)|];
      assert Removed(lines, stale) == Trim(kept) + [""] && Picks(lines, js, Trim(kept));
      assert forall i: nat :: i in js <==> Stays(lines, i, stale);
    }
  }

  lemma HitsExact(lines: seq<Line>, stale: set<string>)
    ensures Hits(lines, stale) <==> exists i, id :: 0 <= i < |lines| && IsEntry(lines[i], id) && id in stale
  {
    hide EntryId, IsEntry;
    if Hits(lines, stale) {
      var i :| 0 <= i < |lines| && EntryId(lines[i]).Some? && EntryId(lines[i]).value in stale;
      EntryIdExact(lines[i], EntryId(lines[i]).value);
    }
    if i, id :| 0 <= i < |lines| && IsEntry(lines[i], id) && id in stale {
      EntryIdExact(lines[i], id);
    }
  }

  lemma TrimmedPicks(lines: seq<Line>, js: seq<nat>, kept: seq<Line>, n: nat, stale: set<string>)
    requires n <= |kept| == |js| && (n > 0 ==> !IsBlank(kept[n - 1]))
    requires forall k :: n <= k < |kept| ==> IsBlank(kept[k])
    requires Picks(lines, js, kept) && forall i: nat :: i in js <==> Left(lines, i, stale)
    ensures Picks(lines, js[..n], kept[..n])
    ensures forall i: nat :: i in js[..n] <==> Stays(lines, i, stale)
  {
    hide Left, IsBlank;
    forall i: nat | i in js[..n] ensures Stays(lines, i, stale) {
      assert js[n - 1] in js && i <= js[n - 1];
    }
    forall i: nat | Stays(lines, i, stale) ensures i in js[..n] {
      var k :| i <= k && Left(lines, k, stale) && !IsBlank(lines[k]);
      var b :| 0 <= b < |js| && js[b] == k;
      var a :| 0 <= a < |js| && js[a] == i;
      assert b < n && a <= b;
      assert js[..n][a] == i;
    }
  }
}
