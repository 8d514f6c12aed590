/**
 Removing fixed entries from the accepted-risks registry
 (scripts/apply_stale_risk_removal.py). The file is edited as text: an entry is
 its `- id:` line and everything up to the next one.
 */
module RiskRemoval {
  import opened Text
  import opened Basics
  import opened Encoding

  type Line = string

  const KINDS := ["cve", "osv", "dependabot", "code-scanning"]

  function SkipSpaces(s: string): string {
    if s != "" && IsSpace(s[0]) then SkipSpaces(s[1..]) else s
  }

  /** What follows one of the kinds and a slash. */
  function AfterKind(s: string, kinds: seq<string>): Option<string> {
    if kinds == [] then None
    else if kinds[0] + "/" <= s then Some(s[|kinds[0]| + 1..])
    else AfterKind(s, kinds[1..])
  }

  /** The id after `<kind>/`, when nothing but white space follows it. */
  function IdOf(value: string): Option<string> {
    match AfterKind(value, KINDS)
    case None => None
    case Some(rest) =>
      var n := WordLength(rest);
      if n > 0 && IsBlank(rest[n..]) then Some(rest[..n]) else None
  }

  function IdAfterKey(key: string): Option<string> {
    if "id:" <= key then IdOf(SkipSpaces(key[3..])) else None
  }

  /** The id of an entry's first line: `- id: <kind>/<id>` and nothing else but white space. */
  function EntryId(line: Line): Option<string> {
    var dash := SkipSpaces(line);
    if "-" <= dash then IdAfterKey(SkipSpaces(dash[1..])) else None
  }

  lemma {:induction false} SkippedInto(s: string)
    ensures SkipSpaces(s) != "" ==> SkipSpaces(s)[0] in s
  {
    hide IsSpace;
    if s != "" {
      SkippedInto(s[1..]);
      assert s == [s[0]] + s[1..];
    }
  }

  lemma EntryNotBlank(line: Line)
    requires EntryId(line).Some?
    ensures !IsBlank(line)
  {
    assert !IsSpace('-');
    SkippedInto(line);
    hide IdAfterKey, SkipSpaces, IsSpace;
    assert SkipSpaces(line)[0] == '-';
    var i :| 0 <= i < |line| && line[i] == '-';
  }

  lemma {:induction false} SkipBlank(blanks: string, s: string)
    requires IsBlank(blanks) && s != "" && !IsSpace(s[0])
    ensures SkipSpaces(blanks + s) == s
    decreases |blanks|
  {
    hide IsSpace;
    if blanks == "" {
      assert blanks + s == s;
    } else {
      assert (blanks + s)[0] == blanks[0] && (blanks + s)[1..] == blanks[1..] + s;
      SkipBlank(blanks[1..], s);
    }
  }

  /** An entry line of any kind is recognised with exactly its id, whatever white space its gaps and its end hold. */
  lemma EntryLine(indent: string, gap: string, gap2: string, kind: string, id: string, tail: string)
    requires IsBlank(indent) && IsBlank(gap) && IsBlank(gap2) && IsBlank(tail) && kind in KINDS && IsWord(id)
    ensures EntryId(indent + ("-" + (gap + ("id:" + (gap2 + (kind + ("/" + (id + tail)))))))) == Some(id)
  {
    var value := kind + ("/" + (id + tail));
    KindStarts(kind, "/" + (id + tail));
    assert !IsSpace('-') && !IsSpace('i');
    ValueId(kind, id, tail);
    hide IsSpace, IdOf, SkipSpaces, IdAfterKey, IsWord, IsBlank;
    SkipBlank(gap2, value);
    KeyId(gap2 + value, value);
    var key := "id:" + (gap2 + value);
    SkipBlank(gap, key);
    var dash := "-" + (gap + key);
    SkipBlank(indent, dash);
    assert dash[1..] == gap + key;
  }

  lemma KindStarts(kind: string, rest: string)
    requires kind in KINDS
    ensures kind != "" && !IsSpace((kind + rest)[0])
  {
    assert kind == "cve" || kind == "osv" || kind == "dependabot" || kind == "code-scanning";
    assert (kind + rest)[0] == kind[0];
  }

  lemma KeyId(after: string, value: string)
    requires SkipSpaces(after) == value
    ensures IdAfterKey("id:" + after) == IdOf(value)
  {
    hide SkipSpaces, IdOf;
    assert ("id:" + after)[3..] == after;
  }

  /** No kind is read off the start of another one's value: kinds differ in their first two characters. */
  lemma OtherKind(a: string, b: string, rest: string)
    requires a in KINDS && b in KINDS && a != b
    ensures !(a + "/" <= b + ("/" + rest))
  {
    assert a == "cve" || a == "osv" || a == "dependabot" || a == "code-scanning";
    assert b == "cve" || b == "osv" || b == "dependabot" || b == "code-scanning";
    assert a[0] != b[0] || a[1] != b[1];
    var value := b + ("/" + rest);
    assert value[0] == b[0] && value[1] == b[1];
    assert (a + "/")[0] == a[0] && (a + "/")[1] == a[1];
  }

  lemma {:induction false} KindRead(kinds: seq<string>, kind: string, rest: string)
    requires kind in kinds && kind in KINDS && forall k :: k in kinds ==> k in KINDS
    ensures AfterKind(kind + ("/" + rest), kinds) == Some(rest)
  {
    var value := kind + ("/" + rest);
    if kinds[0] == kind {
      assert value[..|kind| + 1] == kind + "/" && value[|kind| + 1..] == rest;
    } else {
      OtherKind(kinds[0], kind, rest);
      assert kinds == [kinds[0]] + kinds[1..];
      KindRead(kinds[1..], kind, rest);
    }
  }

  lemma ValueId(kind: string, id: string, tail: string)
    requires kind in KINDS && IsWord(id) && IsBlank(tail)
    ensures IdOf(kind + ("/" + (id + tail))) == Some(id)
  {
    KindRead(KINDS, kind, id + tail);
    hide AfterKind, IsSpace;
    var n := WordLength(id + tail);
    assert forall i :: 0 <= i < |id| ==> (id + tail)[i] == id[i];
    assert tail != "" ==> (id + tail)[|id|] == tail[0];
    assert n == |id|;
    assert (id + tail)[..|id|] == id && (id + tail)[|id|..] == tail;
  }

  // ---- What removal means, line by line ----

  /** Some entry of the file has an id to remove. */
  ghost predicate Hits(lines: seq<Line>, stale: set<string>) {
    exists i :: 0 <= i < |lines| && EntryId(lines[i]).Some? && EntryId(lines[i]).value in stale
  }

  /** Whether a line is kept, given whether the line before it was. */
  predicate Keeps(line: Line, stale: set<string>, keeping: bool) {
    match EntryId(line) case Some(id) => id !in stale case None => keeping
  }

  /** The lines whose governing entry stays; the header has none and always does. */
  function Kept(lines: seq<Line>, stale: set<string>, keeping: bool): seq<Line> {
    if lines == [] then []
    else
      var now := Keeps(lines[0], stale, keeping);
      (if now then [lines[0]] else []) + Kept(lines[1..], stale, now)
  }

  function Trim(lines: seq<Line>): seq<Line> {
    if lines != [] && IsBlank(lines[|lines| - 1]) then Trim(lines[..|lines| - 1]) else lines
  }

  /** The file after removal: untouched when nothing matches. */
  ghost function Removed(lines: seq<Line>, stale: set<string>): seq<Line> {
    if Hits(lines, stale) then Trim(Kept(lines, stale, true)) + [""] else lines
  }

  // ---- The script ----

  datatype Block = Block(id: string, lines: seq<Line>)

  /** A block: an entry line with the block's id, then lines that start no entry. */
  ghost predicate IsBlock(b: Block) {
    b.lines != [] && EntryId(b.lines[0]) == Some(b.id) && NoEntry(b.lines[1..])
  }

  ghost predicate NoEntry(lines: seq<Line>) {
    forall l :: l in lines ==> EntryId(l).None?
  }

  function Concat(blocks: seq<Block>): seq<Line> {
    if blocks == [] then [] else Concat(blocks[..|blocks| - 1]) + blocks[|blocks| - 1].lines
  }

  /** The end of the run of lines from `start` on that start no entry. */
  method SkipBody(lines: seq<Line>, start: nat) returns (end: nat)
    requires start <= |lines|
    ensures start <= end <= |lines| && NoEntry(lines[start..end])
    ensures end < |lines| ==> EntryId(lines[end]).Some?
  {
    hide EntryId;
    end := start;
    while end < |lines| && EntryId(lines[end]).None?
      invariant start <= end <= |lines| && NoEntry(lines[start..end])
    {
      assert lines[start..end + 1] == lines[start..end] + [lines[end]];
      end := end + 1;
    }
  }

  /** Header and blocks put back together are the file, and they are split at the entry lines. */
  method ParseEntries(lines: seq<Line>) returns (header: seq<Line>, entries: seq<Block>)
    ensures header + Concat(entries) == lines
    ensures NoEntry(header) && forall b :: b in entries ==> IsBlock(b)
  {
    var i := SkipBody(lines, 0);
    header, entries := lines[..i], [];
    assert header + Concat(entries) == lines[..i] && lines[0..i] == lines[..i];
    hide EntryId, Concat, NoEntry, IsBlock;
    while i < |lines|
      invariant i <= |lines| && header + Concat(entries) == lines[..i]
      invariant i < |lines| ==> EntryId(lines[i]).Some?
      invariant forall b :: b in entries ==> IsBlock(b)
    {
      var id, start := EntryId(lines[i]).value, i;
      i := SkipBody(lines, i + 1);
      CutBlock(lines, header, entries, start, i, id);
      entries := entries + [Block(id, lines[start..i])];
    }
    assert lines[..|lines|] == lines;
  }

  lemma CutBlock(lines: seq<Line>, header: seq<Line>, entries: seq<Block>, start: nat, end: nat, id: string)
    requires start < end <= |lines| && header + Concat(entries) == lines[..start]
    requires EntryId(lines[start]) == Some(id) && NoEntry(lines[start + 1..end])
    ensures IsBlock(Block(id, lines[start..end]))
    ensures header + Concat(entries + [Block(id, lines[start..end])]) == lines[..end]
  {
    hide EntryId, Concat, NoEntry;
    var block := Block(id, lines[start..end]);
    assert block.lines[1..] == lines[start + 1..end];
    ConcatAppend(entries, block);
    assert header + (Concat(entries) + block.lines) == lines[..start] + block.lines;
    assert lines[..start] + lines[start..end] == lines[..end];
  }

  /** The kept blocks after the header, and the ids of the others. */
  method SplitOff(header: seq<Line>, entries: seq<Block>, stale: set<string>)
      returns (out: seq<Line>, removed: seq<string>)
    ensures out == header + Concat(Survivors(entries, stale))
    ensures removed != [] <==> exists b :: b in entries && b.id in stale
  {
    out, removed := header, [];
    SurvivorsOfNone(stale);
    hide Concat, Survivors;
    for i := 0 to |entries|
      invariant out == header + Concat(Survivors(entries[..i], stale))
      invariant removed != [] <==> exists b :: b in entries[..i] && b.id in stale
    {
      var b := entries[i];
      assert entries[..i + 1] == entries[..i] + [b];
      SurvivorsAppend(entries[..i], b, stale);
      if b.id in stale {
        assert b in entries[..i + 1];
        removed := removed + [b.id];
      } else {
        ghost var kept := Survivors(entries[..i], stale);
        ConcatAppend(kept, b);
        assert header + (Concat(kept) + b.lines) == (header + Concat(kept)) + b.lines;
        out := out + b.lines;
      }
    }
    assert entries[..|entries|] == entries;
  }

  lemma SurvivorsOfNone(stale: set<string>)
    ensures Concat(Survivors([], stale)) == []
  {
  }

  lemma SurvivorsAppend(blocks: seq<Block>, b: Block, stale: set<string>)
    ensures Survivors(blocks + [b], stale) ==
            if b.id in stale then Survivors(blocks, stale) else Survivors(blocks, stale) + [b]
  {
    assert (blocks + [b])[..|blocks|] == blocks;
  }

  lemma ConcatAppend(blocks: seq<Block>, b: Block)
    ensures Concat(blocks + [b]) == Concat(blocks) + b.lines
  {
    assert (blocks + [b])[..|blocks|] == blocks;
  }

  /** The edit of the registry's lines: exactly the removal, and None when the file is not written. */
  method RemoveStale(lines: seq<Line>, stale: set<string>) returns (written: Option<seq<Line>>)
    ensures written.Some? <==> Hits(lines, stale)
    ensures written.Some? ==> written.value == Removed(lines, stale)
  {
    hide Hits, Kept, Survivors, Concat, IsBlock, NoEntry, IsBlank;
    var header, entries := ParseEntries(lines);
    HitsBlocks(header, entries, stale);
    var out, removed := SplitOff(header, entries, stale);
    if removed == [] {
      return None;
    }
    KeptBlocks(header, entries, stale);
    ghost var all := out;
    while out != [] && IsBlank(out[|out| - 1])
      invariant Trim(out) == Trim(all)
    {
      out := out[..|out| - 1];
    }
    return Some(out + [""]);
  }

  function Survivors(blocks: seq<Block>, stale: set<string>): (r: seq<Block>)
    ensures |r| <= |blocks|
  {
    if blocks == [] then []
    else
      var front, last := Survivors(blocks[..|blocks| - 1], stale), blocks[|blocks| - 1];
      if last.id in stale then front else front + [last]
  }

  /** Whether the line after these is kept when it starts no entry. */
  function KeepsOn(lines: seq<Line>, stale: set<string>, keeping: bool): bool {
    if lines == [] then keeping else KeepsOn(lines[1..], stale, Keeps(lines[0], stale, keeping))
  }

  lemma {:induction false} KeptConcat(a: seq<Line>, b: seq<Line>, stale: set<string>, keeping: bool)
    ensures Kept(a + b, stale, keeping) == Kept(a, stale, keeping) + Kept(b, stale, KeepsOn(a, stale, keeping))
    decreases |a|
  {
    if a == [] {
      assert a + b == b;
    } else {
      var now := Keeps(a[0], stale, keeping);
      KeptConcat(a[1..], b, stale, now);
      KeptFirst(a[0], a[1..], stale, keeping);
      KeptFirst(a[0], a[1..] + b, stale, keeping);
      hide Kept, Keeps;
      assert [a[0]] + a[1..] == a && [a[0]] + (a[1..] + b) == a + b;
      Associate(if now then [a[0]] else [], Kept(a[1..], stale, now), Kept(b, stale, KeepsOn(a, stale, keeping)));
    }
  }

  /** Lines that start no entry are kept or dropped together. */
  lemma {:induction false} KeptNoEntry(a: seq<Line>, stale: set<string>, keeping: bool)
    requires NoEntry(a)
    ensures KeepsOn(a, stale, keeping) == keeping && Kept(a, stale, keeping) == if keeping then a else []
  {
    if a != [] {
      FirstNotEntry(a, stale, keeping);
      KeptNoEntry(a[1..], stale, keeping);
      hide NoEntry, Keeps;
      assert [a[0]] + a[1..] == a;
    }
  }

  lemma KeptFirst(l: Line, rest: seq<Line>, stale: set<string>, keeping: bool)
    ensures var now := Keeps(l, stale, keeping);
      Kept([l] + rest, stale, keeping) == (if now then [l] else []) + Kept(rest, stale, now)
  {
    hide Keeps;
    assert ([l] + rest)[1..] == rest;
  }

  lemma FirstNotEntry(a: seq<Line>, stale: set<string>, keeping: bool)
    requires a != [] && NoEntry(a)
    ensures NoEntry(a[1..]) && Keeps(a[0], stale, keeping) == keeping
  {
    hide EntryId;
    assert a[0] in a;
  }

  lemma KeptBlock(b: Block, stale: set<string>, keeping: bool)
    requires IsBlock(b)
    ensures Kept(b.lines, stale, keeping) == if b.id in stale then [] else b.lines
  {
    hide EntryId, IsBlank;
    var now := b.id !in stale;
    KeptNoEntry(b.lines[1..], stale, now);
    assert b.lines == [b.lines[0]] + b.lines[1..];
  }

  lemma {:induction false} KeptBlocks(header: seq<Line>, blocks: seq<Block>, stale: set<string>)
    requires NoEntry(header) && forall b :: b in blocks ==> IsBlock(b)
    ensures Kept(header + Concat(blocks), stale, true) == header + Concat(Survivors(blocks, stale))
  {
    hide EntryId, Kept, IsBlock, NoEntry;
    if blocks == [] {
      KeptNoEntry(header, stale, true);
      assert header + [] == header;
    } else {
      var front, b := blocks[..|blocks| - 1], blocks[|blocks| - 1];
      assert blocks == front + [b] && b in blocks;
      KeptBlocks(header, front, stale);
      KeptOneMore(header, front, b, stale);
    }
  }

  lemma KeptOneMore(header: seq<Line>, front: seq<Block>, b: Block, stale: set<string>)
    requires IsBlock(b) && Kept(header + Concat(front), stale, true) == header + Concat(Survivors(front, stale))
    ensures Kept(header + Concat(front + [b]), stale, true) == header + Concat(Survivors(front + [b], stale))
  {
    hide EntryId, Kept, IsBlock, NoEntry, Concat, Survivors;
    var kept := Survivors(front, stale);
    KeptConcat(header + Concat(front), b.lines, stale, true);
    KeptBlock(b, stale, KeepsOn(header + Concat(front), stale, true));
    ConcatAppend(front, b);
    SurvivorsAppend(front, b, stale);
    ConcatAppend(kept, b);
    assert header + (Concat(front) + b.lines) == (header + Concat(front)) + b.lines;
    assert header + (Concat(kept) + b.lines) == (header + Concat(kept)) + b.lines;
  }

  lemma HitsConcat(a: seq<Line>, b: seq<Line>, stale: set<string>)
    ensures Hits(a + b, stale) <==> Hits(a, stale) || Hits(b, stale)
  {
    hide EntryId, IsBlank;
    var s := a + b;
    if Hits(a, stale) {
      var i :| 0 <= i < |a| && EntryId(a[i]).Some? && EntryId(a[i]).value in stale;
      assert s[i] == a[i];
    }
    if Hits(b, stale) {
      var i :| 0 <= i < |b| && EntryId(b[i]).Some? && EntryId(b[i]).value in stale;
      assert s[|a| + i] == b[i];
    }
  }

  lemma BlockHits(b: Block, stale: set<string>)
    requires IsBlock(b)
    ensures Hits(b.lines, stale) <==> b.id in stale
  {
    hide EntryId;
    assert b.lines == [b.lines[0]] + b.lines[1..];
    HitsConcat([b.lines[0]], b.lines[1..], stale);
    OneLine(b.lines[0], stale);
    assert forall i :: 0 <= i < |b.lines[1..]| ==> b.lines[1..][i] in b.lines[1..];
  }

  lemma {:induction false} HitsBlocks(header: seq<Line>, blocks: seq<Block>, stale: set<string>)
    requires NoEntry(header) && forall b :: b in blocks ==> IsBlock(b)
    ensures Hits(header + Concat(blocks), stale) <==> exists b :: b in blocks && b.id in stale
  {
    hide EntryId, IsBlank;
    if blocks == [] {
      assert header + Concat(blocks) == header;
    } else {
      var front, b := blocks[..|blocks| - 1], blocks[|blocks| - 1];
      HitsBlocks(header, front, stale);
      assert Concat(blocks) == Concat(front) + b.lines;
      hide Concat, Hits, NoEntry, IsBlock;
      assert header + (Concat(front) + b.lines) == (header + Concat(front)) + b.lines;
      HitsConcat(header + Concat(front), b.lines, stale);
      assert b in blocks;
      BlockHits(b, stale);
      assert blocks == front + [b];
    }
  }

  // ---- Removing in two steps ----

  /** Keeping twice is keeping once with both sets. */
  lemma {:induction false} KeptTwice(lines: seq<Line>, s1: set<string>, s2: set<string>, k1: bool, k2: bool)
    ensures Kept(Kept(lines, s1, k1), s2, k2) == Kept(lines, s1 + s2, k1 && k2)
    decreases |lines|
  {
    hide EntryId, IsBlank;
    if lines != [] {
      var now1 := Keeps(lines[0], s1, k1);
      var rest := Kept(lines[1..], s1, now1);
      if now1 {
        assert ([lines[0]] + rest)[1..] == rest;
        KeptTwice(lines[1..], s1, s2, now1, Keeps(lines[0], s2, k2));
      } else {
        assert [] + rest == rest;
        KeptTwice(lines[1..], s1, s2, now1, k2);
      }
    }
  }

  lemma {:induction false} KeptAll(lines: seq<Line>, stale: set<string>)
    requires !Hits(lines, stale)
    ensures Kept(lines, stale, true) == lines
  {
    hide EntryId, IsBlank;
    if lines != [] {
      assert lines == [lines[0]] + lines[1..];
      HitsConcat([lines[0]], lines[1..], stale);
      KeptAll(lines[1..], stale);
      assert [lines[0]][0] == lines[0];
    }
  }

  ghost predicate AllBlank(lines: seq<Line>) {
    forall l :: l in lines ==> IsBlank(l)
  }

  lemma BlanksHitNothing(blanks: seq<Line>, stale: set<string>)
    requires AllBlank(blanks)
    ensures NoEntry(blanks) && !Hits(blanks, stale)
  {
    hide EntryId, IsBlank;
    forall l | l in blanks ensures EntryId(l).None? {
      if EntryId(l).Some? { EntryNotBlank(l); }
    }
  }

  lemma {:induction false} TrimSplits(lines: seq<Line>) returns (blanks: seq<Line>)
    ensures lines == Trim(lines) + blanks && AllBlank(blanks)
  {
    hide EntryId, IsBlank;
    if lines != [] && IsBlank(lines[|lines| - 1]) {
      blanks := TrimSplits(lines[..|lines| - 1]);
      blanks := blanks + [lines[|lines| - 1]];
    } else {
      blanks := [];
    }
  }

  lemma {:induction false} TrimDropsBlanks(lines: seq<Line>, blanks: seq<Line>)
    requires AllBlank(blanks)
    ensures Trim(lines + blanks) == Trim(lines)
    decreases |blanks|
  {
    hide EntryId, IsBlank;
    if blanks == [] {
      assert lines + blanks == lines;
    } else {
      var n := |blanks| - 1;
      assert blanks[n] in blanks;
      assert (lines + blanks)[..|lines + blanks| - 1] == lines + blanks[..n];
      TrimDropsBlanks(lines, blanks[..n]);
    }
  }

  /** Blank lines at the end of the file do not survive a removal, wherever they were cut. */
  lemma TrailingBlanksIrrelevant(lines: seq<Line>, blanks: seq<Line>, stale: set<string>)
    requires AllBlank(blanks)
    ensures Trim(Kept(lines + blanks, stale, true)) == Trim(Kept(lines, stale, true))
    ensures Hits(lines + blanks, stale) <==> Hits(lines, stale)
  {
    hide EntryId, IsBlank;
    BlanksHitNothing(blanks, stale);
    HitsConcat(lines, blanks, stale);
    KeptConcat(lines, blanks, stale, true);
    KeptNoEntry(blanks, stale, KeepsOn(lines, stale, true));
    TrimDropsBlanks(Kept(lines, stale, true), blanks);
    assert Kept(lines, stale, true) + [] == Kept(lines, stale, true);
  }

  lemma {:induction false} HitsKept(lines: seq<Line>, s1: set<string>, s2: set<string>, keeping: bool)
    ensures Hits(lines, s1 + s2) <==> Hits(lines, s1) || Hits(Kept(lines, s1, keeping), s2)
    decreases |lines|
  {
    hide EntryId, IsBlank;
    if lines != [] {
      var l, now := lines[0], Keeps(lines[0], s1, keeping);
      HitsKept(lines[1..], s1, s2, now);
      assert lines == [l] + lines[1..];
      HitsConcat([l], lines[1..], s1 + s2);
      HitsConcat([l], lines[1..], s1);
      HitsConcat(if now then [l] else [], Kept(lines[1..], s1, now), s2);
      OneLine(l, s1 + s2);
      OneLine(l, s1);
      OneLine(l, s2);
    }
  }

  lemma OneLine(l: Line, stale: set<string>)
    ensures Hits([l], stale) <==> EntryId(l).Some? && EntryId(l).value in stale
  {
    hide EntryId, IsBlank;
    assert [l][0] == l;
  }

  /** The trimmed file that a removal wrote answers the next one as the untrimmed lines would. */
  lemma NextRemoval(once: seq<Line>, stale: set<string>)
    ensures Hits(Trim(once) + [""], stale) <==> Hits(once, stale)
    ensures Trim(Kept(Trim(once) + [""], stale, true)) == Trim(Kept(once, stale, true))
  {
    assert IsBlank("");
    hide EntryId, IsBlank, Hits, Kept, Trim;
    var blanks := TrimSplits(once);
    TrailingBlanksIrrelevant(Trim(once), blanks, stale);
    TrailingBlanksIrrelevant(Trim(once), [""], stale);
  }

  /** Removing one set of ids and then another gives the same file as removing both at once. */
  lemma RemovalsCompose(lines: seq<Line>, s1: set<string>, s2: set<string>)
    ensures Removed(Removed(lines, s1), s2) == Removed(lines, s1 + s2)
  {
    hide EntryId, IsBlank, Hits, Kept, Trim;
    var once := Kept(lines, s1, true);
    KeptTwice(lines, s1, s2, true, true);
    HitsKept(lines, s1, s2, true);
    NextRemoval(once, s2);
    if !Hits(lines, s1) {
      KeptAll(lines, s1);
    }
    if !Hits(once, s2) {
      KeptAll(once, s2);
    }
  }

  // ---- The file ----

  /** Lines joined with newlines and a final newline. */
  function FileText(lines: seq<Line>): string {
    if lines == [] then "" else lines[0] + ['\n'] + FileText(lines[1..])
  }

  function LineLength(text: string): (n: nat)
    ensures n <= |text| && '\n' !in text[..n] && (n < |text| ==> text[n] == '\n')
  {
    if text == "" || text[0] == '\n' then 0 else 1 + LineLength(text[1..])
  }

  /** The lines of a file, without their newlines. */
  function FileLines(text: string): seq<Line>
    decreases |text|
  {
    if text == "" then []
    else
      var n := LineLength(text);
      [text[..n]] + if n < |text| then FileLines(text[n + 1..]) else []
  }

  /** Writing lines and reading them back gives the lines. */
  lemma {:induction false} ReadBack(lines: seq<Line>)
    requires forall l :: l in lines ==> '\n' !in l
    ensures FileLines(FileText(lines)) == lines
  {
    hide EntryId, IsBlank;
    if lines != [] {
      var text, rest := FileText(lines), FileText(lines[1..]);
      var n := LineLength(text);
      assert lines[0] in lines;
      assert text == text[..n] + ['\n'] + text[n + 1..] by {
        assert '\n' == text[|lines[0]|];
        assert text[..|text|] == text;
      }
      CutUnique('\n', text[..n], text[n + 1..], lines[0], rest);
      ReadBack(lines[1..]);
    }
  }

  /** One run of the script on the file's text. */
  ghost function RunOnText(text: string, stale: set<string>): string {
    if Hits(FileLines(text), stale) then FileText(Removed(FileLines(text), stale)) else text
  }

  lemma {:induction false} LinesHaveNoNewline(text: string)
    ensures forall l :: l in FileLines(text) ==> '\n' !in l
    decreases |text|
  {
    hide EntryId, IsBlank;
    if text != "" {
      var n := LineLength(text);
      if n < |text| { LinesHaveNoNewline(text[n + 1..]); }
    }
  }

  lemma {:induction false} KeptSubset(lines: seq<Line>, stale: set<string>, keeping: bool)
    ensures forall l :: l in Kept(lines, stale, keeping) ==> l in lines
    decreases |lines|
  {
    hide EntryId, IsBlank;
    if lines != [] {
      KeptSubset(lines[1..], stale, Keeps(lines[0], stale, keeping));
      assert lines == [lines[0]] + lines[1..];
    }
  }

  /** Two runs of the script leave the same file, byte for byte, as one run with both lists. */
  lemma RunsCompose(text: string, s1: set<string>, s2: set<string>)
    ensures RunOnText(RunOnText(text, s1), s2) == RunOnText(text, s1 + s2)
  {
    hide EntryId, IsBlank;
    var lines := FileLines(text);
    hide Hits, FileLines, FileText, LineLength;
    RemovalsCompose(lines, s1, s2);
    HitsKept(lines, s1, s2, true);
    if Hits(lines, s1) {
      LinesHaveNoNewline(text);
      KeptSubset(lines, s1, true);
      var once := Kept(lines, s1, true);
      var blanks := TrimSplits(once);
      assert forall l :: l in Trim(once) ==> l in once;
      assert forall l :: l in Removed(lines, s1) ==> '\n' !in l;
      ReadBack(Removed(lines, s1));
    } else {
      KeptAll(lines, s1);
    }
  }
}
