/**
 Generating the container scanner's ignore file (scripts/gen_trivyignore.py):
 the greedy line wrap and the grouping of consecutive registry entries.
 */
module TrivyIgnore {
  import opened Text

  // ---- Line breaking ----

  function Flatten<T>(groups: seq<seq<T>>): seq<T> {
    if groups == [] then [] else Flatten(groups[..|groups| - 1]) + groups[|groups| - 1]
  }

  /** A way to break words into lines: non-empty lines, all words, in order. */
  ghost predicate Breaks(lines: seq<seq<string>>, words: seq<string>) {
    && Flatten(lines) == words
    && forall i :: 0 <= i < |lines| ==> lines[i] != []
  }

  /** Every line is within the width unless it is a single word. */
  ghost predicate Fits(lines: seq<seq<string>>, width: int) {
    forall i :: 0 <= i < |lines| ==> |lines[i]| == 1 || |Joined(lines[i])| <= width
  }

  /** No breaking that fits has fewer lines, or as few with a shorter last line. */
  ghost predicate Shortest(lines: nat, last: nat, words: seq<string>, width: int) {
    forall other: seq<seq<string>> :: Breaks(other, words) && Fits(other, width) && other != [] ==>
      lines < |other| || (lines == |other| && last <= |Joined(other[|other| - 1])|)
  }

  /** Taking the last word off a breaking. */
  lemma WithoutLastWord(other: seq<seq<string>>, words: seq<string>, w: string, width: int)
      returns (shorter: seq<seq<string>>)
    requires Breaks(other, words + [w]) && Fits(other, width)
    ensures other != []
    ensures Breaks(shorter, words) && Fits(shorter, width)
    ensures var line := other[|other| - 1];
      || (line == [w] && |shorter| == |other| - 1)
      || (shorter != [] && |shorter| == |other| && line == shorter[|shorter| - 1] + [w]
          && |Joined(line)| == |Joined(shorter[|shorter| - 1])| + 1 + |w| <= width)
  {
    var n := |other|;
    assert n > 0;
    var front, line := other[..n - 1], other[n - 1];
    var cut := line[..|line| - 1];
    assert line == cut + [w] by {
      assert (Flatten(front) + line)[|words|] == w;
      assert line[|line| - 1] == w;
    }
    assert Flatten(front) + cut == words by {
      assert (Flatten(front) + cut) + [w] == Flatten(front) + line == words + [w];
      assert Flatten(front) + cut == (words + [w])[..|words|];
    }
    if cut == [] {
      shorter := front;
      assert Flatten(front) + [] == Flatten(front);
    } else {
      shorter := front + [cut];
      assert shorter[..n - 1] == front;
      assert Joined(line) == Joined(cut) + " " + w;
    }
  }

  /** The greedy step keeps the count of lines, and then the last line, minimal. */
  lemma GreedyStep(lines: nat, last: nat, words: seq<string>, w: string, width: int)
    requires words != [] && lines > 0 && Shortest(lines, last, words, width)
    ensures last + 1 + |w| > width ==> Shortest(lines + 1, |w|, words + [w], width)
    ensures last + 1 + |w| <= width ==> Shortest(lines, last + 1 + |w|, words + [w], width)
  {
    forall other: seq<seq<string>> | Breaks(other, words + [w]) && Fits(other, width) && other != []
      ensures last + 1 + |w| > width ==>
          lines + 1 < |other| || (lines + 1 == |other| && |w| <= |Joined(other[|other| - 1])|)
      ensures last + 1 + |w| <= width ==>
        lines < |other| || (lines == |other| && last + 1 + |w| <= |Joined(other[|other| - 1])|)
    {
      var shorter := WithoutLastWord(other, words, w, width);
      assert shorter != [];
    }
  }

  /** out holds the lines' words, joined with single spaces. */
  ghost predicate TextOf(out: seq<string>, lines: seq<seq<string>>) {
    |out| == |lines| && forall i :: 0 <= i < |lines| ==> out[i] == Joined(lines[i])
  }

  /** out is the text of a breaking of words that fits and has the fewest lines. */
  ghost predicate IsOptimalWrap(out: seq<string>, words: seq<string>, width: int) {
    exists lines: seq<seq<string>> ::
      && Breaks(lines, words) && Fits(lines, width) && TextOf(out, lines)
      && forall other: seq<seq<string>> :: Breaks(other, words) && Fits(other, width) ==> |lines| <= |other|
  }

  /** Part way through: `lines` are the words of out and `line` those of cur. */
  ghost predicate Wrapped(out: seq<string>, cur: string, lines: seq<seq<string>>, line: seq<string>,
                          words: seq<string>, width: int) {
    && TextOf(out, lines)
    && cur == Joined(line) && cur != ""
    && Breaks(lines + [line], words) && Fits(lines + [line], width)
    && Shortest(|lines| + 1, |cur|, words, width)
  }

  lemma BreakLine(out: seq<string>, cur: string, lines: seq<seq<string>>, line: seq<string>,
                  words: seq<string>, w: string, width: int)
    requires Wrapped(out, cur, lines, line, words, width) && IsWord(w) && |cur| + 1 + |w| > width
    ensures Wrapped(out + [cur], w, lines + [line], [w], words + [w], width)
  {
    assert words != [] by { assert (lines + [line])[..|lines|] == lines; assert (lines + [line])[|lines|] != []; }
    GreedyStep(|lines| + 1, |cur|, words, w, width);
    var all := lines + [line] + [[w]];
    assert all[..|lines| + 1] == lines + [line];
  }

  lemma ExtendLine(out: seq<string>, cur: string, lines: seq<seq<string>>, line: seq<string>,
                   words: seq<string>, w: string, width: int)
    requires Wrapped(out, cur, lines, line, words, width) && IsWord(w) && |cur| + 1 + |w| <= width
    ensures Wrapped(out, cur + " " + w, lines, line + [w], words + [w], width)
  {
    var all, longer := lines + [line], lines + [line + [w]];
    assert all[..|lines|] == lines == longer[..|lines|] && all[|lines|] == line != [];
    assert (line + [w])[..|line|] == line;
    GreedyStep(|lines| + 1, |cur|, words, w, width);
    assert Flatten(lines) + (line + [w]) == (Flatten(lines) + line) + [w];
    assert forall i :: 0 <= i < |lines| ==> longer[i] == all[i];
  }

  lemma FinishWrap(out: seq<string>, cur: string, lines: seq<seq<string>>, line: seq<string>,
                   words: seq<string>, width: int)
    requires Wrapped(out, cur, lines, line, words, width)
    requires forall i :: 0 <= i < |words| ==> IsWord(words[i])
    ensures IsOptimalWrap(out + [cur], words, width) && Words(Joined(out + [cur])) == words
  {
    var all := lines + [line];
    FewestLines(|all|, |cur|, words, width, all);
    hide Shortest, Fits, Flatten, Joined, IsWord;
    assert TextOf(out + [cur], all);
    LinesHoldTheWords(out + [cur], all, words);
  }

  /** A breaking that is shortest, its last line included, has the fewest lines. */
  lemma FewestLines(lines: nat, last: nat, words: seq<string>, width: int, own: seq<seq<string>>)
    requires Shortest(lines, last, words, width) && Breaks(own, words) && own != []
    ensures forall other: seq<seq<string>> :: Breaks(other, words) && Fits(other, width) ==> lines <= |other|
  {
    assert words != [] by {
      assert own[|own| - 1] != [] && Flatten(own) == Flatten(own[..|own| - 1]) + own[|own| - 1];
    }
    forall other: seq<seq<string>> | Breaks(other, words) && Fits(other, width) ensures lines <= |other| {
      assert other != [];
    }
  }

  /** Greedy wrapping of a text: lines in word order, each fitting, as few as possible. */
  method Wrap(text: string, width: int) returns (out: seq<string>)
    ensures IsOptimalWrap(out, Words(text), width)
    ensures Words(Joined(out)) == Words(text)
  {
    hide Wrapped;
    var words := Words(text);
    var cur := "";
    out := [];
    ghost var lines: seq<seq<string>> := [];
    ghost var line: seq<string> := [];
    for i := 0 to |words|
      invariant i == 0 ==> out == [] && cur == "" && lines == []
      invariant i > 0 ==> cur != "" && Wrapped(out, cur, lines, line, words[..i], width)
    {
      var w := words[i];
      assert words[..i + 1] == words[..i] + [w] && IsWord(w);
      if cur != "" && |cur| + 1 + |w| > width {
        BreakLine(out, cur, lines, line, words[..i], w, width);
        out := out + [cur];
        cur := w;
        lines, line := lines + [line], [w];
      } else {
        if cur != "" {
          ExtendLine(out, cur, lines, line, words[..i], w, width);
        } else {
          StartLine(w, width);
          assert words[..i + 1] == [w];
        }
        cur := if cur != "" then cur + " " + w else w;
        line := if i == 0 then [w] else line + [w];
      }
    }
    assert words[..|words|] == words;
    if cur != "" {
      FinishWrap(out, cur, lines, line, words, width);
      out := out + [cur];
    } else {
      assert IsOptimalWrap([], [], width) by { assert Breaks([], []); }
    }
  }

  lemma StartLine(w: string, width: int)
    requires IsWord(w)
    ensures Wrapped([], w, [], [w], [w], width)
  {
    assert Flatten([[w]]) == [w] by { assert [[w]][..0] == []; }
    assert [] + [[w]] == [[w]];
    forall other: seq<seq<string>> | Breaks(other, [w]) && Fits(other, width) && other != []
      ensures 1 < |other| || (1 == |other| && |w| <= |Joined(other[|other| - 1])|)
    {
      if |other| == 1 {
        assert Flatten(other[..0]) == [];
        assert other[0] == [w];
      }
    }
  }

  /** Joining the wrapped lines and splitting again gives back the words of the text. */
  lemma {:induction false} LinesHoldTheWords(out: seq<string>, lines: seq<seq<string>>, words: seq<string>)
    requires TextOf(out, lines) && forall i :: 0 <= i < |lines| ==> lines[i] != []
    requires Flatten(lines) == words && forall i :: 0 <= i < |words| ==> IsWord(words[i])
    ensures Words(Joined(out)) == words
    decreases |lines|
  {
    if |lines| > 0 {
      var n := |lines| - 1;
      var front := Flatten(lines[..n]);
      assert words == front + lines[n];
      assert forall i :: 0 <= i < |lines[n]| ==> IsWord(lines[n][i]) by {
        forall i | 0 <= i < |lines[n]| ensures IsWord(lines[n][i]) { assert words[|front| + i] == lines[n][i]; }
      }
      assert forall i :: 0 <= i < |front| ==> front[i] == words[i];
      WordsOfJoined(lines[n]);
      LinesHoldTheWords(out[..n], lines[..n], front);
      if n > 0 {
        assert IsSpace(' ') && " " == [' '];
        WordsOfConcat(Joined(out[..n]), ' ', out[n]);
      } else {
        assert front == [];
      }
    }
  }

  // ---- Grouping consecutive entries ----

  datatype Entry = Entry(id: string, package: string, analysis: string, reason: string)
  datatype GroupKey = GroupKey(package: string, analysis: string, reason: string)

  /** A group of entries that share the key. */
  ghost predicate OneKey(g: seq<Entry>, k: GroupKey) {
    g != [] && forall e :: e in g ==> e.package == k.package && e.analysis == k.analysis && e.reason == k.reason
  }

  /**
   Consecutive entries with one package, analysis and reason form one group: the
   groups put back together are the entries, each group has its key throughout,
   and neighbouring groups have different keys, so no two could have been one.
   */
  method Group(entries: seq<Entry>) returns (keys: seq<GroupKey>, groups: seq<seq<Entry>>)
    ensures |keys| == |groups| && Flatten(groups) == entries
    ensures forall i :: 0 <= i < |groups| ==> OneKey(groups[i], keys[i])
    ensures forall i :: 0 < i < |keys| ==> keys[i - 1] != keys[i]
  {
    keys, groups := [], [];
    assert Flatten(groups) == entries[..0];
    hide Flatten, OneKey;
    for n := 0 to |entries|
      invariant |keys| == |groups| && Flatten(groups) == entries[..n]
      invariant forall i :: 0 <= i < |groups| ==> OneKey(groups[i], keys[i])
      invariant forall i :: 0 < i < |keys| ==> keys[i - 1] != keys[i]
    {
      var e := entries[n];
      assert entries[..n + 1] == entries[..n] + [e];
      var last := |groups| - 1;
      var key := GroupKey(e.package, e.analysis, e.reason);
      if groups != [] && keys[last] == key {
        FlattenLonger(groups, e);
        OneMore(groups[last], e, keys[last]);
        groups := groups[last := groups[last] + [e]];
      } else {
        FlattenAppend(groups, [e]);
        Alone(e);
        keys, groups := keys + [key], groups + [[e]];
      }
    }
    assert entries[..|entries|] == entries;
  }

  lemma OneMore(g: seq<Entry>, e: Entry, k: GroupKey)
    requires OneKey(g, k) && k == GroupKey(e.package, e.analysis, e.reason)
    ensures OneKey(g + [e], k)
  {
  }

  lemma Alone(e: Entry)
    ensures OneKey([e], GroupKey(e.package, e.analysis, e.reason))
  {
  }

  lemma FlattenAppend<T>(groups: seq<seq<T>>, g: seq<T>)
    ensures Flatten(groups + [g]) == Flatten(groups) + g
  {
    assert (groups + [g])[..|groups|] == groups;
  }

  lemma FlattenLonger<T>(groups: seq<seq<T>>, e: T)
    requires groups != []
    ensures Flatten(groups[|groups| - 1 := groups[|groups| - 1] + [e]]) == Flatten(groups) + [e]
  {
    var last := |groups| - 1;
    assert groups[last := groups[last] + [e]][..last] == groups[..last];
    assert Flatten(groups[..last]) + (groups[last] + [e]) == (Flatten(groups[..last]) + groups[last]) + [e];
  }
}
