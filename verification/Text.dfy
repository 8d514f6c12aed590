/** Text primitives shared by the models: white space, trimming, words and joining. */
module Text {
  import opened Basics

  /** White space as Python's str.isspace, str.split and str.strip see it. */
  predicate IsSpace(c: char) {
    || '\U{9}' <= c <= '\U{D}' || '\U{1C}' <= c <= '\U{20}' || c == '\U{85}' || c == '\U{A0}' || c == '\U{1680}'
    || '\U{2000}' <= c <= '\U{200A}' || c == '\U{2028}' || c == '\U{2029}' || c == '\U{202F}' || c == '\U{205F}'
    || c == '\U{3000}'
  }

  /** The text has nothing but white space. */
  predicate IsBlank(s: string) {
    forall i :: 0 <= i < |s| ==> IsSpace(s[i])
  }

  predicate IsWord(w: string) {
    w != "" && forall i :: 0 <= i < |w| ==> !IsSpace(w[i])
  }

  /** The length of the run of non-space characters that s starts with. */
  function WordLength(s: string): (n: nat)
    ensures n <= |s| && (forall i :: 0 <= i < n ==> !IsSpace(s[i])) && (n < |s| ==> IsSpace(s[n]))
  {
    if s == "" || IsSpace(s[0]) then 0 else 1 + WordLength(s[1..])
  }

  /** The words of a text: its maximal runs of non-space characters. */
  function Words(s: string): (ws: seq<string>)
    ensures forall i :: 0 <= i < |ws| ==> IsWord(ws[i])
    decreases |s|
  {
    if s == "" then []
    else if IsSpace(s[0]) then Words(s[1..])
    else var n := WordLength(s); [s[..n]] + Words(s[n..])
  }

  /** Words joined with single spaces. */
  function Joined(ws: seq<string>): string {
    if ws == [] then ""
    else if |ws| == 1 then ws[0]
    else Joined(ws[..|ws| - 1]) + " " + ws[|ws| - 1]
  }

  /** Joining two lists puts one space between their texts. */
  lemma {:induction false} JoinedConcat(a: seq<string>, b: seq<string>)
    requires a != [] && b != []
    ensures Joined(a + b) == Joined(a) + " " + Joined(b)
    decreases |b|
  {
    var n := |b| - 1;
    assert (a + b)[..|a| + n] == a + b[..n] && (a + b)[|a| + n] == b[n];
    if n == 0 {
      assert a + b[..0] == a;
    } else {
      JoinedConcat(a, b[..n]);
      assert Joined(a) + " " + Joined(b[..n]) + " " + b[n] == Joined(a) + " " + (Joined(b[..n]) + " " + b[n]);
    }
  }

  lemma {:induction false} WordLengthPrefix(x: string, c: char, y: string)
    requires IsSpace(c)
    ensures WordLength(x + [c] + y) == WordLength(x)
  {
    if x != "" && !IsSpace(x[0]) {
      assert (x + [c] + y)[1..] == x[1..] + [c] + y;
      WordLengthPrefix(x[1..], c, y);
    }
  }

  /** Any white space between two texts separates their words. */
  lemma {:induction false} WordsOfConcat(x: string, c: char, y: string)
    requires IsSpace(c)
    ensures Words(x + [c] + y) == Words(x) + Words(y)
    decreases |x|
  {
    hide IsSpace, IsWord, WordLength;
    var s := x + [c] + y;
    if x == "" {
      BlankStart(s);
      assert s[1..] == y;
    } else if IsSpace(x[0]) {
      assert s[1..] == x[1..] + [c] + y && s[0] == x[0];
      WordsOfConcat(x[1..], c, y);
    } else {
      WordsOfConcat(x[WordLength(x)..], c, y);
      hide Words;
      FirstWordOfConcat(x, c, y);
    }
  }

  lemma BlankStart(s: string)
    requires s != "" && IsSpace(s[0])
    ensures Words(s) == Words(s[1..])
  {
  }

  lemma FirstWordOfConcat(x: string, c: char, y: string)
    requires x != "" && !IsSpace(x[0]) && IsSpace(c)
    requires var r := x[WordLength(x)..]; Words(r + [c] + y) == Words(r) + Words(y)
    ensures Words(x + [c] + y) == Words(x) + Words(y)
  {
    var n, s := WordLength(x), x + [c] + y;
    WordLengthPrefix(x, c, y);
    CutConcat(x, c, y, n);
    assert s[0] == x[0];
    FirstWord(x);
    FirstWord(s);
    hide *;
    Associate([x[..n]], Words(x[n..]), Words(y));
  }

  lemma CutConcat(x: string, c: char, y: string, n: nat)
    requires n <= |x|
    ensures (x + [c] + y)[..n] == x[..n] && (x + [c] + y)[n..] == x[n..] + [c] + y
  {
  }

  lemma FirstWord(s: string)
    requires s != "" && !IsSpace(s[0])
    ensures Words(s) == [s[..WordLength(s)]] + Words(s[WordLength(s)..])
  {
    hide IsSpace;
  }

  lemma WordsOfWord(w: string)
    requires IsWord(w)
    ensures Words(w) == [w]
  {
    assert WordLength(w) == |w|;
    assert w[..|w|] == w && w[|w|..] == "";
  }

  /** Joining words and splitting again gives the words back. */
  lemma {:induction false} WordsOfJoined(ws: seq<string>)
    requires forall i :: 0 <= i < |ws| ==> IsWord(ws[i])
    ensures Words(Joined(ws)) == ws
  {
    if |ws| == 1 {
      WordsOfWord(ws[0]);
    } else if |ws| > 1 {
      var front, last := ws[..|ws| - 1], ws[|ws| - 1];
      WordsOfJoined(front);
      assert IsSpace(' ') && " " == [' '];
      WordsOfConcat(Joined(front), ' ', last);
      WordsOfWord(last);
    }
  }
}
