/**
 Which paths of a work directory are the harness's own scratch files
 (cmd/datawatch/attempt_progress_workdir.go), told by the path's text.
 */
module ScratchPaths {
  import opened Basics
  import opened Encoding
  import opened WorkDirFingerprint

  /** What may stand before an element of a path, and after it. */
  predicate Opens(a: string, c: char) {
    a == "" || a[|a| - 1] == c
  }

  predicate Closes(b: string, c: char) {
    b == "" || b[0] == c
  }

  predicate Slashes(z: string) {
    forall i :: 0 <= i < |z| ==> z[i] == '/'
  }

  /** e stands in s between two delimiters, or an end of s and one. */
  ghost predicate Stands(s: string, c: char, e: string) {
    c !in e && exists a, b :: s == a + e + b && Opens(a, c) && Closes(b, c)
  }

  lemma FirstCut(s: string, c: char) returns (first: string, rest: string)
    requires c in s
    ensures c !in first && s == first + [c] + rest
  {
    var i := 0;
    while s[i] != c
      invariant 0 <= i < |s| && c !in s[..i]
      invariant exists k :: i <= k < |s| && s[k] == c
      decreases |s| - i
    {
      assert s[..i + 1] == s[..i] + [s[i]];
      i := i + 1;
    }
    first, rest := s[..i], s[i + 1..];
  }

  /** Splitting gives exactly the parts that stand between delimiters. */
  lemma {:induction false} SplitExact(s: string, c: char, e: string)
    ensures e in Split(s, c) <==> Stands(s, c, e)
    decreases |s|
  {
    hide Split;
    if c !in s {
      SplitOne(s, c);
      OnlyPart(s, c, e);
    } else {
      var first, rest := FirstCut(s, c);
      SplitFirst(first, c, rest);
      SplitExact(rest, c, e);
      PartAfterCut(first, c, rest, e);
    }
  }

  lemma NothingAround(a: string, e: string, b: string, c: char)
    requires Opens(a, c) && Closes(b, c)
    ensures c in a + e + b || (a == "" && b == "")
  {
    if a != "" {
      assert a[|a| - 1] in a + e + b;
    }
    if b != "" {
      assert b[0] in a + e + b;
    }
  }

  lemma OnlyPart(s: string, c: char, e: string)
    requires c !in s
    ensures Stands(s, c, e) <==> e == s
  {
    if a, b :| s == a + e + b && Opens(a, c) && Closes(b, c) {
      NothingAround(a, e, b, c);
    }
    var empty := "";
    assert s == empty + s + empty && Opens(empty, c) && Closes(empty, c);
  }

  lemma PartAfterCut(first: string, c: char, rest: string, e: string)
    requires c !in first
    ensures Stands(first + [c] + rest, c, e) <==> e == first || Stands(rest, c, e)
  {
    var s := first + [c] + rest;
    if e == first {
      assert s == "" + e + ([c] + rest) && Opens("", c) && Closes([c] + rest, c);
    }
    if Stands(rest, c, e) {
      var a, b :| rest == a + e + b && Opens(a, c) && Closes(b, c);
      assert s == (first + [c] + a) + e + b && Opens(first + [c] + a, c);
    }
    if Stands(s, c, e) && e != first {
      var a, b :| s == a + e + b && Opens(a, c) && Closes(b, c);
      if a == "" {
        FirstPart(first, c, rest, e, b);
        assert false;
      } else {
        LaterPart(first, c, rest, a, e, b);
        assert rest == a[|first| + 1..] + e + b;
      }
    }
  }

  lemma FirstPart(first: string, c: char, rest: string, e: string, b: string)
    requires c !in first && c !in e && first + [c] + rest == "" + e + b && Closes(b, c)
    ensures e == first
  {
    assert (first + [c] + rest)[|first|] == c;
    assert b != "";
    assert e + [c] + b[1..] == first + [c] + rest;
    CutUnique(c, e, b[1..], first, rest);
  }

  lemma LaterPart(first: string, c: char, rest: string, a: string, e: string, b: string)
    requires c !in first && a != "" && Opens(a, c) && first + [c] + rest == a + e + b
    ensures |a| > |first| && Opens(a[|first| + 1..], c) && rest == a[|first| + 1..] + e + b
  {
    var s, n := first + [c] + rest, |first|;
    assert s[|a| - 1] == a[|a| - 1] == c;
    assert forall i :: 0 <= i < n ==> s[i] == first[i];
    assert |a| > n;
    assert rest == s[n + 1..] == a[n + 1..] + e + b;
  }

  /** The last part is what follows the last delimiter. */
  lemma {:induction false} SplitLast(s: string, c: char)
    ensures var parts := Split(s, c);
      exists a :: s == a + parts[|parts| - 1] && Opens(a, c)
    decreases |s|
  {
    hide Split;
    if c !in s {
      SplitOne(s, c);
      var empty := "";
      assert s == empty + s && Opens(empty, c);
    } else {
      var first, rest := FirstCut(s, c);
      SplitFirst(first, c, rest);
      SplitLast(rest, c);
      var parts := Split(rest, c);
      var a :| rest == a + parts[|parts| - 1] && Opens(a, c);
      assert s == (first + [c] + a) + parts[|parts| - 1] && Opens(first + [c] + a, c);
    }
  }

  lemma {:induction false} Trimmed(p: string)
    ensures var t := TrimSlashes(p);
      (t == "" || t[|t| - 1] != '/') && exists z :: p == t + z && Slashes(z)
  {
    if p != "" && p[|p| - 1] == '/' {
      Trimmed(p[..|p| - 1]);
      var t := TrimSlashes(p);
      var z :| p[..|p| - 1] == t + z && Slashes(z);
      assert p == t + (z + "/") && Slashes(z + "/");
    } else {
      assert p == p + "";
    }
  }

  lemma SameEnd(t: string, z: string, s: string, y: string)
    requires t + z == s + y && Slashes(z) && Slashes(y)
    requires t != "" && s != "" && t[|t| - 1] != '/' && s[|s| - 1] != '/'
    ensures t == s
  {
    var p := t + z;
    assert p[|t| - 1] == t[|t| - 1] && p[|s| - 1] == s[|s| - 1];
    assert |t| == |s| by {
      assert forall i :: |t| <= i < |p| ==> p[i] == z[i - |t|];
      assert forall i :: |s| <= i < |p| ==> p[i] == y[i - |s|];
    }
    assert t == p[..|t|] == s;
  }

  lemma SameLast(a: string, e: string, b: string, d: string, c: char)
    requires a + e == b + d && Opens(a, c) && Opens(b, c) && c !in e && c !in d
    ensures e == d
  {
    var s := a + e;
    assert a != "" ==> s[|a| - 1] == c;
    assert b != "" ==> s[|b| - 1] == c;
    assert |a| == |b| by {
      assert forall i :: |a| <= i < |s| ==> s[i] == e[i - |a|];
      assert forall i :: |b| <= i < |s| ==> s[i] == d[i - |b|];
    }
    assert e == s[|a|..] == d;
  }

  lemma NotAllSlashes(t: string, z: string, b: string, name: string, y: string)
    requires t + z == b + name + y && Slashes(z) && name != ""
    ensures t != "" || '/' in name
  {
    if t == "" {
      assert z[|b|] == (b + name + y)[|b|] == name[0] && name[0] in name;
    }
  }

  /** The base name of a path is its last element, whatever slashes follow. */
  lemma BaseExact(p: string, name: string)
    requires name != "" && name != "." && '/' !in name
    ensures Base(p) == name <==> exists a, z :: p == a + name + z && Opens(a, '/') && Slashes(z)
  {
    hide Split, TrimSlashes;
    var t := TrimSlashes(p);
    Trimmed(p);
    var z :| p == t + z && Slashes(z);
    var parts := Split(t, '/');
    SplitLast(t, '/');
    var a :| t == a + parts[|parts| - 1] && Opens(a, '/');
    var last := parts[|parts| - 1];
    if Base(p) == name {
      assert t != "" && last == name;
      assert p == a + name + z;
    }
    if b, y :| p == b + name + y && Opens(b, '/') && Slashes(y) {
      var s := b + name;
      assert s[|s| - 1] == name[|name| - 1] && name[|name| - 1] in name;
      NotAllSlashes(t, z, b, name, y);
      SameEnd(t, z, s, y);
      SameLast(a, last, b, name, '/');
    }
  }

  /**
   A path is scratch exactly if its last element is CHECKPOINT.md or starts with
   .decompose-output, or one of its elements is .datawatch.
   */
  lemma ScratchExact(p: string)
    ensures IsScratch(p) <==>
            || (exists a, z :: p == a + "CHECKPOINT.md" + z && Opens(a, '/') && Slashes(z))
            || (exists a, name, z :: p == a + name + z && Opens(a, '/') && Slashes(z)
                  && '/' !in name && ".decompose-output" <= name)
            || (exists a, b :: p == a + ".datawatch" + b && Opens(a, '/') && Closes(b, '/'))
  {
    SplitExact(p, '/', ".datawatch");
    BaseExact(p, "CHECKPOINT.md");
    var base := Base(p);
    BasePlain(p);
    hide Base, Split;
    if ".decompose-output" <= base {
      assert |base| > 1;
      BaseExact(p, base);
    }
    forall a, name, z
      | p == a + name + z && Opens(a, '/') && Slashes(z) && '/' !in name && ".decompose-output" <= name
      ensures base == name
    {
      assert |name| > 1;
      BaseExact(p, name);
    }
  }

  lemma BasePlain(p: string)
    ensures Base(p) == "/" || '/' !in Base(p)
  {
  }
}
