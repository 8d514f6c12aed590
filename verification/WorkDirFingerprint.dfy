/**
 The work-directory fingerprint (cmd/datawatch/attempt_progress_workdir.go): the
 bytes that are hashed, built from a `git status -z` listing. The hash itself
 is not modelled; every result is about its input.
 */
module WorkDirFingerprint {
  import opened Basics
  import opened Encoding

  const NUL: char := '\0'
  const UNIT: char := '\U{1F}'

  const CHECKPOINT_FILE := "CHECKPOINT.md"
  const DECOMPOSE_PREFIX := ".decompose-output"
  const SCRATCH_DIR := ".datawatch"

  /** What os.Stat says about a path. */
  datatype Stat = Missing | Present(size: int, mtime: int)

  datatype Record = Record(path: string, status: string, size: int, mtime: int)

  // ---- Parsing the listing ----

  function Split(s: string, c: char): (r: seq<string>)
    ensures r != [] && forall i :: 0 <= i < |r| ==> c !in r[i]
  {
    if s == "" then [""]
    else
      var rest := Split(s[1..], c);
      if s[0] == c then [""] + rest else [[s[0]] + rest[0]] + rest[1..]
  }

  function TrimSlashes(s: string): string {
    if s != "" && s[|s| - 1] == '/' then TrimSlashes(s[..|s| - 1]) else s
  }

  /** The last element of a slash-separated path, as filepath.Base. */
  function Base(p: string): string {
    if p == "" then "."
    else
      var t := TrimSlashes(p);
      if t == "" then "/" else var parts := Split(t, '/'); parts[|parts| - 1]
  }

  /** One of the harness's own scratch files. */
  predicate IsScratch(p: string) {
    || Base(p) == CHECKPOINT_FILE
    || DECOMPOSE_PREFIX <= Base(p)
    || SCRATCH_DIR in Split(p, '/')
  }

  /** A chunk too short for a path, without one, or about a scratch file. */
  predicate Skipped(raw: string) {
    |raw| < 3 || raw[3..] == "" || IsScratch(raw[3..])
  }

  function RecordOf(raw: string, stat: string -> Stat): Record
    requires |raw| >= 3
  {
    var path := raw[3..];
    match stat(path)
    case Missing => Record(path, raw[..2], 0, 0)
    case Present(size, mtime) => Record(path, raw[..2], size, mtime)
  }

  /** NUL-terminated chunks are split where they were joined, with an empty chunk at the end. */
  lemma {:induction false} SplitTerminated(chunks: seq<string>)
    requires forall c :: c in chunks ==> NUL !in c
    ensures Split(HashInput(chunks), NUL) == chunks + [""]
  {
    if chunks != [] {
      assert chunks[0] in chunks;
      SplitTerminated(chunks[1..]);
      SplitFirst(chunks[0], NUL, HashInput(chunks[1..]));
      assert chunks == [chunks[0]] + chunks[1..];
      assert [chunks[0]] + (chunks[1..] + [""]) == chunks + [""];
    }
  }

  lemma {:induction false} SplitFirst(a: string, c: char, rest: string)
    requires c !in a
    ensures Split(a + [c] + rest, c) == [a] + Split(rest, c)
    decreases |a|
  {
    var s := a + [c] + rest;
    if a == "" {
      assert s[0] == c && s[1..] == rest;
    } else {
      assert s[0] == a[0] && s[1..] == a[1..] + [c] + rest;
      SplitFirst(a[1..], c, rest);
      assert ([a[1..]] + Split(rest, c))[1..] == Split(rest, c) && [a[0]] + a[1..] == a;
    }
  }

  lemma {:induction false} SplitOne(a: string, c: char)
    requires c !in a
    ensures Split(a, c) == [a]
  {
    if a != "" {
      SplitOne(a[1..], c);
      assert [a[1..]][1..] == [] && [a[0]] + a[1..] == a;
    }
  }

  /** The records of a listing, in listing order. */
  function Records(chunks: seq<string>, stat: string -> Stat): seq<Record> {
    if chunks == [] then []
    else
      var front, raw := Records(chunks[..|chunks| - 1], stat), chunks[|chunks| - 1];
      if Skipped(raw) then front else front + [RecordOf(raw, stat)]
  }

  // ---- The entries ----

  function EntryText(r: Record): string {
    r.path + [UNIT] + r.status + [UNIT] + Decimal(r.size) + [UNIT] + Decimal(r.mtime)
  }

  /** The text up to the first unit separator: the sort key. */
  function Key(s: string): string {
    if s == "" || s[0] == UNIT then "" else [s[0]] + Key(s[1..])
  }

  function Entries(records: seq<Record>): (r: seq<string>)
    ensures |r| == |records| && forall i :: 0 <= i < |r| ==> r[i] == EntryText(records[i])
  {
    seq(|records|, i requires 0 <= i < |records| => EntryText(records[i]))
  }

  /** The bytes that are hashed: every entry followed by a NUL. */
  function HashInput(entries: seq<string>): string {
    if entries == [] then "" else entries[0] + [NUL] + HashInput(entries[1..])
  }

  predicate KeyAtMost(a: string, b: string) {
    AtMost(Key(a), Key(b))
  }

  /** Any result sort.Slice may give: the same entries, in key order. It is not a stable sort. */
  ghost predicate IsSortOf(sorted: seq<string>, entries: seq<string>) {
    multiset(sorted) == multiset(entries) && Sorted(sorted, KeyAtMost)
  }

  lemma KeysInOrder()
    ensures IsOrder(KeyAtMost)
  {
    forall a, b ensures KeyAtMost(a, b) || KeyAtMost(b, a) { LessTrichotomy(Key(a), Key(b)); }
    forall a, b, c | KeyAtMost(a, b) && KeyAtMost(b, c) ensures KeyAtMost(a, c) {
      AtMostTransitive(Key(a), Key(b), Key(c));
    }
  }

  /** Parsing, filtering and sorting a listing. */
  method GitStatusEntries(listing: string, stat: string -> Stat) returns (sorted: seq<string>)
    ensures IsSortOf(sorted, Entries(Records(Split(listing, NUL), stat)))
    ensures forall i, j :: 0 <= i < j < |sorted| ==> AtMost(Key(sorted[i]), Key(sorted[j]))
  {
    var chunks := Split(listing, NUL);
    var entries: seq<string> := [];
    hide Split, IsScratch, RecordOf, EntryText, Records, Entries, Sort, IsOrder;
    NoRecords(stat);
    for i := 0 to |chunks|
      invariant entries == Entries(Records(chunks[..i], stat))
    {
      var raw := chunks[i];
      assert chunks[..i + 1] == chunks[..i] + [raw];
      RecordsAppend(chunks[..i], raw, stat);
      if |raw| < 3 {
        continue;
      }
      if raw[3..] == "" || IsScratch(raw[3..]) {
        continue;
      }
      var r := RecordOf(raw, stat);
      EntriesAppend(Records(chunks[..i], stat), r);
      entries := entries + [EntryText(r)];
    }
    assert chunks[..|chunks|] == chunks;
    KeysInOrder();
    SortSorts(entries, KeyAtMost);
    sorted := Sort(entries, KeyAtMost);
  }

  lemma NoRecords(stat: string -> Stat)
    ensures Entries(Records([], stat)) == []
  {
  }

  lemma RecordsAppend(chunks: seq<string>, raw: string, stat: string -> Stat)
    ensures Records(chunks + [raw], stat) ==
            if Skipped(raw) then Records(chunks, stat) else Records(chunks, stat) + [RecordOf(raw, stat)]
  {
    hide Skipped, RecordOf;
    assert (chunks + [raw])[..|chunks|] == chunks;
  }

  /** A chunk that counts: long enough for a path, and about no scratch file. */
  predicate Counts(chunks: seq<string>, i: nat) {
    i < |chunks| && |chunks[i]| > 3 && !IsScratch(chunks[i][3..])
  }

  /** The record of a chunk: its first two characters, what follows the third, and the file system's answer or zeros. */
  predicate Reads(r: Record, raw: string, stat: string -> Stat) {
    && |raw| > 3 && r.status == [raw[0], raw[1]] && r.path == raw[3..]
    && (stat(r.path).Missing? ==> r.size == 0 && r.mtime == 0)
    && (stat(r.path).Present? ==> r.size == stat(r.path).size && r.mtime == stat(r.path).mtime)
  }

  ghost predicate RecordsAt(chunks: seq<string>, stat: string -> Stat, js: seq<nat>, records: seq<Record>) {
    && |js| == |records|
    && (forall k :: 0 <= k < |js| ==> js[k] < |chunks| && Reads(records[k], chunks[js[k]], stat))
    && forall k, l :: 0 <= k < l < |js| ==> js[k] < js[l]
  }

  /** The records are those of exactly the chunks that count, in listing order. */
  lemma {:induction false} RecordsExact(chunks: seq<string>, stat: string -> Stat) returns (js: seq<nat>)
    ensures RecordsAt(chunks, stat, js, Records(chunks, stat))
    ensures forall i: nat :: i in js <==> Counts(chunks, i)
  {
    hide RecordsAt, Counts, Skipped, RecordOf, Records;
    if chunks == [] {
      js := [];
      NoRecordsAt(stat);
    } else {
      var n := |chunks| - 1;
      var front, raw := chunks[..n], chunks[n];
      js := RecordsExact(front, stat);
      assert chunks == front + [raw];
      RecordsAppend(front, raw, stat);
      OneMoreRecord(front, raw, stat, js, Records(front, stat));
      CountsLast(front, raw);
      if !Skipped(raw) {
        js := js + [n];
      }
    }
  }

  lemma NoRecordsAt(stat: string -> Stat)
    ensures RecordsAt([], stat, [], Records([], stat)) && forall i: nat :: !Counts([], i)
  {
  }

  lemma CountsLast(front: seq<string>, raw: string)
    ensures forall i: nat :: Counts(front + [raw], i) <==> Counts(front, i) || (i == |front| && !Skipped(raw))
  {
    hide IsScratch;
    forall i: nat ensures Counts(front + [raw], i) <==> Counts(front, i) || (i == |front| && !Skipped(raw)) {
      assert i < |front| ==> (front + [raw])[i] == front[i];
      assert i == |front| ==> (front + [raw])[i] == raw;
    }
  }

  lemma OneMoreRecord(front: seq<string>, raw: string, stat: string -> Stat, js: seq<nat>, records: seq<Record>)
    requires RecordsAt(front, stat, js, records)
    ensures RecordsAt(front + [raw], stat, js, records)
    ensures !Skipped(raw) ==> RecordsAt(front + [raw], stat, js + [|front|], records + [RecordOf(raw, stat)])
  {
    hide IsScratch;
    assert !Skipped(raw) ==> Reads(RecordOf(raw, stat), raw, stat) by { ReadsRecord(raw, stat); }
    hide Reads, RecordOf, Skipped;
  }

  lemma ReadsRecord(raw: string, stat: string -> Stat)
    ensures !Skipped(raw) ==> Reads(RecordOf(raw, stat), raw, stat)
  {
    hide IsScratch;
    if |raw| >= 3 {
      assert raw[..2] == [raw[0], raw[1]];
    }
  }

  lemma EntriesAppend(records: seq<Record>, r: Record)
    ensures Entries(records + [r]) == Entries(records) + [EntryText(r)]
  {
    hide EntryText;
  }

  /** The write loop of the hash. */
  method HashedBytes(entries: seq<string>) returns (b: string)
    ensures b == HashInput(entries)
  {
    b := "";
    assert entries[0..] == entries;
    for i := 0 to |entries|
      invariant b + HashInput(entries[i..]) == HashInput(entries)
    {
      assert entries[i..][1..] == entries[i + 1..];
      assert b + (entries[i] + [NUL] + HashInput(entries[i + 1..])) ==
          (b + entries[i] + [NUL]) + HashInput(entries[i + 1..]);
      b := b + entries[i] + [NUL];
    }
  }

  // ---- The bytes determine the entries, the entries the records ----

  lemma {:induction false} HashInputUnique(a: seq<string>, b: seq<string>)
    requires (forall e :: e in a || e in b ==> NUL !in e) && HashInput(a) == HashInput(b)
    ensures a == b
    decreases |a|
  {
    if a != [] && b != [] {
      CutUnique(NUL, a[0], HashInput(a[1..]), b[0], HashInput(b[1..]));
      HashInputUnique(a[1..], b[1..]);
      assert a == [a[0]] + a[1..] && b == [b[0]] + b[1..];
    }
  }

  lemma CutLastUnique(c: char, r: string, a: string, q: string, b: string)
    requires c !in a && c !in b && r + [c] + a == q + [c] + b
    ensures r == q && a == b
  {
    var s := r + [c] + a;
    assert s[|r|] == c && s[|q|] == c;
    assert forall i :: 0 <= i < |a| ==> s[|r| + 1 + i] == a[i];
    assert forall i :: 0 <= i < |b| ==> s[|q| + 1 + i] == b[i];
    assert |r| == |q| by {
      assert forall i :: |r| < i < |s| ==> s[i] == a[i - |r| - 1];
      assert forall i :: |q| < i < |s| ==> s[i] == b[i - |q| - 1];
    }
    assert r == s[..|r|] == q;
    assert a == s[|r| + 1..] == b;
  }

  lemma NoUnitInDecimal(n: int)
    ensures UNIT !in Decimal(n) && NUL !in Decimal(n)
  {
    forall i | 0 <= i < |Decimal(n)| ensures Decimal(n)[i] != UNIT && Decimal(n)[i] != NUL {}
  }

  /** An entry's text determines its record, whatever its path holds. */
  lemma EntryUnique(r: Record, q: Record)
    requires |r.status| == |q.status| == 2 && EntryText(r) == EntryText(q)
    ensures r == q
  {
    NoUnitInDecimal(r.size);
    NoUnitInDecimal(q.size);
    NoUnitInDecimal(r.mtime);
    NoUnitInDecimal(q.mtime);
    hide Decimal;
    var r1, q1 := r.path + [UNIT] + r.status, q.path + [UNIT] + q.status;
    CutLastUnique(UNIT, r1 + [UNIT] + Decimal(r.size), Decimal(r.mtime),
                  q1 + [UNIT] + Decimal(q.size), Decimal(q.mtime));
    CutLastUnique(UNIT, r1, Decimal(r.size), q1, Decimal(q.size));
    DecimalUnique(r.size, q.size);
    DecimalUnique(r.mtime, q.mtime);
    assert r.path == r1[..|r1| - 3] && q.path == q1[..|q1| - 3];
    assert r.status == r1[|r1| - 2..] && q.status == q1[|q1| - 2..];
  }

  lemma {:induction false} KeyOfEntry(s: string, rest: string)
    ensures Key(s + [UNIT] + rest) == Key(s)
  {
    if s != "" && s[0] != UNIT {
      assert (s + [UNIT] + rest)[1..] == s[1..] + [UNIT] + rest;
      KeyOfEntry(s[1..], rest);
    } else if s == "" {
      assert (s + [UNIT] + rest)[0] == UNIT;
    }
  }

  lemma EntryKey(r: Record)
    ensures Key(EntryText(r)) == Key(r.path)
  {
    var rest := r.status + [UNIT] + Decimal(r.size) + [UNIT] + Decimal(r.mtime);
    assert EntryText(r) == r.path + [UNIT] + rest;
    KeyOfEntry(r.path, rest);
  }

  lemma {:induction false} KeyOfPlainPath(p: string)
    requires UNIT !in p
    ensures Key(p) == p
  {
    if p != "" { KeyOfPlainPath(p[1..]); }
  }

  lemma {:induction false} KeyCut(s: string)
    ensures UNIT !in Key(s) && (s == Key(s) || exists rest :: s == Key(s) + [UNIT] + rest)
  {
    if s != "" {
      if s[0] == UNIT {
        assert s == "" + [UNIT] + s[1..];
      } else {
        KeyCut(s[1..]);
        var k := Key(s[1..]);
        if s[1..] != k {
          var rest :| s[1..] == k + [UNIT] + rest;
          assert s == ([s[0]] + k) + [UNIT] + rest;
        }
      }
    }
  }

  /** The sort key of a text is what stands before its first unit separator, or the whole of it. */
  lemma KeyExact(s: string, key: string)
    ensures key == Key(s) <==> '\U{1F}' !in key && (s == key || exists rest :: s == key + ['\U{1F}'] + rest)
  {
    hide Key;
    KeyCut(s);
    if '\U{1F}' !in key {
      KeyOfPlainPath(key);
      forall rest | s == key + ['\U{1F}'] + rest ensures Key(s) == Key(key) {
        KeyOfEntry(key, rest);
      }
    }
  }

  // ---- When the order of the listing does not matter ----

  /** Entries with one key are one entry. */
  ghost predicate KeysDecide(entries: seq<string>) {
    forall a, b :: a in entries && b in entries && Key(a) == Key(b) ==> a == b
  }

  lemma SameRest(a: seq<string>, b: seq<string>)
    requires a != [] && b != [] && multiset(a) == multiset(b) && a[0] == b[0]
    ensures multiset(a[1..]) == multiset(b[1..])
  {
    assert a == [a[0]] + a[1..] && b == [b[0]] + b[1..];
    assert multiset(a[1..]) == multiset(a) - multiset{a[0]};
    assert multiset(b[1..]) == multiset(b) - multiset{b[0]};
  }

  lemma {:induction false} SortUnique(a: seq<string>, b: seq<string>)
    requires multiset(a) == multiset(b) && Sorted(a, KeyAtMost) && Sorted(b, KeyAtMost) && KeysDecide(a)
    ensures a == b
    decreases |a|
  {
    SameSize(a, b);
    if a != [] {
      SameFirst(a, b);
      SameRest(a, b);
      RestSorted(a);
      RestSorted(b);
      RestDecided(a);
      hide Sorted, KeysDecide;
      SortUnique(a[1..], b[1..]);
      assert a == [a[0]] + a[1..] && b == [b[0]] + b[1..];
    }
  }

  lemma RestSorted(s: seq<string>)
    requires s != [] && Sorted(s, KeyAtMost)
    ensures Sorted(s[1..], KeyAtMost)
  {
    hide KeyAtMost;
  }

  lemma RestDecided(s: seq<string>)
    requires s != [] && KeysDecide(s)
    ensures KeysDecide(s[1..])
  {
    hide Key;
    assert forall x :: x in s[1..] ==> x in s;
  }

  /** Two sorted lists of the same entries start with the same one. */
  lemma SameFirst(a: seq<string>, b: seq<string>)
    requires a != [] && b != [] && multiset(a) == multiset(b)
    requires Sorted(a, KeyAtMost) && Sorted(b, KeyAtMost) && KeysDecide(a)
    ensures a[0] == b[0]
  {
    SameMembers(a, b);
    assert a[0] in a && b[0] in b;
    LeastFirst(a, b[0]);
    LeastFirst(b, a[0]);
    LessTrichotomy(Key(a[0]), Key(b[0]));
    hide Sorted, Less, Key;
  }

  lemma LeastFirst(s: seq<string>, x: string)
    requires Sorted(s, KeyAtMost) && x in s
    ensures !Less(Key(x), Key(s[0]))
  {
    var i :| 0 <= i < |s| && s[i] == x;
    if i == 0 {
      LessTrichotomy(Key(x), Key(x));
    } else {
      assert KeyAtMost(s[0], s[i]);
    }
  }

  /** Swapping two entries with one key leaves the list sorted. */
  lemma SwapKeepsSorted(s: seq<string>, i: nat, j: nat)
    requires Sorted(s, KeyAtMost) && i < j < |s| && Key(s[i]) == Key(s[j])
    ensures IsSortOf(s[i := s[j]][j := s[i]], s)
  {
    var t := s[i := s[j]][j := s[i]];
    forall a, b | 0 <= a < b < |t| ensures KeyAtMost(t[a], t[b]) {
      assert Key(t[a]) == Key(s[a]) && Key(t[b]) == Key(s[b]);
      assert KeyAtMost(s[a], s[b]);
    }
  }

  /**
   The hashed bytes are the same for every order the sort may leave exactly when
   no two different entries share the part of their path before a unit separator.
   */
  lemma OrderIndependentExactly(entries: seq<string>)
    requires forall e :: e in entries ==> NUL !in e
    ensures (forall a, b :: IsSortOf(a, entries) && IsSortOf(b, entries) ==> HashInput(a) == HashInput(b)) <==>
        KeysDecide(entries)
  {
    if KeysDecide(entries) {
      forall a, b | IsSortOf(a, entries) && IsSortOf(b, entries) ensures HashInput(a) == HashInput(b) {
        SameMembers(a, entries);
        SortUnique(a, b);
      }
    } else {
      var a, b := TwoOrders(entries);
    }
  }

  lemma DifferentBytes(a: seq<string>, b: seq<string>)
    requires (forall e :: e in a || e in b ==> NUL !in e) && a != b
    ensures HashInput(a) != HashInput(b)
  {
    if HashInput(a) == HashInput(b) {
      HashInputUnique(a, b);
    }
  }

  lemma Clash(a: seq<string>) returns (lo: nat, hi: nat)
    requires !KeysDecide(a)
    ensures lo < hi < |a| && Key(a[lo]) == Key(a[hi]) && a[lo] != a[hi]
  {
    hide Key;
    var x, y :| x in a && y in a && Key(x) == Key(y) && x != y;
    var i :| 0 <= i < |a| && a[i] == x;
    var j :| 0 <= j < |a| && a[j] == y;
    lo, hi := if i < j then i else j, if i < j then j else i;
  }

  lemma TwoOrders(entries: seq<string>) returns (a: seq<string>, b: seq<string>)
    requires (forall e :: e in entries ==> NUL !in e) && !KeysDecide(entries)
    ensures IsSortOf(a, entries) && IsSortOf(b, entries) && HashInput(a) != HashInput(b)
  {
    KeysInOrder();
    SortSorts(entries, KeyAtMost);
    a := Sort(entries, KeyAtMost);
    hide Sort, IsOrder, Key, HashInput, Sorted;
    SameMembers(a, entries);
    var lo, hi := Clash(a);
    SwapKeepsSorted(a, lo, hi);
    b := a[lo := a[hi]][hi := a[lo]];
    SameMembers(b, a);
    assert a[lo] != b[lo];
    DifferentBytes(a, b);
  }

  // ---- What the fingerprint tells apart ----

  /** No two records of a listing share the sort key of their path. */
  ghost predicate DistinctKeys(records: seq<Record>) {
    forall i, j :: 0 <= i < j < |records| ==> Key(records[i].path) != Key(records[j].path)
  }

  ghost predicate Plausible(records: seq<Record>) {
    forall r :: r in records ==> |r.status| == 2 && NUL !in r.path && NUL !in r.status
  }

  /** Records cut out of a listing have two status characters and no NUL. */
  lemma {:induction false} RecordsPlausible(chunks: seq<string>, stat: string -> Stat)
    requires forall i :: 0 <= i < |chunks| ==> NUL !in chunks[i]
    ensures Plausible(Records(chunks, stat))
  {
    if chunks != [] {
      RecordsPlausible(chunks[..|chunks| - 1], stat);
    }
  }

  lemma EntryHasNoNul(r: Record)
    requires NUL !in r.path && NUL !in r.status
    ensures NUL !in EntryText(r)
  {
    NoUnitInDecimal(r.size);
    NoUnitInDecimal(r.mtime);
  }

  lemma {:induction false} SameRecordsSameEntries(a: seq<Record>, b: seq<Record>)
    requires DistinctKeys(a) && DistinctKeys(b) && forall r :: r in a <==> r in b
    ensures multiset(Entries(a)) == multiset(Entries(b))
    decreases |a|
  {
    hide DistinctKeys, EntryText;
    if a == [] {
      HasFirst(b);
    } else {
      var n := |a| - 1;
      var r := a[n];
      assert r in a && r in b;
      var k :| 0 <= k < |b| && b[k] == r;
      var rest := b[..k] + b[k + 1..];
      WithoutOne(a, n);
      WithoutOne(b, k);
      assert a[..n] + a[n + 1..] == a[..n];
      SameRecordsSameEntries(a[..n], rest);
      EntriesWithout(a, n);
      EntriesWithout(b, k);
    }
  }

  /** A list with distinct keys loses exactly the record taken out. */
  lemma WithoutOne(b: seq<Record>, k: nat)
    requires k < |b| && DistinctKeys(b)
    ensures var rest := b[..k] + b[k + 1..];
      DistinctKeys(rest) && forall q :: q in rest <==> q in b && q != b[k]
  {
    hide Key;
    var rest := b[..k] + b[k + 1..];
    assert forall i :: 0 <= i < |rest| ==> rest[i] == if i < k then b[i] else b[i + 1];
    forall q | q in b && q != b[k] ensures q in rest {
      var i :| 0 <= i < |b| && b[i] == q;
      assert q == if i < k then rest[i] else rest[i - 1];
    }
  }

  lemma EntriesWithout(b: seq<Record>, k: nat)
    requires k < |b|
    ensures multiset(Entries(b)) == multiset(Entries(b[..k] + b[k + 1..])) + multiset{EntryText(b[k])}
  {
    hide Entries, EntryText;
    EntriesOfRest(b, k);
    OneOut(Entries(b), k);
  }

  lemma EntriesOfRest(b: seq<Record>, k: nat)
    requires k < |b|
    ensures Entries(b[..k] + b[k + 1..]) == Entries(b)[..k] + Entries(b)[k + 1..]
  {
    hide Entries, EntryText;
    var c, e := b[..k] + b[k + 1..], Entries(b);
    forall i | 0 <= i < |c| ensures Entries(c)[i] == (e[..k] + e[k + 1..])[i] {
      assert c[i] == if i < k then b[i] else b[i + 1];
    }
  }

  lemma OneOut(e: seq<string>, k: nat)
    requires k < |e|
    ensures multiset(e) == multiset(e[..k] + e[k + 1..]) + multiset{e[k]}
  {
    assert e == e[..k] + [e[k]] + e[k + 1..];
  }

  lemma EntriesDecide(records: seq<Record>)
    requires DistinctKeys(records)
    ensures KeysDecide(Entries(records))
  {
    hide Entries, EntryText, Key;
    var es := Entries(records);
    forall a, b | a in es && b in es && Key(a) == Key(b) ensures a == b {
      var i :| 0 <= i < |es| && es[i] == a;
      var j :| 0 <= j < |es| && es[j] == b;
      EntryKey(records[i]);
      EntryKey(records[j]);
    }
  }

  /** Equal bytes come only from equal sets of records, whatever keys they share. */
  lemma EqualBytesEqualSets(a: seq<Record>, sorted: seq<string>, b: seq<Record>, sorted2: seq<string>)
    requires Plausible(a) && Plausible(b) && IsSortOf(sorted, Entries(a)) && IsSortOf(sorted2, Entries(b))
    requires HashInput(sorted) == HashInput(sorted2)
    ensures forall r :: r in a <==> r in b
  {
    NoNulInEntries(a);
    NoNulInEntries(b);
    hide Entries, Plausible, HashInput, Sorted;
    SameMembers(sorted, Entries(a));
    SameMembers(sorted2, Entries(b));
    HashInputUnique(sorted, sorted2);
    Subset(a, b);
    Subset(b, a);
  }

  /** With distinct keys, equal sets of records give equal bytes, however they were listed and sorted. */
  lemma EqualSetsEqualBytes(a: seq<Record>, sorted: seq<string>, b: seq<Record>, sorted2: seq<string>)
    requires DistinctKeys(a) && DistinctKeys(b) && IsSortOf(sorted, Entries(a)) && IsSortOf(sorted2, Entries(b))
    requires forall r :: r in a <==> r in b
    ensures HashInput(sorted) == HashInput(sorted2)
  {
    SameRecordsSameEntries(a, b);
    EntriesDecide(a);
    hide Entries, DistinctKeys, Sorted, Key;
    SameMembers(sorted, Entries(a));
    SortUnique(sorted, sorted2);
  }

  /**
   The hashed bytes are equal only if the sets of path, status, size and mtime
   are: no difference is ever lost. For listings whose paths have distinct sort
   keys the converse holds too: neither the listing order nor the sort's
   freedom matters.
   */
  lemma FingerprintExact(listing: string, stat: string -> Stat, sorted: seq<string>,
                         listing2: string, stat2: string -> Stat, sorted2: seq<string>)
    requires IsSortOf(sorted, Entries(Records(Split(listing, NUL), stat)))
    requires IsSortOf(sorted2, Entries(Records(Split(listing2, NUL), stat2)))
    ensures var a, b := Records(Split(listing, NUL), stat), Records(Split(listing2, NUL), stat2);
      && (HashInput(sorted) == HashInput(sorted2) ==> forall r :: r in a <==> r in b)
      && (DistinctKeys(a) && DistinctKeys(b) && (forall r :: r in a <==> r in b) ==>
            HashInput(sorted) == HashInput(sorted2))
  {
    hide Records, Split, Entries, HashInput, IsSortOf, DistinctKeys, Plausible;
    var a, b := Records(Split(listing, NUL), stat), Records(Split(listing2, NUL), stat2);
    RecordsPlausible(Split(listing, NUL), stat);
    RecordsPlausible(Split(listing2, NUL), stat2);
    if HashInput(sorted) == HashInput(sorted2) {
      EqualBytesEqualSets(a, sorted, b, sorted2);
    }
    if DistinctKeys(a) && DistinctKeys(b) && forall r :: r in a <==> r in b {
      EqualSetsEqualBytes(a, sorted, b, sorted2);
    }
  }

  lemma NoNulInEntries(records: seq<Record>)
    requires Plausible(records)
    ensures forall e :: e in Entries(records) ==> NUL !in e
  {
    var es := Entries(records);
    forall e | e in es ensures NUL !in e {
      var i :| 0 <= i < |es| && es[i] == e;
      assert records[i] in records;
      EntryHasNoNul(records[i]);
    }
  }

  lemma Subset(a: seq<Record>, b: seq<Record>)
    requires Plausible(a) && Plausible(b) && forall e :: e in Entries(a) ==> e in Entries(b)
    ensures forall r :: r in a ==> r in b
  {
    forall r | r in a ensures r in b {
      var i :| 0 <= i < |a| && a[i] == r;
      assert Entries(a)[i] in Entries(a);
      var j :| 0 <= j < |b| && Entries(b)[j] == EntryText(r);
      assert b[j] in b;
      EntryUnique(r, b[j]);
    }
  }
}
