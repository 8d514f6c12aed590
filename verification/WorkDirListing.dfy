/**
 What the work-directory fingerprint makes of a whole status listing
 (cmd/datawatch/attempt_progress_workdir.go): items that name one path, and
 renames that name two, of which the reader knows nothing.
 */
module WorkDirListing {
  import opened WorkDirFingerprint

  // ---- Listings of changed and renamed files ----

  /** One item of `git status --porcelain=v1 -z`: a rename names its source after the new path. */
  datatype Item = Changed(status: string, path: string) | Renamed(status: string, path: string, source: string)

  function ItemChunks(i: Item): seq<string> {
    [i.status + " " + i.path] + if i.Renamed? then [i.source] else []
  }

  function Chunks(items: seq<Item>): seq<string> {
    if items == [] then [] else ItemChunks(items[0]) + Chunks(items[1..])
  }

  /** The listing's text: every chunk closed by a NUL. */
  function Listing(items: seq<Item>): string {
    HashInput(Chunks(items))
  }

  ghost predicate WellFormed(i: Item) {
    && |i.status| == 2 && NUL !in i.status && i.path != "" && NUL !in i.path
    && (i.Renamed? ==> NUL !in i.source)
  }

  ghost predicate AllWellFormed(items: seq<Item>) {
    forall i :: i in items ==> WellFormed(i)
  }

  /** A path with its status and what the file system says about it; zeros when the file is gone. */
  function FileRecord(path: string, status: string, stat: string -> Stat): Record {
    match stat(path)
    case Missing => Record(path, status, 0, 0)
    case Present(size, mtime) => Record(path, status, size, mtime)
  }

  /** What the fingerprint is meant to cover: every item outside the scratch files, once. */
  function ItemRecords(items: seq<Item>, stat: string -> Stat): seq<Record> {
    if items == [] then []
    else
      (if IsScratch(items[0].path) then [] else [FileRecord(items[0].path, items[0].status, stat)])
      + ItemRecords(items[1..], stat)
  }

  lemma {:induction false} ChunksConcat(a: seq<Item>, b: seq<Item>)
    ensures Chunks(a + b) == Chunks(a) + Chunks(b)
  {
    hide ItemChunks;
    if a == [] {
      assert a + b == b;
    } else {
      assert (a + b)[1..] == a[1..] + b;
      ChunksConcat(a[1..], b);
    }
  }

  lemma ChunksOfOne(i: Item)
    ensures Chunks([i]) == ItemChunks(i)
  {
    hide ItemChunks;
    assert [i][1..] == [] && ItemChunks(i) + [] == ItemChunks(i);
  }

  lemma {:induction false} RecordsConcat(a: seq<string>, b: seq<string>, stat: string -> Stat)
    ensures Records(a + b, stat) == Records(a, stat) + Records(b, stat)
    decreases |b|
  {
    hide Skipped, RecordOf;
    if b == [] {
      assert a + b == a && Records(a, stat) + [] == Records(a, stat);
    } else {
      var n := |b| - 1;
      assert (a + b)[..|a| + n] == a + b[..n];
      RecordsConcat(a, b[..n], stat);
    }
  }

  lemma RecordsOfOne(raw: string, stat: string -> Stat)
    ensures Records([raw], stat) == if Skipped(raw) then [] else [RecordOf(raw, stat)]
  {
    hide Skipped, RecordOf;
    assert [raw][..0] == [];
  }

  /** The chunk of a path gives its record, or nothing for a scratch file. */
  lemma PathChunk(status: string, path: string, stat: string -> Stat)
    requires |status| == 2 && path != ""
    ensures Records([status + " " + path], stat) == if IsScratch(path) then [] else [FileRecord(path, status, stat)]
  {
    hide IsScratch;
    var raw := status + " " + path;
    assert raw[..2] == status && raw[3..] == path;
    RecordsOfOne(raw, stat);
  }

  /** What an item's chunks are read as: its own record, and one more when a rename's source passes for a chunk. */
  lemma RecordsOfItem(i: Item, stat: string -> Stat)
    requires WellFormed(i)
    ensures Records(ItemChunks(i), stat) ==
            (if IsScratch(i.path) then [] else [FileRecord(i.path, i.status, stat)])
            + if i.Renamed? && !Skipped(i.source) then [RecordOf(i.source, stat)] else []
  {
    PathChunk(i.status, i.path, stat);
    hide IsScratch, Skipped, RecordOf, FileRecord, Records;
    var main := [i.status + " " + i.path];
    if i.Renamed? {
      RecordsConcat(main, [i.source], stat);
      RecordsOfOne(i.source, stat);
    } else {
      assert main + [] == main && Records(main, stat) + [] == Records(main, stat);
    }
  }

  lemma {:induction false} NoNulInChunks(items: seq<Item>)
    requires AllWellFormed(items)
    ensures forall c :: c in Chunks(items) ==> NUL !in c
  {
    if items != [] {
      assert WellFormed(items[0]);
      NoNulInChunks(items[1..]);
    }
  }

  /** Reading a listing reads the chunks it was made of. */
  lemma ListingRead(items: seq<Item>, stat: string -> Stat)
    requires AllWellFormed(items)
    ensures Records(Split(Listing(items), NUL), stat) == Records(Chunks(items), stat)
  {
    NoNulInChunks(items);
    SplitTerminated(Chunks(items));
    RecordsConcat(Chunks(items), [""], stat);
    RecordsOfOne("", stat);
    hide Records, Chunks;
    assert Records(Chunks(items), stat) + [] == Records(Chunks(items), stat);
  }

  /** No rename's source passes for a chunk of its own: each is too short, or a scratch path three characters on. */
  ghost predicate SourcesSkipped(items: seq<Item>) {
    forall i :: i in items && i.Renamed? ==> Skipped(i.source)
  }

  lemma {:induction false} ChunksExact(items: seq<Item>, stat: string -> Stat)
    requires AllWellFormed(items)
    ensures |Records(Chunks(items), stat)| >= |ItemRecords(items, stat)| + if SourcesSkipped(items) then 0 else 1
    ensures SourcesSkipped(items) ==> Records(Chunks(items), stat) == ItemRecords(items, stat)
  {
    hide Skipped, IsScratch, RecordOf, FileRecord, ItemChunks, WellFormed;
    if items != [] {
      var i, rest := items[0], items[1..];
      assert items == [i] + rest && WellFormed(i);
      ChunksExact(rest, stat);
      RecordsConcat(ItemChunks(i), Chunks(rest), stat);
      RecordsOfItem(i, stat);
      hide Records;
      assert SourcesSkipped(items) <==> (i.Renamed? ==> Skipped(i.source)) && SourcesSkipped(rest);
    }
  }

  /**
   A listing is read as exactly its items outside the scratch files if and only
   if no rename's source passes for a chunk of its own.
   */
  lemma ListingExact(items: seq<Item>, stat: string -> Stat)
    requires AllWellFormed(items)
    ensures Records(Split(Listing(items), NUL), stat) == ItemRecords(items, stat) <==> SourcesSkipped(items)
  {
    ListingRead(items, stat);
    ChunksExact(items, stat);
  }

  /**
   An item about a scratch file, wherever it stands, leaves no trace if and only
   if it is no rename whose source passes for a chunk of its own.
   */
  lemma ScratchIgnoredExactly(before: seq<Item>, i: Item, after: seq<Item>, stat: string -> Stat)
    requires AllWellFormed(before) && AllWellFormed(after) && WellFormed(i) && IsScratch(i.path)
    ensures var with, without := Listing(before + [i] + after), Listing(before + after);
      Records(Split(with, NUL), stat) == Records(Split(without, NUL), stat) <==> (i.Renamed? ==> Skipped(i.source))
  {
    hide Skipped, IsScratch, RecordOf, FileRecord, WellFormed, Records, ItemChunks, Listing, Split;
    ListingRead(before + [i] + after, stat);
    ListingRead(before + after, stat);
    ChunksOfOne(i);
    hide Chunks;
    ChunksConcat(before + [i], after);
    ChunksConcat(before, [i]);
    ChunksConcat(before, after);
    RecordsConcat(Chunks(before) + ItemChunks(i), Chunks(after), stat);
    RecordsConcat(Chunks(before), ItemChunks(i), stat);
    RecordsConcat(Chunks(before), Chunks(after), stat);
    RecordsOfItem(i, stat);
    assert Records(Chunks(before), stat) + [] == Records(Chunks(before), stat);
  }

  /** A listing of one item, read back. */
  lemma OneItemRead(i: Item, stat: string -> Stat)
    requires WellFormed(i)
    ensures Records(Split(Listing([i]), NUL), stat) ==
            ItemRecords([i], stat) + if i.Renamed? && !Skipped(i.source) then [RecordOf(i.source, stat)] else []
  {
    assert [i][1..] == [];
    ChunksOfOne(i);
    var own := if IsScratch(i.path) then [] else [FileRecord(i.path, i.status, stat)];
    assert ItemRecords([i], stat) == own + [] == own;
    hide IsScratch, Skipped, RecordOf, FileRecord, Records, ItemRecords, Listing, Split, Chunks, ItemChunks;
    ListingRead([i], stat);
    RecordsOfItem(i, stat);
  }

  /** The harness's own path is read as another one when it stands alone. */
  lemma HarnessPathMisread(stat: string -> Stat)
    ensures IsScratch(".datawatch/x") && !Skipped(".datawatch/x")
    ensures RecordOf(".datawatch/x", stat) == FileRecord("tawatch/x", ".d", stat)
  {
    var source := ".datawatch/x";
    assert source == ".datawatch" + ['/'] + "x" && source[..2] == ".d";
    assert source[3..] == "tawatch" + ['/'] + "x" == "tawatch/x";
    SplitFirst(".datawatch", '/', "x");
    NotScratch("tawatch", "x");
    assert IsScratch(source) by { hide Base; }
    hide Split, Base;
  }

  /**
   A rename out of the harness's directory is not ignored: its source is cut
   three characters in and read as a path of its own, even when the new path is
   scratch as well.
   */
  lemma ScratchSourceLeavesTrace(dest: string, stat: string -> Stat)
    requires dest != "" && NUL !in dest
    ensures IsScratch(".datawatch/x")
    ensures var items := [Renamed("R ", dest, ".datawatch/x")];
      Records(Split(Listing(items), NUL), stat) == ItemRecords(items, stat) + [FileRecord("tawatch/x", ".d", stat)]
  {
    var i := Renamed("R ", dest, ".datawatch/x");
    assert WellFormed(i);
    hide *;
    HarnessPathMisread(stat);
    OneItemRead(i, stat);
  }

  /** A path of two plain elements is no scratch path. */
  lemma NotScratch(dir: string, name: string)
    requires '/' !in dir && '/' !in name && name != "" && name[0] != '.' && name[0] != 'C' && dir != SCRATCH_DIR
    ensures !IsScratch(dir + ['/'] + name)
  {
    var p := dir + ['/'] + name;
    SplitFirst(dir, '/', name);
    SplitOne(name, '/');
    assert p[|p| - 1] == name[|name| - 1] && name[|name| - 1] in name;
    assert Split(p, '/') == [dir, name];
    assert Base(p) == name;
  }

  // ---- The fingerprint of a listing ----

  ghost predicate DistinctPathKeys(items: seq<Item>) {
    forall i, j :: 0 <= i < j < |items| ==> Key(items[i].path) != Key(items[j].path)
  }

  /** The paths of a listing: no path twice, and none with a unit separator in it. */
  ghost predicate DistinctPlainPaths(items: seq<Item>) {
    && (forall i, j :: 0 <= i < j < |items| ==> items[i].path != items[j].path)
    && (forall i :: 0 <= i < |items| ==> UNIT !in items[i].path)
  }

  lemma PlainPathsDistinct(items: seq<Item>)
    requires DistinctPlainPaths(items)
    ensures DistinctPathKeys(items)
  {
    forall i, j | 0 <= i < j < |items| ensures Key(items[i].path) != Key(items[j].path) {
      KeyOfPlainPath(items[i].path);
      KeyOfPlainPath(items[j].path);
    }
  }

  lemma {:induction false} ItemRecordsFrom(items: seq<Item>, stat: string -> Stat, r: Record)
    requires r in ItemRecords(items, stat)
    ensures exists i :: 0 <= i < |items| && items[i].path == r.path
  {
    hide IsScratch;
    if items[0].path != r.path {
      ItemRecordsFrom(items[1..], stat, r);
      var i :| 0 <= i < |items[1..]| && items[1..][i].path == r.path;
      assert items[i + 1].path == r.path;
    }
  }

  lemma {:induction false} ItemsDistinct(items: seq<Item>, stat: string -> Stat)
    requires DistinctPathKeys(items)
    ensures DistinctKeys(ItemRecords(items, stat))
  {
    hide Key, IsScratch;
    if items != [] {
      ItemsDistinct(items[1..], stat);
      var rest := ItemRecords(items[1..], stat);
      forall k | 0 <= k < |rest| ensures Key(rest[k].path) != Key(items[0].path) {
        ItemRecordsFrom(items[1..], stat, rest[k]);
      }
    }
  }

  /**
   Two listings whose paths have distinct sort keys and whose rename sources are
   skipped: in whatever order they were listed and sorted, the hashed bytes are
   equal exactly when the sets of path, status, size and mtime outside the
   scratch files are.
   */
  lemma ListingFingerprint(items: seq<Item>, stat: string -> Stat, sorted: seq<string>,
                           items2: seq<Item>, stat2: string -> Stat, sorted2: seq<string>)
    requires AllWellFormed(items) && SourcesSkipped(items) && DistinctPathKeys(items)
    requires AllWellFormed(items2) && SourcesSkipped(items2) && DistinctPathKeys(items2)
    requires IsSortOf(sorted, Entries(Records(Split(Listing(items), NUL), stat)))
    requires IsSortOf(sorted2, Entries(Records(Split(Listing(items2), NUL), stat2)))
    ensures HashInput(sorted) == HashInput(sorted2) <==>
            forall r :: r in ItemRecords(items, stat) <==> r in ItemRecords(items2, stat2)
  {
    hide *;
    ListingExact(items, stat);
    ListingExact(items2, stat2);
    ItemsDistinct(items, stat);
    ItemsDistinct(items2, stat2);
    FingerprintExact(Listing(items), stat, sorted, Listing(items2), stat2, sorted2);
  }

  /**
   Distinct paths alone are not enough. With a unit separator in one, the sort
   may leave either entry first and the bytes differ.
   */
  lemma UnitSeparatorOrderMatters(stat: string -> Stat) returns (a: seq<string>, b: seq<string>)
    ensures var items := [Changed(" M", "a"), Changed(" M", "a" + [UNIT] + "b")];
      var entries := Entries(Records(Split(Listing(items), NUL), stat));
      IsSortOf(a, entries) && IsSortOf(b, entries) && HashInput(a) != HashInput(b)
  {
    var p, q := "a", "a" + [UNIT] + "b";
    PlainName(p);
    PlainName(q);
    KeyOfEntry(p, "b");
    var i, j := Changed(" M", p), Changed(" M", q);
    assert WellFormed(i) && WellFormed(j);
    var x, y := FileRecord(p, " M", stat), FileRecord(q, " M", stat);
    assert Plausible([x, y]) && x.path == p && y.path == q && p != q;
    hide *;
    TwoItemsRead(i, j, stat);
    RecordsOfItem(i, stat);
    RecordsOfItem(j, stat);
    assert ([x] + []) + ([y] + []) == [x, y];
    a, b := SharedKey([x, y]);
  }

  /** Nor with a rename whose source, cut three characters in, names another item's path. */
  lemma RenameSourceOrderMatters(i: Item, j: Item, stat: string -> Stat) returns (a: seq<string>, b: seq<string>)
    requires WellFormed(i) && WellFormed(j) && i.Changed? && j.Renamed? && !IsScratch(i.path) && !IsScratch(j.path)
    requires |j.source| >= 3 && !Skipped(j.source) && j.source[3..] == i.path && j.source[..2] != i.status
    ensures var entries := Entries(Records(Split(Listing([i, j]), NUL), stat));
      IsSortOf(a, entries) && IsSortOf(b, entries) && HashInput(a) != HashInput(b)
  {
    hide *;
    var x, y, z := FileRecord(i.path, i.status, stat), FileRecord(j.path, j.status, stat), RecordOf(j.source, stat);
    RenameRecords(i, j, stat);
    TwoItemsRead(i, j, stat);
    RecordsOfItem(i, stat);
    RecordsOfItem(j, stat);
    assert ([x] + []) + ([y] + [z]) == [x, y, z];
    a, b := SharedKey([x, y, z]);
  }

  lemma RenameRecords(i: Item, j: Item, stat: string -> Stat)
    requires WellFormed(i) && WellFormed(j) && j.Renamed? && |j.source| >= 3
    requires j.source[3..] == i.path && j.source[..2] != i.status
    ensures |j.source| >= 3
    ensures var x, y := FileRecord(i.path, i.status, stat), FileRecord(j.path, j.status, stat);
      var z := RecordOf(j.source, stat);
      Plausible([x, y, z]) && x.path == z.path && x != z
  {
    assert forall c :: c in j.source[..2] || c in j.source[3..] ==> c in j.source;
  }

  /** For example: foo is changed, and ab/foo is renamed to g. */
  lemma RenameSourceExample(stat: string -> Stat) returns (a: seq<string>, b: seq<string>)
    ensures var items := [Changed(" M", "foo"), Renamed("R ", "g", "ab/foo")];
      var entries := Entries(Records(Split(Listing(items), NUL), stat));
      IsSortOf(a, entries) && IsSortOf(b, entries) && HashInput(a) != HashInput(b)
  {
    PlainName("foo");
    PlainName("g");
    assert "ab/foo"[3..] == "foo" && "ab/foo"[..2] == "ab";
    var i, j := Changed(" M", "foo"), Renamed("R ", "g", "ab/foo");
    assert WellFormed(i) && WellFormed(j);
    assert !Skipped(j.source) by { hide IsScratch; }
    hide *;
    a, b := RenameSourceOrderMatters(i, j, stat);
  }

  lemma TwoItemsRead(i: Item, j: Item, stat: string -> Stat)
    requires WellFormed(i) && WellFormed(j)
    ensures Records(Split(Listing([i, j]), NUL), stat) == Records(ItemChunks(i), stat) + Records(ItemChunks(j), stat)
  {
    hide Records, Split, Listing, Chunks, ItemChunks, WellFormed;
    ListingRead([i, j], stat);
    assert [i] + [j] == [i, j];
    ChunksConcat([i], [j]);
    ChunksOfOne(i);
    ChunksOfOne(j);
    RecordsConcat(ItemChunks(i), ItemChunks(j), stat);
  }

  lemma PlainName(name: string)
    requires '/' !in name && name != "" && name[0] != '.' && name[0] != 'C'
    ensures !IsScratch(name)
  {
    SplitOne(name, '/');
    assert name[|name| - 1] in name;
  }

  /** Entries that share a key but differ can be left in two orders, and the bytes tell. */
  lemma SharedKey(records: seq<Record>) returns (a: seq<string>, b: seq<string>)
    requires Plausible(records) && |records| > 1 && records[0] != records[|records| - 1]
    requires Key(records[0].path) == Key(records[|records| - 1].path)
    ensures IsSortOf(a, Entries(records)) && IsSortOf(b, Entries(records)) && HashInput(a) != HashInput(b)
  {
    var es, n := Entries(records), |records| - 1;
    assert records[0] in records && records[n] in records;
    NoNulInEntries(records);
    EntryKey(records[0]);
    EntryKey(records[n]);
    hide Entries, Key, EntryText;
    if es[0] == es[n] {
      EntryUnique(records[0], records[n]);
    }
    assert es[0] in es && es[n] in es;
    a, b := TwoOrders(es);
  }
}
