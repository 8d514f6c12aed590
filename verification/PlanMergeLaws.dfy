/**
 What a merge of the closed tables makes of a file, told by the places of its
 segments and rows (scripts/plans_registry_hygiene.py).
 */
module PlanMergeLaws {
  import opened Basics
  import opened PlanTables
  import opened PlanMerge

  predicate ClosedAt(closed: Table -> bool, segs: seq<Segment>, i: nat) {
    i < |segs| && segs[i].Tab? && closed(segs[i].table)
  }

  /** Row `row` of segment `seg`. */
  datatype Place = Place(seg: nat, row: nat)

  predicate InClosed(closed: Table -> bool, segs: seq<Segment>, p: Place) {
    ClosedAt(closed, segs, p.seg) && p.row < |segs[p.seg].table.rows|
  }

  predicate Precedes(p: Place, q: Place) {
    p.seg < q.seg || (p.seg == q.seg && p.row < q.row)
  }

  /** rows are the rows of closed tables at the places ps, in the order of the file. */
  ghost predicate RowsAt(closed: Table -> bool, segs: seq<Segment>, ps: seq<Place>, rows: seq<string>) {
    && |ps| == |rows|
    && (forall k :: 0 <= k < |ps| ==> InClosed(closed, segs, ps[k]) && segs[ps[k].seg].table.rows[ps[k].row] == rows[k])
    && forall k, l :: 0 <= k < l < |ps| ==> Precedes(ps[k], ps[l])
  }

  ghost predicate AllPlaces(closed: Table -> bool, segs: seq<Segment>, ps: seq<Place>) {
    forall p :: p in ps <==> InClosed(closed, segs, p)
  }

  function Shift(ps: seq<Place>): (r: seq<Place>)
    ensures |r| == |ps| && forall k :: 0 <= k < |ps| ==> r[k] == Place(ps[k].seg + 1, ps[k].row)
  {
    seq(|ps|, (k: nat) requires k < |ps| => Place(ps[k].seg + 1, ps[k].row))
  }

  function FirstRows(n: nat): (r: seq<Place>)
    ensures |r| == n && forall k :: 0 <= k < n ==> r[k] == Place(0, k)
  {
    seq(n, (k: nat) => Place(0, k))
  }

  /** The rows of the closed tables, each with its place. */
  lemma {:induction false} ClosedPlaces(closed: Table -> bool, segs: seq<Segment>) returns (ps: seq<Place>)
    ensures RowsAt(closed, segs, ps, ClosedRows(closed, segs)) && AllPlaces(closed, segs, ps)
  {
    if segs == [] {
      ps := [];
    } else {
      var later := ClosedPlaces(closed, segs[1..]);
      var own := if IsClosed(closed, segs[0]) then segs[0].table.rows else [];
      ps := FirstRows(|own|) + Shift(later);
      var rest := ClosedRows(closed, segs[1..]);
      assert ClosedRows(closed, segs) == own + rest;
      hide ClosedRows;
      PlacesCons(closed, segs, own, later, rest);
    }
  }

  lemma PlacesCons(closed: Table -> bool, segs: seq<Segment>, own: seq<string>, later: seq<Place>, rest: seq<string>)
    requires segs != [] && own == if IsClosed(closed, segs[0]) then segs[0].table.rows else []
    requires RowsAt(closed, segs[1..], later, rest) && AllPlaces(closed, segs[1..], later)
    ensures var ps := FirstRows(|own|) + Shift(later);
      RowsAt(closed, segs, ps, own + rest) && AllPlaces(closed, segs, ps)
  {
    RowsCons(closed, segs, own, later, rest);
    hide RowsAt;
    var first, shifted := FirstRows(|own|), Shift(later);
    var ps := first + shifted;
    forall p ensures p in ps <==> InClosed(closed, segs, p) {
      if p.seg == 0 {
        assert p.row < |own| ==> first[p.row] == p && ps[p.row] == p;
      } else {
        var q := Place(p.seg - 1, p.row);
        assert InClosed(closed, segs, p) <==> InClosed(closed, segs[1..], q);
        if k :| 0 <= k < |later| && later[k] == q {
          assert ps[|own| + k] == p;
        }
      }
    }
  }

  lemma RowsCons(closed: Table -> bool, segs: seq<Segment>, own: seq<string>, later: seq<Place>, rest: seq<string>)
    requires segs != [] && own == if IsClosed(closed, segs[0]) then segs[0].table.rows else []
    requires RowsAt(closed, segs[1..], later, rest)
    ensures RowsAt(closed, segs, FirstRows(|own|) + Shift(later), own + rest)
  {
    var ps, rows := FirstRows(|own|) + Shift(later), own + rest;
    forall k | 0 <= k < |ps|
      ensures InClosed(closed, segs, ps[k]) && segs[ps[k].seg].table.rows[ps[k].row] == rows[k]
    {
      if |own| <= k {
        var q := later[k - |own|];
        assert InClosed(closed, segs[1..], q) && segs[1..][q.seg] == segs[q.seg + 1];
        assert ps[k] == Place(q.seg + 1, q.row);
      }
    }
    hide InClosed;
    forall k, l | 0 <= k < l < |ps| ensures Precedes(ps[k], ps[l]) {
      if |own| <= k {
        assert Precedes(later[k - |own|], later[l - |own|]);
      }
    }
  }

  /** The row at p has a key that no row of the table t has and no closed row before it. */
  ghost predicate IsGained(sx: Syntax, closed: Table -> bool, t: Table, later: seq<Segment>, p: Place) {
    InClosed(closed, later, p) &&
    var key := sx.key(later[p.seg].table.rows[p.row]);
    && (forall r :: r in t.rows ==> sx.key(r) != key)
    && forall q :: InClosed(closed, later, q) && Precedes(q, p) ==> sx.key(later[q.seg].table.rows[q.row]) != key
  }

  function At(ps: seq<Place>, js: seq<nat>): (r: seq<Place>)
    requires forall k :: 0 <= k < |js| ==> js[k] < |ps|
    ensures |r| == |js| && forall k :: 0 <= k < |js| ==> r[k] == ps[js[k]]
  {
    seq(|js|, (k: nat) requires k < |js| => ps[js[k]])
  }

  /** The first closed table gains exactly the later closed rows with a key of their own, in order. */
  lemma GainedExact(sx: Syntax, closed: Table -> bool, t: Table, later: seq<Segment>) returns (at: seq<Place>)
    ensures RowsAt(closed, later, at, Gained(sx, closed, t, later))
    ensures forall p :: p in at <==> IsGained(sx, closed, t, later, p)
  {
    hide ClosedRows, Fresh, IsNew, Keys, RowsAt, AllPlaces, IsGained;
    var rows := ClosedRows(closed, later);
    var ps := ClosedPlaces(closed, later);
    var js := FreshExact(sx, rows, Keys(sx, t.rows));
    PickedPlaces(closed, later, ps, rows, js, Gained(sx, closed, t, later));
    at := At(ps, js);
    forall p ensures p in at <==> IsGained(sx, closed, t, later, p) {
      if InClosed(closed, later, p) {
        var i := PlaceOf(closed, later, ps, rows, p);
        NewIsGained(sx, closed, t, later, ps, rows, i);
        InPicked(ps, js, i, closed, later, rows);
      } else {
        NotGained(sx, closed, t, later, p);
      }
    }
  }

  lemma NotGained(sx: Syntax, closed: Table -> bool, t: Table, later: seq<Segment>, p: Place)
    requires !InClosed(closed, later, p)
    ensures !IsGained(sx, closed, t, later, p)
  {
  }

  lemma PickedPlaces(closed: Table -> bool, segs: seq<Segment>, ps: seq<Place>, rows: seq<string>, js: seq<nat>,
                     out: seq<string>)
    requires RowsAt(closed, segs, ps, rows) && Picks(rows, js, out)
    ensures |ps| == |rows| && (forall k :: 0 <= k < |js| ==> js[k] < |ps|) && RowsAt(closed, segs, At(ps, js), out)
    ensures forall k :: 0 <= k < |js| ==> InClosed(closed, segs, At(ps, js)[k])
  {
  }

  lemma PlaceOf(closed: Table -> bool, segs: seq<Segment>, ps: seq<Place>, rows: seq<string>, p: Place)
      returns (i: nat)
    requires RowsAt(closed, segs, ps, rows) && AllPlaces(closed, segs, ps) && InClosed(closed, segs, p)
    ensures i < |ps| && ps[i] == p
  {
    assert p in ps;
    i :| i < |ps| && ps[i] == p;
  }

  lemma InPicked(ps: seq<Place>, js: seq<nat>, i: nat, closed: Table -> bool, segs: seq<Segment>, rows: seq<string>)
    requires RowsAt(closed, segs, ps, rows) && i < |ps| && forall k :: 0 <= k < |js| ==> js[k] < |ps|
    ensures ps[i] in At(ps, js) <==> i in js
  {
    var at := At(ps, js);
    if i in js {
      var k :| 0 <= k < |js| && js[k] == i;
      assert at[k] == ps[i];
    }
    if ps[i] in at {
      var k :| 0 <= k < |at| && at[k] == ps[i];
      OnePlace(closed, segs, ps, rows, js[k], i);
      OnePlace(closed, segs, ps, rows, i, js[k]);
    }
  }

  lemma OnePlace(closed: Table -> bool, segs: seq<Segment>, ps: seq<Place>, rows: seq<string>, i: nat, j: nat)
    requires RowsAt(closed, segs, ps, rows) && i < |ps| && j < |ps|
    ensures i < j ==> ps[i] != ps[j]
  {
    InOrderOfPlaces(closed, segs, ps, rows, i, j);
  }

  lemma InOrderOfPlaces(closed: Table -> bool, segs: seq<Segment>, ps: seq<Place>, rows: seq<string>, i: nat, j: nat)
    requires RowsAt(closed, segs, ps, rows) && i < |ps| && j < |ps|
    ensures i < j ==> Precedes(ps[i], ps[j])
  {
  }

  lemma NewIsGained(sx: Syntax, closed: Table -> bool, t: Table, later: seq<Segment>, ps: seq<Place>,
                    rows: seq<string>, i: nat)
    requires RowsAt(closed, later, ps, rows) && AllPlaces(closed, later, ps) && i < |ps|
    ensures IsNew(sx, rows, Keys(sx, t.rows), i) <==> IsGained(sx, closed, t, later, ps[i])
  {
    if IsNew(sx, rows, Keys(sx, t.rows), i) {
      forall q | InClosed(closed, later, q) && Precedes(q, ps[i])
        ensures sx.key(later[q.seg].table.rows[q.row]) != sx.key(rows[i])
      {
        var j := PlaceOf(closed, later, ps, rows, q);
        InOrderOfPlaces(closed, later, ps, rows, i, j);
      }
    }
    if IsGained(sx, closed, t, later, ps[i]) {
      forall j | 0 <= j < i ensures sx.key(rows[j]) != sx.key(rows[i]) {
        assert InClosed(closed, later, ps[j]) && Precedes(ps[j], ps[i]);
      }
    }
  }

  lemma {:induction false} DropExact(closed: Table -> bool, segs: seq<Segment>) returns (js: seq<nat>)
    ensures Picks(segs, js, DropClosed(closed, segs))
    ensures forall i: nat :: i in js <==> i < |segs| && !ClosedAt(closed, segs, i)
  {
    hide DropClosed, Picks;
    if segs == [] {
      js := [];
      NothingDropped(closed);
    } else {
      var n := |segs| - 1;
      var front, last := segs[..n], segs[n];
      var ks := DropExact(closed, front);
      assert segs == front + [last];
      DropAppend(closed, front, last);
      PickOneMore(front, ks, DropClosed(closed, front), last);
      assert DropClosed(closed, front) + [] == DropClosed(closed, front);
      js := if ClosedAt(closed, segs, n) then ks else ks + [n];
      assert forall i: nat :: i < n ==> (ClosedAt(closed, segs, i) <==> ClosedAt(closed, front, i));
    }
  }

  lemma NothingDropped(closed: Table -> bool)
    ensures Picks([], [], DropClosed(closed, []))
  {
  }

  lemma {:induction false} DropAppend(closed: Table -> bool, segs: seq<Segment>, s: Segment)
    ensures DropClosed(closed, segs + [s]) == DropClosed(closed, segs) + if IsClosed(closed, s) then [] else [s]
  {
    if segs == [] {
      assert ([] + [s])[1..] == [] && DropClosed(closed, []) == [];
    } else {
      assert (segs + [s])[1..] == segs[1..] + [s];
      DropAppend(closed, segs[1..], s);
    }
  }

  lemma {:induction false} MergedAt(sx: Syntax, closed: Table -> bool, segs: seq<Segment>, f: nat)
    requires ClosedAt(closed, segs, f) && forall i: nat :: i < f ==> !ClosedAt(closed, segs, i)
    ensures var t := segs[f].table;
      && Merged(sx, closed, segs) ==
         segs[..f] + [Tab(Table(t.header, t.sep, t.rows + Gained(sx, closed, t, segs[f + 1..])))]
         + DropClosed(closed, segs[f + 1..])
      && Appended(sx, closed, segs) == Gained(sx, closed, t, segs[f + 1..])
      && LaterRows(closed, segs) == ClosedRows(closed, segs[f + 1..])
    decreases f
  {
    hide Gained, DropClosed, ClosedRows;
    if f > 0 {
      assert !ClosedAt(closed, segs, 0);
      assert forall i: nat :: i < f - 1 ==> (ClosedAt(closed, segs[1..], i) <==> ClosedAt(closed, segs, i + 1));
      MergedAt(sx, closed, segs[1..], f - 1);
      assert segs[1..][f..] == segs[f + 1..] && [segs[0]] + segs[1..][..f - 1] == segs[..f];
    }
  }

  /**
   With f the first closed table: the segments before it stay, it keeps its
   header, its separator and its rows and gains exactly the rows of later
   closed tables with a key of their own, and of the segments after it exactly
   the closed tables go. Both counts are counts of places.
   */
  lemma MergedExact(sx: Syntax, closed: Table -> bool, segs: seq<Segment>, f: nat)
      returns (gained: seq<string>, at: seq<Place>, rest: seq<Segment>, js: seq<nat>, all: seq<Place>)
    requires ClosedAt(closed, segs, f) && forall i: nat :: i < f ==> !ClosedAt(closed, segs, i)
    ensures var t, later := segs[f].table, segs[f + 1..];
      && Merged(sx, closed, segs) == segs[..f] + [Tab(Table(t.header, t.sep, t.rows + gained))] + rest
      && RowsAt(closed, later, at, gained) && (forall p :: p in at <==> IsGained(sx, closed, t, later, p))
      && Picks(later, js, rest) && (forall i: nat :: i in js <==> i < |later| && !ClosedAt(closed, later, i))
      && Appended(sx, closed, segs) == gained
      && RowsAt(closed, later, all, LaterRows(closed, segs)) && AllPlaces(closed, later, all)
  {
    hide Merged, Gained, DropClosed, ClosedRows, Appended, LaterRows, RowsAt, IsGained, Picks, AllPlaces;
    var t, later := segs[f].table, segs[f + 1..];
    MergedAt(sx, closed, segs, f);
    gained, rest := Gained(sx, closed, t, later), DropClosed(closed, later);
    at := GainedExact(sx, closed, t, later);
    js := DropExact(closed, later);
    all := ClosedPlaces(closed, later);
  }

  /** Without a closed table the file stays as it is. */
  lemma {:induction false} NothingMerged(sx: Syntax, closed: Table -> bool, segs: seq<Segment>)
    requires forall i: nat :: !ClosedAt(closed, segs, i)
    ensures Merged(sx, closed, segs) == segs && Appended(sx, closed, segs) == LaterRows(closed, segs) == []
  {
    if segs != [] {
      assert !ClosedAt(closed, segs, 0);
      assert forall i: nat :: ClosedAt(closed, segs[1..], i) ==> ClosedAt(closed, segs, i + 1);
      NothingMerged(sx, closed, segs[1..]);
    }
  }
}
