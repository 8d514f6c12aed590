/**
 The two graph searches behind the decomposition rubric
 (scripts/eval_model_tiering.py): the three-colour cycle test and the
 reachability worklist, over any graph.
 */
module PlanGraph {
  import opened Basics

  type Key = string
  type Edges = map<Key, set<Key>>

  function Successors(edges: Edges, n: Key): set<Key> {
    if n in edges then edges[n] else {}
  }

  // ---- Walks, cycles and orders ----

  ghost predicate Hop(edges: Edges, p: seq<Key>, i: nat)
    requires i + 1 < |p|
  {
    p[i] in edges && p[i + 1] in edges[p[i]]
  }

  ghost predicate IsWalk(edges: Edges, p: seq<Key>) {
    p != [] && forall i :: 0 <= i < |p| - 1 ==> Hop(edges, p, i)
  }

  lemma ExtendWalk(edges: Edges, p: seq<Key>, n: Key)
    requires p != [] ==> IsWalk(edges, p) && n in Successors(edges, p[|p| - 1])
    ensures IsWalk(edges, p + [n])
  {
    var q := p + [n];
    forall i | 0 <= i < |q| - 1 ensures Hop(edges, q, i) {
      assert i < |p| - 1 ==> Hop(edges, p, i);
    }
  }

  /** A closed walk of at least one edge through known nodes only. */
  ghost predicate IsCycle(nodes: set<Key>, edges: Edges, p: seq<Key>) {
    && IsWalk(edges, p) && |p| >= 2 && p[0] == p[|p| - 1]
    && forall i :: 0 <= i < |p| ==> p[i] in nodes
  }

  ghost predicate Cyclic(nodes: set<Key>, edges: Edges) {
    exists p: seq<Key> :: IsCycle(nodes, edges, p)
  }

  /** No repeats, and every known successor of an element stands before it. */
  ghost predicate DependenciesFirst(nodes: set<Key>, edges: Edges, order: seq<Key>) {
    && (forall i, j :: 0 <= i < j < |order| ==> order[i] != order[j])
    && (forall i, m :: 0 <= i < |order| && order[i] in edges && m in edges[order[i]] && m in nodes ==> m in order[..i])
  }

  ghost predicate Topological(nodes: set<Key>, edges: Edges, order: seq<Key>) {
    && DependenciesFirst(nodes, edges, order)
    && forall n :: n in nodes <==> n in order
  }

  /** Along a walk inside the order, positions only go down. */
  lemma {:induction false} WalkDescends(nodes: set<Key>, edges: Edges, order: seq<Key>, p: seq<Key>, last: nat)
      returns (at: nat)
    requires Topological(nodes, edges, order) && IsWalk(edges, p) && last < |p|
    requires forall i :: 0 <= i < |p| ==> p[i] in nodes
    ensures at < |order| && order[at] == p[last]
    ensures last > 0 ==> exists start: nat :: at < start < |order| && order[start] == p[0]
  {
    if last == 0 {
      at :| 0 <= at < |order| && order[at] == p[0];
    } else {
      var before := WalkDescends(nodes, edges, order, p, last - 1);
      assert Hop(edges, p, last - 1);
      assert p[last] in order[..before];
      at :| 0 <= at < before && order[at] == p[last];
      if last - 1 == 0 {
        assert at < before < |order| && order[before] == p[0];
      } else {
        var start: nat :| before < start < |order| && order[start] == p[0];
        assert at < start;
      }
    }
  }

  lemma WalkNeverCloses(nodes: set<Key>, edges: Edges, order: seq<Key>, p: seq<Key>)
    requires Topological(nodes, edges, order) && IsWalk(edges, p) && |p| >= 2
    requires forall i :: 0 <= i < |p| ==> p[i] in nodes
    ensures p[0] != p[|p| - 1]
  {
    var at := WalkDescends(nodes, edges, order, p, |p| - 1);
  }

  lemma OrderedMeansAcyclic(nodes: set<Key>, edges: Edges, order: seq<Key>)
    requires Topological(nodes, edges, order)
    ensures !Cyclic(nodes, edges)
  {
    forall p: seq<Key> | IsWalk(edges, p) && |p| >= 2 && forall i :: 0 <= i < |p| ==> p[i] in nodes
      ensures p[0] != p[|p| - 1]
    {
      WalkNeverCloses(nodes, edges, order, p);
    }
  }

  /** A node may be finished once all its known successors are. */
  lemma FinishNode(nodes: set<Key>, edges: Edges, order: seq<Key>, n: Key)
    requires DependenciesFirst(nodes, edges, order) && n !in order
    requires forall m :: m in Successors(edges, n) && m in nodes ==> m in order
    ensures DependenciesFirst(nodes, edges, order + [n])
  {
    var longer := order + [n];
    forall i, m | 0 <= i < |longer| && m in Successors(edges, longer[i]) && m in nodes ensures m in longer[..i] {
      if i < |order| {
        assert longer[..i] == order[..i];
      } else {
        assert longer[..i] == order;
      }
    }
  }

  // ---- The three-colour search ----

  datatype Colour = White | Grey | Black

  /** Grey nodes are exactly the recursion stack, black ones are finished dependencies first. */
  ghost predicate Consistent(nodes: set<Key>, edges: Edges, colour: map<Key, Colour>, finished: seq<Key>,
                             stack: seq<Key>)
  {
    && colour.Keys == nodes
    && (forall n :: n in nodes ==> (colour[n] == Grey <==> n in stack) && (colour[n] == Black <==> n in finished))
    && (forall n :: n in stack || n in finished ==> n in nodes)
    && DependenciesFirst(nodes, edges, finished)
    && (stack != [] ==> IsWalk(edges, stack))
  }

  ghost function Whites(colour: map<Key, Colour>): set<Key> {
    set n | n in colour && colour[n] == White
  }

  lemma TurnGrey(nodes: set<Key>, edges: Edges, colour: map<Key, Colour>, finished: seq<Key>, stack: seq<Key>, n: Key)
    requires Consistent(nodes, edges, colour, finished, stack) && n in nodes && colour[n] == White
    requires stack != [] ==> n in Successors(edges, stack[|stack| - 1])
    ensures n !in stack && Consistent(nodes, edges, colour[n := Grey], finished, stack + [n])
    ensures n in Whites(colour) && Whites(colour[n := Grey]) == Whites(colour) - {n}
  {
    ExtendWalk(edges, stack, n);
  }

  lemma TurnBlack(nodes: set<Key>, edges: Edges, colour: map<Key, Colour>, finished: seq<Key>, stack: seq<Key>, n: Key)
    requires Consistent(nodes, edges, colour, finished, stack + [n]) && n !in stack
    requires forall m :: m in Successors(edges, n) && m in nodes ==> m in finished
    ensures Consistent(nodes, edges, colour[n := Black], finished + [n], stack)
    ensures Whites(colour[n := Black]) == Whites(colour)
  {
    var path := stack + [n];
    assert n in path && forall m :: m in path <==> m in stack || m == n;
    FinishNode(nodes, edges, finished, n);
    if stack != [] {
      forall i | 0 <= i < |stack| - 1 ensures Hop(edges, stack, i) {
        assert Hop(edges, path, i);
      }
    }
  }

  /** Meeting a grey node closes a cycle. */
  lemma GreyClosesCycle(nodes: set<Key>, edges: Edges, colour: map<Key, Colour>, finished: seq<Key>, stack: seq<Key>,
                        m: Key)
    requires Consistent(nodes, edges, colour, finished, stack) && stack != []
    requires m in nodes && colour[m] == Grey && m in Successors(edges, stack[|stack| - 1])
    ensures Cyclic(nodes, edges)
  {
    var k :| 0 <= k < |stack| && stack[k] == m;
    var p := stack[k..] + [m];
    forall i | 0 <= i < |p| - 1 ensures Hop(edges, p, i) {
      assert i + k < |stack| - 1 ==> Hop(edges, stack, i + k);
    }
    assert IsCycle(nodes, edges, p);
  }

  class CycleSearch {
    const nodes: set<Key>
    const edges: Edges
    var colour: map<Key, Colour>
    ghost var finished: seq<Key>  // the black nodes, in the order they turned black

    ghost predicate Valid(stack: seq<Key>)
      reads this
    {
      colour.Keys == nodes && Consistent(nodes, edges, colour, finished, stack)
    }

    constructor (nodes: set<Key>, edges: Edges)
      ensures this.nodes == nodes && this.edges == edges
      ensures Valid([]) && finished == []
    {
      this.nodes, this.edges := nodes, edges;
      colour := map n | n in nodes :: White;
      finished := [];
    }

    /** Depth-first visit of white n, reached from the top of the stack. */
    method Visit(n: Key, ghost stack: seq<Key>) returns (found: bool)
      requires Valid(stack) && n in nodes && colour[n] == White
      requires stack != [] ==> n in Successors(edges, stack[|stack| - 1])
      modifies this
      ensures found ==> Cyclic(nodes, edges)
      ensures !found ==> Valid(stack) && old(finished) < finished && n in finished
      ensures Whites(colour) < old(Whites(colour))
      decreases Whites(colour)
    {
      hide Consistent, Cyclic, Whites;
      TurnGrey(nodes, edges, colour, finished, stack, n);
      ghost var path := stack + [n];
      colour := colour[n := Grey];
      var rest := Successors(edges, n);
      while rest != {}
        invariant Valid(path) && old(finished) <= finished
        invariant rest <= Successors(edges, n)
        invariant forall m :: m in Successors(edges, n) && m in nodes && m !in rest ==> m in finished
        invariant Whites(colour) <= old(Whites(colour)) - {n}
        decreases rest
      {
        NonEmpty(rest);
        var m :| m in rest;
        rest := rest - {m};
        if m !in colour {
          continue;
        }
        if colour[m] == Grey {
          GreyClosesCycle(nodes, edges, colour, finished, path, m);
          return true;
        }
        if colour[m] == White {
          var deeper := Visit(m, path);
          if deeper {
            return true;
          }
        } else {
          BlackIsFinished(nodes, edges, colour, finished, path, m);
        }
      }
      TurnBlack(nodes, edges, colour, finished, stack, n);
      colour := colour[n := Black];
      finished := finished + [n];
      return false;
    }
  }

  lemma BlackIsFinished(nodes: set<Key>, edges: Edges, colour: map<Key, Colour>, finished: seq<Key>, stack: seq<Key>,
                        n: Key)
    requires Consistent(nodes, edges, colour, finished, stack) && n in nodes && colour[n] == Black
    ensures n in finished
  {
  }

  /** The cycle test, with an order as the witness when there is no cycle. */
  method HasCycle(nodes: set<Key>, edges: Edges) returns (found: bool)
    ensures found <==> Cyclic(nodes, edges)
    ensures !found ==> exists order :: Topological(nodes, edges, order)
  {
    var search := new CycleSearch(nodes, edges);
    var rest := nodes;
    while rest != {}
      invariant rest <= nodes
      invariant search.nodes == nodes && search.edges == edges && search.Valid([])
      invariant forall n :: n in nodes && n !in rest ==> n in search.finished
      decreases rest
    {
      NonEmpty(rest);
      var n :| n in rest;
      rest := rest - {n};
      if search.colour[n] == White {
        var cyclic := search.Visit(n, []);
        if cyclic {
          return true;
        }
      }
    }
    assert Topological(nodes, edges, search.finished);
    OrderedMeansAcyclic(nodes, edges, search.finished);
    return false;
  }

  // ---- Reachability ----

  /** A walk of one or more edges leads from start to x. */
  ghost predicate Reaches(edges: Edges, start: Key, x: Key) {
    exists p: seq<Key> :: IsWalk(edges, p) && |p| >= 2 && p[0] == start && p[|p| - 1] == x
  }

  ghost function Targets(edges: Edges): set<Key> {
    set n, m | n in edges && m in edges[n] :: m
  }

  lemma ReachesStep(edges: Edges, start: Key, n: Key, m: Key)
    requires n == start || Reaches(edges, start, n)
    requires m in Successors(edges, n)
    ensures Reaches(edges, start, m)
  {
    var p := [start];
    if n != start {
      p :| IsWalk(edges, p) && |p| >= 2 && p[0] == start && p[|p| - 1] == n;
    }
    ExtendWalk(edges, p, m);
    assert IsWalk(edges, p + [m]);
  }

  lemma {:induction false} ClosedContainsWalk(edges: Edges, start: Key, closed: set<Key>, p: seq<Key>, k: nat)
    requires IsWalk(edges, p) && p[0] == start && 1 <= k < |p|
    requires Successors(edges, start) <= closed
    requires forall n :: n in closed ==> Successors(edges, n) <= closed
    ensures p[k] in closed
  {
    assert Hop(edges, p, k - 1);
    if k > 1 {
      ClosedContainsWalk(edges, start, closed, p, k - 1);
    }
  }

  /** The elements of a set in some order. */
  method Listed(s: set<Key>) returns (r: seq<Key>)
    ensures forall x :: x in r <==> x in s
  {
    r := [];
    var rest := s;
    while rest != {}
      invariant rest <= s
      invariant forall x :: x in r <==> x in s - rest
      decreases rest
    {
      NonEmpty(rest);
      var x :| x in rest;
      rest := rest - {x};
      r := r + [x];
    }
  }

  /** The worklist: exactly the nodes one or more edges away from start. */
  method Reachable(start: Key, edges: Edges) returns (seen: set<Key>)
    ensures forall x :: x in seen <==> Reaches(edges, start, x)
  {
    seen := {};
    var stack := Listed(Successors(edges, start));
    forall x | x in stack ensures Reaches(edges, start, x) { ReachesStep(edges, start, start, x); }
    while stack != []
      invariant seen <= Targets(edges) && forall x :: x in stack ==> x in Targets(edges)
      invariant forall x :: x in seen || x in stack ==> Reaches(edges, start, x)
      invariant forall x :: x in Successors(edges, start) ==> x in seen || x in stack
      invariant forall n, x :: n in seen && x in Successors(edges, n) ==> x in seen || x in stack
      decreases Targets(edges) - seen, |stack|
    {
      var n := stack[|stack| - 1];
      assert n in stack;
      stack := stack[..|stack| - 1];
      if n in seen {
        continue;
      }
      forall x | x in Successors(edges, n) ensures Reaches(edges, start, x) { ReachesStep(edges, start, n, x); }
      seen := seen + {n};
      var next := Listed(Successors(edges, n));
      stack := stack + next;
    }
    forall x | Reaches(edges, start, x) ensures x in seen {
      var p: seq<Key> :| IsWalk(edges, p) && |p| >= 2 && p[0] == start && p[|p| - 1] == x;
      ClosedContainsWalk(edges, start, seen, p, |p| - 1);
    }
  }
}
