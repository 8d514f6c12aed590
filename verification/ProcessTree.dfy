/**
 The walk that sums the CPU time of the descendants of a tmux session's panes
 (cmd/datawatch/attempt_progress_cpu.go).

 The process graph is arbitrary: it may hold cycles, shared children, repeated
 roots and pids that the children map does not mention.
 */
module ProcessTree {

  type Pid = int
  type Tree = map<Pid, seq<Pid>>

  /** A pid's ticks, or Unreadable when its stat line cannot be read or parsed. */
  datatype Reading = Unreadable | Ticks(value: nat)

  datatype Frame = Frame(pid: Pid, depth: nat)

  // The walk's running total is a 64-bit unsigned counter.
  const UINT64_MODULUS: nat := 0x1_0000_0000_0000_0000

  function Children(tree: Tree, pid: Pid): seq<Pid> {
    if pid in tree then tree[pid] else []
  }

  function Elements(s: seq<Pid>): (r: set<Pid>)
    ensures forall x :: x in r <==> x in s
  {
    set x | x in s
  }

  // ---- What the walk is meant to reach, in terms of paths ----

  /** p is a walk down the tree: it starts at a root and follows child links. */
  ghost predicate IsPath(roots: seq<Pid>, tree: Tree, p: seq<Pid>) {
    && p != []
    && p[0] in roots
    && forall i :: 0 <= i < |p| - 1 ==> Link(tree, p, i)
  }

  ghost predicate Link(tree: Tree, p: seq<Pid>, i: nat)
    requires i + 1 < |p|
  {
    p[i] in tree && p[i + 1] in tree[p[i]]
  }

  /** Some walk of exactly `steps` links leads from a root to pid. */
  ghost predicate ReachedIn(roots: seq<Pid>, tree: Tree, pid: Pid, steps: nat) {
    exists p: seq<Pid> :: IsPath(roots, tree, p) && |p| == steps + 1 && p[steps] == pid
  }

  /** The shortest walk from the roots to pid has exactly d links. */
  ghost predicate Distance(roots: seq<Pid>, tree: Tree, pid: Pid, d: nat) {
    && ReachedIn(roots, tree, pid, d)
    && forall k: nat :: k < d ==> !ReachedIn(roots, tree, pid, k)
  }

  /** pid is a proper descendant: its distance is between 1 and maxDepth. */
  ghost predicate Counted(roots: seq<Pid>, tree: Tree, maxDepth: nat, pid: Pid) {
    exists d: nat :: 1 <= d <= maxDepth && Distance(roots, tree, pid, d)
  }

  /** Every pid that any root or child list mentions: what the walk can visit. */
  ghost function Universe(roots: seq<Pid>, tree: Tree): set<Pid> {
    Elements(roots) + set p, c | p in tree && c in tree[p] :: c
  }

  /** The pids whose ticks are wanted. */
  ghost function Descendants(roots: seq<Pid>, tree: Tree, maxDepth: nat): set<Pid> {
    set p | p in Universe(roots, tree) && Counted(roots, tree, maxDepth, p)
  }

  lemma ReachedByExtending(roots: seq<Pid>, tree: Tree, pid: Pid, child: Pid, d: nat)
    requires ReachedIn(roots, tree, pid, d)
    requires child in Children(tree, pid)
    ensures ReachedIn(roots, tree, child, d + 1)
  {
    var p: seq<Pid> :| IsPath(roots, tree, p) && |p| == d + 1 && p[d] == pid;
    var q := p + [child];
    forall i | 0 <= i < |q| - 1 ensures Link(tree, q, i) { assert i < d ==> Link(tree, p, i); }
    assert IsPath(roots, tree, q) && |q| == d + 2 && q[d + 1] == child;
  }

  lemma ReachedFromParent(roots: seq<Pid>, tree: Tree, pid: Pid, d: nat) returns (parent: Pid)
    requires ReachedIn(roots, tree, pid, d + 1)
    ensures ReachedIn(roots, tree, parent, d) && pid in Children(tree, parent)
  {
    var p: seq<Pid> :| IsPath(roots, tree, p) && |p| == d + 2 && p[d + 1] == pid;
    parent := p[d];
    assert Link(tree, p, d);
    var q := p[..d + 1];
    forall i | 0 <= i < |q| - 1 ensures Link(tree, q, i) { assert Link(tree, p, i); }
    assert IsPath(roots, tree, q) && |q| == d + 1 && q[d] == parent;
  }

  lemma RootsAtZero(roots: seq<Pid>, tree: Tree, pid: Pid)
    ensures ReachedIn(roots, tree, pid, 0) <==> pid in roots
  {
    if pid in roots {
      assert IsPath(roots, tree, [pid]);
    }
  }

  /** Bounding the set by the mentioned pids leaves no descendant out. */
  lemma DescendantsExact(roots: seq<Pid>, tree: Tree, maxDepth: nat, pid: Pid)
    ensures pid in Descendants(roots, tree, maxDepth) <==> Counted(roots, tree, maxDepth, pid)
    ensures pid in roots ==> pid !in Descendants(roots, tree, maxDepth)
  {
    RootsAtZero(roots, tree, pid);
    if Counted(roots, tree, maxDepth, pid) {
      var d: nat :| 1 <= d <= maxDepth && Distance(roots, tree, pid, d);
      var parent := ReachedFromParent(roots, tree, pid, d - 1);
    }
  }

  // ---- Sums over sets of pids ----

  ghost function Sum(ticks: Pid -> Reading, pids: set<Pid>): nat {
    if exists p :: p in pids then
      var p :| p in pids;
      (match ticks(p) case Unreadable => 0 case Ticks(v) => v) + Sum(ticks, pids - {p})
    else 0
  }

  /** One pid more adds its ticks, or nothing when it cannot be read. */
  lemma {:induction false} SumInsert(ticks: Pid -> Reading, pids: set<Pid>, x: Pid)
    requires x !in pids
    ensures Sum(ticks, pids + {x}) == Sum(ticks, pids) + match ticks(x) case Unreadable => 0 case Ticks(v) => v
    decreases pids
  {
    var all := pids + {x};
    var p :| p in all
      && Sum(ticks, all) == Sum(ticks, all - {p}) + match ticks(p) case Unreadable => 0 case Ticks(v) => v;
    if p == x {
      assert all - {x} == pids;
    } else {
      assert all - {p} == (pids - {p}) + {x};
      SumInsert(ticks, pids - {p}, x);
      SumInsert(ticks, pids - {p}, p);
      assert (pids - {p}) + {p} == pids;
    }
  }

  // ---- The state of the walk ----

  /** `depth` records, for each visited pid, its exact distance. */
  ghost predicate ExactDepths(roots: seq<Pid>, tree: Tree, depth: map<Pid, nat>) {
    forall p :: p in depth ==> Distance(roots, tree, p, depth[p])
  }

  /** Frames are in depth order, spread over at most two levels, one per pid. */
  ghost predicate QueueShape(queue: seq<Frame>, depth: map<Pid, nat>, maxDepth: nat) {
    && (forall i :: 0 <= i < |queue| ==>
          queue[i].pid in depth && depth[queue[i].pid] == queue[i].depth <= maxDepth)
    && (forall i, j :: 0 <= i < j < |queue| ==>
          queue[i].depth <= queue[j].depth <= queue[i].depth + 1 && queue[i].pid != queue[j].pid)
  }

  predicate Queued(queue: seq<Frame>, p: Pid) {
    exists i :: 0 <= i < |queue| && queue[i].pid == p
  }

  /** Every visited pid is queued, at the cap, or has all its children visited. */
  ghost predicate Expanded(tree: Tree, queue: seq<Frame>, depth: map<Pid, nat>, maxDepth: nat) {
    forall p :: p in depth && !Queued(queue, p) && depth[p] < maxDepth ==>
      forall c :: c in Children(tree, p) ==> c in depth
  }

  /** Everything within `level` links is visited already. */
  ghost predicate Complete(roots: seq<Pid>, tree: Tree, depth: map<Pid, nat>, level: nat) {
    forall p, k: nat :: k <= level && ReachedIn(roots, tree, p, k) ==> p in depth
  }

  /** A level is complete once every pid of the level above has been expanded. */
  lemma NextLevelComplete(roots: seq<Pid>, tree: Tree, queue: seq<Frame>, depth: map<Pid, nat>,
                          maxDepth: nat, level: nat)
    requires ExactDepths(roots, tree, depth) && Expanded(tree, queue, depth, maxDepth)
    requires Complete(roots, tree, depth, level) && level < maxDepth
    requires forall i :: 0 <= i < |queue| ==>
        queue[i].depth > level && queue[i].pid in depth && depth[queue[i].pid] == queue[i].depth
    ensures Complete(roots, tree, depth, level + 1)
  {
    forall p, k: nat | k <= level + 1 && ReachedIn(roots, tree, p, k) ensures p in depth {
      if k == level + 1 {
        var parent := ReachedFromParent(roots, tree, p, level);
        assert depth[parent] <= level;
        assert !Queued(queue, parent);
      }
    }
  }

  /** Once the queue is empty, exactly the pids within the cap are visited. */
  lemma {:induction false} DrainedComplete(roots: seq<Pid>, tree: Tree, depth: map<Pid, nat>, maxDepth: nat, level: nat)
    requires ExactDepths(roots, tree, depth) && Expanded(tree, [], depth, maxDepth)
    requires Complete(roots, tree, depth, 0) && level <= maxDepth
    ensures Complete(roots, tree, depth, level)
  {
    if level > 0 {
      DrainedComplete(roots, tree, depth, maxDepth, level - 1);
      NextLevelComplete(roots, tree, [], depth, maxDepth, level - 1);
    }
  }

  lemma VisitedIsCounted(roots: seq<Pid>, tree: Tree, depth: map<Pid, nat>, maxDepth: nat, p: Pid)
    requires ExactDepths(roots, tree, depth) && Expanded(tree, [], depth, maxDepth)
    requires Complete(roots, tree, depth, 0)
    requires forall q :: q in depth ==> depth[q] <= maxDepth
    ensures p in depth.Keys - Elements(roots) <==> Counted(roots, tree, maxDepth, p)
  {
    RootsAtZero(roots, tree, p);
    DrainedComplete(roots, tree, depth, maxDepth, maxDepth);
    if p in depth.Keys - Elements(roots) {
      assert Distance(roots, tree, p, depth[p]);
      assert depth[p] != 0;
    }
    if Counted(roots, tree, maxDepth, p) {
      var d: nat :| 1 <= d <= maxDepth && Distance(roots, tree, p, d);
      assert !ReachedIn(roots, tree, p, 0);
    }
  }

  /** What the walk keeps between two frames. */
  ghost predicate Invariant(roots: seq<Pid>, tree: Tree, maxDepth: nat,
                            queue: seq<Frame>, visited: set<Pid>, depth: map<Pid, nat>) {
    && visited == depth.Keys
    && Elements(roots) <= visited <= Universe(roots, tree)
    && QueueShape(queue, depth, maxDepth)
    && ExactDepths(roots, tree, depth)
    && Expanded(tree, queue, depth, maxDepth)
    && Complete(roots, tree, depth, if queue == [] then 0 else queue[0].depth)
    && (forall p :: p in depth ==> depth[p] <= maxDepth)
  }

  /** The first loop: each root is queued once, at depth 0. */
  method SeedRoots(roots: seq<Pid>) returns (queue: seq<Frame>, visited: set<Pid>)
    ensures visited == Elements(roots)
    ensures forall p :: p in visited ==> Queued(queue, p)
    ensures QueueShape(queue, map p | p in visited :: 0, 0)
  {
    visited, queue := {}, [];
    for i := 0 to |roots|
      invariant visited == Elements(roots[..i])
      invariant forall p :: p in visited ==> Queued(queue, p)
      invariant QueueShape(queue, map p | p in visited :: 0, 0)
    {
      if roots[i] !in visited {
        QueuedAfterAppend(queue, Frame(roots[i], 0));
        visited := visited + {roots[i]};
        queue := queue + [Frame(roots[i], 0)];
      }
    }
    assert roots[..|roots|] == roots;
  }

  lemma SeededInvariant(roots: seq<Pid>, tree: Tree, ticks: Pid -> Reading, maxDepth: nat, queue: seq<Frame>)
    requires forall p :: p in roots ==> Queued(queue, p)
    requires QueueShape(queue, map p | p in Elements(roots) :: 0, 0)
    ensures Invariant(roots, tree, maxDepth, queue, Elements(roots), map p | p in Elements(roots) :: 0)
    ensures TotalIs(roots, ticks, Elements(roots), 0)
  {
    var depth: map<Pid, nat> := map p | p in Elements(roots) :: 0;
    forall p | p in depth ensures Distance(roots, tree, p, depth[p]) {
      RootsAtZero(roots, tree, p);
    }
    forall p | ReachedIn(roots, tree, p, 0) ensures p in depth {
      RootsAtZero(roots, tree, p);
    }
    assert Elements(roots) - Elements(roots) == {};
  }

  /** Visiting one more child keeps the invariant, with f still at the head. */
  lemma VisitChild(roots: seq<Pid>, tree: Tree, maxDepth: nat, f: Frame,
                   queue: seq<Frame>, visited: set<Pid>, depth: map<Pid, nat>, c: Pid)
    requires Invariant(roots, tree, maxDepth, [f] + queue, visited, depth)
    requires f.depth < maxDepth && c in Children(tree, f.pid) && c !in visited
    ensures c in Universe(roots, tree) && c !in roots
    ensures Invariant(roots, tree, maxDepth, [f] + queue + [Frame(c, f.depth + 1)], visited + {c},
                      depth[c := f.depth + 1])
  {
    hide QueueShape, ExactDepths, Expanded, Complete, Distance, Universe, Elements, Children;
    var all, child := [f] + queue, Frame(c, f.depth + 1);
    assert all[0] == f && (all + [child])[0] == f;
    HeadVisited(all, depth, maxDepth);
    InUniverse(roots, tree, f.pid, c);
    Discover(roots, tree, depth, f, c);
    AppendShape(all, depth, maxDepth, child);
    AppendExact(roots, tree, depth, c, f.depth + 1);
    AppendExpanded(tree, all, depth, maxDepth, child);
    AppendComplete(roots, tree, depth, c, f.depth + 1, f.depth);
  }

  lemma HeadVisited(queue: seq<Frame>, depth: map<Pid, nat>, maxDepth: nat)
    requires QueueShape(queue, depth, maxDepth) && queue != []
    ensures queue[0].pid in depth && depth[queue[0].pid] == queue[0].depth
  {
  }

  lemma InUniverse(roots: seq<Pid>, tree: Tree, parent: Pid, c: Pid)
    requires c in Children(tree, parent)
    ensures c in Universe(roots, tree)
  {
  }

  lemma AppendExact(roots: seq<Pid>, tree: Tree, depth: map<Pid, nat>, c: Pid, d: nat)
    requires ExactDepths(roots, tree, depth) && Distance(roots, tree, c, d)
    ensures ExactDepths(roots, tree, depth[c := d])
  {
    hide Distance;
  }

  lemma AppendExpanded(tree: Tree, queue: seq<Frame>, depth: map<Pid, nat>, maxDepth: nat, child: Frame)
    requires Expanded(tree, queue, depth, maxDepth)
    ensures Expanded(tree, queue + [child], depth[child.pid := child.depth], maxDepth)
  {
    hide Children, Queued;
    QueuedAfterAppend(queue, child);
  }

  lemma AppendComplete(roots: seq<Pid>, tree: Tree, depth: map<Pid, nat>, c: Pid, d: nat, level: nat)
    requires Complete(roots, tree, depth, level)
    ensures Complete(roots, tree, depth[c := d], level)
  {
    hide ReachedIn;
  }

  lemma AppendShape(queue: seq<Frame>, depth: map<Pid, nat>, maxDepth: nat, child: Frame)
    requires QueueShape(queue, depth, maxDepth) && queue != []
    requires child.pid !in depth && child.depth == queue[0].depth + 1 <= maxDepth
    ensures QueueShape(queue + [child], depth[child.pid := child.depth], maxDepth)
  {
    forall i | 0 <= i < |queue|
      ensures queue[i].depth <= child.depth <= queue[i].depth + 1
    {
      assert i > 0 ==> queue[0].depth <= queue[i].depth <= queue[0].depth + 1;
    }
  }

  /** The running total over the visited non-roots, in 64-bit arithmetic. */
  ghost predicate TotalIs(roots: seq<Pid>, ticks: Pid -> Reading, visited: set<Pid>, total: nat) {
    total == Sum(ticks, visited - Elements(roots)) % UINT64_MODULUS
  }

  lemma AddContribution(roots: seq<Pid>, ticks: Pid -> Reading, visited: set<Pid>, total: nat, c: Pid)
    requires TotalIs(roots, ticks, visited, total)
    requires c !in visited && c !in roots
    ensures var more := match ticks(c) case Unreadable => 0 case Ticks(v) => v;
      TotalIs(roots, ticks, visited + {c}, (total + more) % UINT64_MODULUS)
  {
    assert visited + {c} - Elements(roots) == (visited - Elements(roots)) + {c};
    SumInsert(ticks, visited - Elements(roots), c);
  }

  /** The inner loop: every unvisited child of f is visited, summed and queued. */
  method VisitChildren(roots: seq<Pid>, tree: Tree, ticks: Pid -> Reading, maxDepth: nat, f: Frame,
                       queue: seq<Frame>, visited: set<Pid>, ghost depth: map<Pid, nat>, total: nat)
      returns (queue': seq<Frame>, visited': set<Pid>, ghost depth': map<Pid, nat>, total': nat)
    requires Invariant(roots, tree, maxDepth, [f] + queue, visited, depth)
    requires f.depth < maxDepth && TotalIs(roots, ticks, visited, total)
    ensures Invariant(roots, tree, maxDepth, [f] + queue', visited', depth')
    ensures TotalIs(roots, ticks, visited', total')
    ensures forall c :: c in Children(tree, f.pid) ==> c in visited'
    ensures (visited' == visited && queue' == queue) ||
        Universe(roots, tree) - visited' < Universe(roots, tree) - visited
  {
    hide Invariant, TotalIs, Universe;
    queue', visited', depth', total' := queue, visited, depth, total;
    var kids := Children(tree, f.pid);
    for i := 0 to |kids|
      invariant Invariant(roots, tree, maxDepth, [f] + queue', visited', depth')
      invariant TotalIs(roots, ticks, visited', total')
      invariant forall j :: 0 <= j < i ==> kids[j] in visited'
      invariant (visited' == visited && queue' == queue) ||
          Universe(roots, tree) - visited' < Universe(roots, tree) - visited
    {
      var c := kids[i];
      if c !in visited' {
        VisitChild(roots, tree, maxDepth, f, queue', visited', depth', c);
        AddContribution(roots, ticks, visited', total', c);
        visited' := visited' + {c};
        depth' := depth'[c := f.depth + 1];
        total' := (total' + match ticks(c) case Unreadable => 0 case Ticks(v) => v) % UINT64_MODULUS;
        assert [f] + queue' + [Frame(c, f.depth + 1)] == [f] + (queue' + [Frame(c, f.depth + 1)]);
        queue' := queue' + [Frame(c, f.depth + 1)];
      }
    }
  }

  /** Dropping a frame whose children are all visited, or that sits at the cap. */
  lemma FrameDone(roots: seq<Pid>, tree: Tree, maxDepth: nat, f: Frame,
                  queue: seq<Frame>, visited: set<Pid>, depth: map<Pid, nat>)
    requires Invariant(roots, tree, maxDepth, [f] + queue, visited, depth)
    requires f.depth < maxDepth ==> forall c :: c in Children(tree, f.pid) ==> c in visited
    ensures Invariant(roots, tree, maxDepth, queue, visited, depth)
  {
    hide QueueShape, ExactDepths, Expanded, Complete, Universe, Elements, Children;
    var all := [f] + queue;
    assert all[0] == f && all[1..] == queue;
    HeadVisited(all, depth, maxDepth);
    DropShape(all, depth, maxDepth);
    DropExpanded(tree, f, queue, depth, maxDepth);
    if queue != [] && queue[0].depth != f.depth {
      NextLevelComplete(roots, tree, queue, depth, maxDepth, f.depth);
    } else if queue == [] {
      CompleteBelow(roots, tree, depth, f.depth);
    }
  }

  /** What is left of the queue keeps its shape, and lies at most one level below the head. */
  lemma DropShape(all: seq<Frame>, depth: map<Pid, nat>, maxDepth: nat)
    requires QueueShape(all, depth, maxDepth) && all != []
    ensures QueueShape(all[1..], depth, maxDepth)
    ensures forall i :: 0 <= i < |all[1..]| ==>
        all[1..][i].pid in depth && depth[all[1..][i].pid] == all[1..][i].depth <= maxDepth
    ensures |all| > 1 ==> all[0].depth <= all[1].depth <= all[0].depth + 1
    ensures forall i :: 0 <= i < |all[1..]| ==> all[1].depth <= all[1..][i].depth
  {
    assert forall i :: 0 <= i < |all[1..]| ==> all[1..][i] == all[i + 1];
  }

  lemma DropExpanded(tree: Tree, f: Frame, queue: seq<Frame>, depth: map<Pid, nat>, maxDepth: nat)
    requires Expanded(tree, [f] + queue, depth, maxDepth) && f.pid in depth && depth[f.pid] == f.depth
    requires f.depth < maxDepth ==> forall c :: c in Children(tree, f.pid) ==> c in depth
    ensures Expanded(tree, queue, depth, maxDepth)
  {
    hide Children;
    var all := [f] + queue;
    forall p | p in depth && !Queued(queue, p) && p != f.pid ensures !Queued(all, p) {
      assert forall i :: 0 < i < |all| ==> all[i] == queue[i - 1];
    }
  }

  lemma CompleteBelow(roots: seq<Pid>, tree: Tree, depth: map<Pid, nat>, level: nat)
    requires Complete(roots, tree, depth, level)
    ensures Complete(roots, tree, depth, 0)
  {
    hide ReachedIn;
  }

  /** With the queue empty the visited non-roots are exactly the descendants. */
  lemma DrainedTotal(roots: seq<Pid>, tree: Tree, ticks: Pid -> Reading, maxDepth: nat,
                     visited: set<Pid>, depth: map<Pid, nat>, total: nat)
    requires Invariant(roots, tree, maxDepth, [], visited, depth) && TotalIs(roots, ticks, visited, total)
    ensures total == Sum(ticks, Descendants(roots, tree, maxDepth)) % UINT64_MODULUS
  {
    forall p ensures p in visited - Elements(roots) <==> p in Descendants(roots, tree, maxDepth) {
      VisitedIsCounted(roots, tree, depth, maxDepth, p);
      DescendantsExact(roots, tree, maxDepth, p);
    }
    assert visited - Elements(roots) == Descendants(roots, tree, maxDepth);
  }

  /**
   The tick walk: breadth-first from the roots, each pid visited once, nothing
   below maxDepth expanded. The total is the 64-bit sum over exactly the pids
   whose shortest distance from the roots lies between 1 and maxDepth; an
   unreadable pid adds nothing and is expanded all the same.
   */
  method ChildCpuTicks(roots: seq<Pid>, tree: Tree, ticks: Pid -> Reading, maxDepth: nat) returns (total: nat)
    ensures total == Sum(ticks, Descendants(roots, tree, maxDepth)) % UINT64_MODULUS
    ensures Sum(ticks, Descendants(roots, tree, maxDepth)) < 0x1_0000_0000_0000_0000 ==>
              total == Sum(ticks, Descendants(roots, tree, maxDepth))
  {
    hide *;
    var queue, visited := SeedRoots(roots);
    ghost var depth: map<Pid, nat> := map p | p in visited :: 0;
    total := 0;
    SeededInvariant(roots, tree, ticks, maxDepth, queue);
    while queue != []
      invariant Invariant(roots, tree, maxDepth, queue, visited, depth) && TotalIs(roots, ticks, visited, total)
      decreases Universe(roots, tree) - visited, |queue|
    {
      var f := queue[0];
      assert queue == [f] + queue[1..];
      queue := queue[1..];
      if f.depth < maxDepth {
        queue, visited, depth, total := VisitChildren(roots, tree, ticks, maxDepth, f, queue, visited, depth, total);
      }
      FrameDone(roots, tree, maxDepth, f, queue, visited, depth);
    }
    DrainedTotal(roots, tree, ticks, maxDepth, visited, depth, total);
    NoOverflow(Sum(ticks, Descendants(roots, tree, maxDepth)));
  }

  /** The counter holds 64 bits. */
  lemma NoOverflow(n: nat)
    ensures n < 0x1_0000_0000_0000_0000 ==> n % UINT64_MODULUS == n
  {
  }

  lemma QueuedAfterAppend(queue: seq<Frame>, f: Frame)
    ensures forall p :: Queued(queue + [f], p) <==> Queued(queue, p) || p == f.pid
  {
    var q := queue + [f];
    assert q[|queue|] == f;
    assert forall i :: 0 <= i < |queue| ==> q[i] == queue[i];
  }

  /** A child that is not visited yet lies exactly one link below its parent. */
  lemma Discover(roots: seq<Pid>, tree: Tree, depth: map<Pid, nat>, f: Frame, c: Pid)
    requires f.pid in depth && depth[f.pid] == f.depth && ExactDepths(roots, tree, depth)
    requires c in Children(tree, f.pid) && c !in depth
    requires Complete(roots, tree, depth, f.depth)
    ensures Distance(roots, tree, c, f.depth + 1)
  {
    ReachedByExtending(roots, tree, f.pid, c, f.depth);
  }
}
