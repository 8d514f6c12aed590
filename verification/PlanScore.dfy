/**
 Criteria C5 and C12 of the decomposition rubric over a normalised plan
 (scripts/eval_model_tiering.py): the task graph with story dependencies
 expanded, its cycle test, and the release-depends-on-code test.
 */
module PlanScore {
  import opened Basics
  import opened PlanGraph

  datatype Story = Story(key: Key, dependsOn: seq<Key>)
  datatype Task = Task(key: Key, story: Key, dependsOn: seq<Key>, files: seq<string>)
  datatype Plan = Plan(stories: seq<Story>, tasks: seq<Task>)

  const RELEASE_FILES := ["cmd/datawatch/main.go", "internal/server/api.go", "CHANGELOG.md"]
  const CODE_FILE := "internal/session/tracker.go"

  /** A dependency id that named no item of the plan is kept with a leading '?'. */
  predicate Unresolved(d: Key) {
    |d| > 0 && d[0] == '?'
  }

  // ---- What the plan says, without the dictionaries ----

  /** The story at index i is the one its key stands for: the last with that key. */
  ghost predicate LastStory(stories: seq<Story>, i: int) {
    0 <= i < |stories| && forall j :: i < j < |stories| ==> stories[j].key != stories[i].key
  }

  /** The story keyed a lists b among its dependencies. */
  ghost predicate StoryLists(stories: seq<Story>, a: Key, b: Key) {
    exists i :: LastStory(stories, i) && stories[i].key == a && b in stories[i].dependsOn
  }

  /** t depends on the task keyed u: by name, or because u belongs to a story t's story depends on. */
  ghost predicate DependsOn(plan: Plan, t: Task, u: Key) {
    || (u in t.dependsOn && !(u != "" && u[0] == '?'))
    || exists v :: v in plan.tasks && v.key == u && StoryLists(plan.stories, t.story, v.story)
  }

  ghost predicate HasTask(plan: Plan, k: Key) {
    exists t :: t in plan.tasks && t.key == k
  }

  ghost predicate HasStory(plan: Plan, k: Key) {
    exists s :: s in plan.stories && s.key == k
  }

  // ---- The same, as the code looks it up ----

  /** Story key's dependencies: a later story with the same key replaces an earlier one. */
  function StoryDeps(stories: seq<Story>, key: Key): seq<Key> {
    if stories == [] then []
    else
      var last := stories[|stories| - 1];
      if last.key == key then last.dependsOn else StoryDeps(stories[..|stories| - 1], key)
  }

  lemma {:induction false} StoryDepsExact(stories: seq<Story>, a: Key, b: Key)
    ensures b in StoryDeps(stories, a) <==> StoryLists(stories, a, b)
  {
    if stories != [] {
      var front, last := stories[..|stories| - 1], stories[|stories| - 1];
      assert stories == front + [last];
      StoryDepsExact(front, a, b);
      hide StoryLists;
      StoryListsAppend(front, last, a, b);
    }
  }

  lemma StoryListsAppend(front: seq<Story>, last: Story, a: Key, b: Key)
    ensures StoryLists(front + [last], a, b) <==> if last.key == a then b in last.dependsOn else StoryLists(front, a, b)
  {
    var stories := front + [last];
    assert LastStory(stories, |front|) && stories[|front|] == last;
    forall i | 0 <= i < |front| ensures LastStory(stories, i) <==> LastStory(front, i) && front[i].key != last.key {
      LastStoryAppend(front, last, i);
    }
    hide LastStory;
    if last.key != a && StoryLists(front, a, b) {
      var i :| LastStory(front, i) && front[i].key == a && b in front[i].dependsOn;
      assert 0 <= i < |front| by { InStories(front, i); }
      assert stories[i] == front[i];
    }
    if i :| LastStory(stories, i) && stories[i].key == a && b in stories[i].dependsOn {
      InStories(stories, i);
      assert i < |front| ==> stories[i] == front[i];
    }
  }

  lemma InStories(stories: seq<Story>, i: int)
    requires LastStory(stories, i)
    ensures 0 <= i < |stories|
  {
  }

  lemma LastStoryAppend(front: seq<Story>, last: Story, i: int)
    requires 0 <= i < |front|
    ensures LastStory(front + [last], i) <==> LastStory(front, i) && front[i].key != last.key
  {
    var stories := front + [last];
    assert forall j :: 0 <= j < |front| ==> stories[j] == front[j];
    assert stories[|front|] == last;
  }

  /** Among the first n tasks, the one at index i is the one its key stands for: the last with that key. */
  ghost predicate Standing(tasks: seq<Task>, n: int, i: int) {
    0 <= i < n <= |tasks| && forall j :: i < j < n ==> tasks[j].key != tasks[i].key
  }

  ghost predicate Current(tasks: seq<Task>, i: int) {
    Standing(tasks, |tasks|, i)
  }

  function TaskKeys(tasks: seq<Task>): set<Key> {
    set t | t in tasks :: t.key
  }

  ghost predicate IsTaskGraph(plan: Plan, edges: Edges) {
    && edges.Keys == TaskKeys(plan.tasks)
    && forall i :: Current(plan.tasks, i) ==> TargetsAre(plan, plan.tasks[i], Successors(edges, plan.tasks[i].key))
  }

  ghost predicate TargetsAre(plan: Plan, t: Task, targets: set<Key>) {
    forall u :: u in targets <==> DependsOn(plan, t, u)
  }

  // ---- Building the task graph ----

  predicate Holds(byStory: map<Key, seq<Key>>, story: Key, key: Key) {
    story in byStory && key in byStory[story]
  }

  /** The tasks of each story, in plan order. */
  method TasksByStory(tasks: seq<Task>) returns (byStory: map<Key, seq<Key>>)
    ensures forall s, k :: Holds(byStory, s, k) <==> exists v :: v in tasks && v.key == k && v.story == s
  {
    byStory := map[];
    for i := 0 to |tasks|
      invariant forall s, k :: Holds(byStory, s, k) <==> exists v :: v in tasks[..i] && v.key == k && v.story == s
    {
      var t := tasks[i];
      assert tasks[..i + 1] == tasks[..i] + [t] && t in tasks[..i + 1];
      var before := byStory;
      byStory := byStory[t.story := (if t.story in byStory then byStory[t.story] else []) + [t.key]];
      assert forall s, k :: Holds(byStory, s, k) <==> Holds(before, s, k) || (s == t.story && k == t.key);
    }
    assert tasks[..|tasks|] == tasks;
  }

  method DepsByStory(stories: seq<Story>) returns (deps: map<Key, seq<Key>>)
    ensures forall s :: (if s in deps then deps[s] else []) == StoryDeps(stories, s)
  {
    deps := map[];
    for i := 0 to |stories|
      invariant forall s :: (if s in deps then deps[s] else []) == StoryDeps(stories[..i], s)
    {
      deps := deps[stories[i].key := stories[i].dependsOn];
      assert stories[..i + 1][..i] == stories[..i];
    }
    assert stories[..|stories|] == stories;
  }

  /** The tasks of every story in `from`. */
  method Expand(from: seq<Key>, byStory: map<Key, seq<Key>>) returns (r: set<Key>)
    ensures forall u :: u in r <==> exists s :: s in from && Holds(byStory, s, u)
  {
    r := {};
    for i := 0 to |from|
      invariant forall u :: u in r <==> exists s :: s in from[..i] && Holds(byStory, s, u)
    {
      assert from[..i + 1] == from[..i] + [from[i]] && from[i] in from[..i + 1];
      var added := if from[i] in byStory then set u | u in byStory[from[i]] else {};
      assert forall u :: u in added <==> Holds(byStory, from[i], u);
      r := r + added;
    }
    assert from[..|from|] == from;
  }

  /** The graph of the first n tasks: each key stands for its last task so far. */
  ghost predicate GraphSoFar(plan: Plan, edges: Edges, n: nat) {
    && n <= |plan.tasks| && edges.Keys == TaskKeys(plan.tasks[..n])
    && forall i :: Standing(plan.tasks, n, i) ==> TargetsAre(plan, plan.tasks[i], Successors(edges, plan.tasks[i].key))
  }

  lemma AddTask(plan: Plan, edges: Edges, n: nat, targets: set<Key>)
    requires n < |plan.tasks| && GraphSoFar(plan, edges, n) && TargetsAre(plan, plan.tasks[n], targets)
    ensures GraphSoFar(plan, edges[plan.tasks[n].key := targets], n + 1)
  {
    StandingInRange(plan.tasks, n + 1);
    hide TargetsAre, TaskKeys, Standing, Successors;
    var k := plan.tasks[n].key;
    var after := edges[k := targets];
    assert after.Keys == TaskKeys(plan.tasks[..n + 1]) by {
      AddKey(plan.tasks, n);
    }
    forall i | 0 <= i <= n && Standing(plan.tasks, n + 1, i)
      ensures TargetsAre(plan, plan.tasks[i], Successors(after, plan.tasks[i].key))
    {
      StandingBefore(plan.tasks, n, i);
      Replaced(edges, k, targets, plan.tasks[i].key);
    }
  }

  lemma Replaced(edges: Edges, k: Key, targets: set<Key>, m: Key)
    ensures Successors(edges[k := targets], m) == if m == k then targets else Successors(edges, m)
  {
  }

  lemma AddKey(tasks: seq<Task>, n: nat)
    requires n < |tasks|
    ensures TaskKeys(tasks[..n + 1]) == TaskKeys(tasks[..n]) + {tasks[n].key}
  {
    assert tasks[..n + 1] == tasks[..n] + [tasks[n]];
  }

  lemma StandingInRange(tasks: seq<Task>, n: nat)
    ensures forall i :: Standing(tasks, n, i) ==> 0 <= i < n <= |tasks|
  {
  }

  lemma StandingBefore(tasks: seq<Task>, n: nat, i: int)
    requires Standing(tasks, n + 1, i)
    ensures i == n || (Standing(tasks, n, i) && tasks[i].key != tasks[n].key)
  {
  }

  lemma GraphComplete(plan: Plan, edges: Edges)
    requires GraphSoFar(plan, edges, |plan.tasks|)
    ensures IsTaskGraph(plan, edges)
  {
    hide TargetsAre, Standing, TaskKeys;
    assert plan.tasks[..|plan.tasks|] == plan.tasks;
  }

  /** The task graph: task dependencies plus expanded story dependencies. */
  method TaskEdges(plan: Plan) returns (edges: Edges)
    ensures IsTaskGraph(plan, edges)
  {
    var byStory := TasksByStory(plan.tasks);
    var deps := DepsByStory(plan.stories);
    edges := map[];
    assert GraphSoFar(plan, edges, 0);
    hide GraphSoFar, DependsOn, StoryDeps, Unresolved, IsTaskGraph;
    for i := 0 to |plan.tasks|
      invariant GraphSoFar(plan, edges, i)
    {
      var t := plan.tasks[i];
      var named := set d | d in t.dependsOn && !Unresolved(d);
      var through := Expand(if t.story in deps then deps[t.story] else [], byStory);
      TaskEdge(plan, t, byStory, named, through);
      AddTask(plan, edges, i, named + through);
      edges := edges[t.key := named + through];
    }
    GraphComplete(plan, edges);
  }

  lemma NamedDirectly(t: Task, named: set<Key>)
    requires named == set d | d in t.dependsOn && !Unresolved(d)
    ensures forall u :: u in named <==> u in t.dependsOn && !(u != "" && u[0] == '?')
  {
  }

  lemma TaskEdge(plan: Plan, t: Task, byStory: map<Key, seq<Key>>, named: set<Key>, through: set<Key>)
    requires forall s, k :: Holds(byStory, s, k) <==> exists v :: v in plan.tasks && v.key == k && v.story == s
    requires named == set d | d in t.dependsOn && !Unresolved(d)
    requires forall u :: u in through <==> exists s :: s in StoryDeps(plan.stories, t.story) && Holds(byStory, s, u)
    ensures TargetsAre(plan, t, named + through)
  {
    NamedDirectly(t, named);
    hide Unresolved, StoryDeps, StoryLists;
    forall u
      ensures u in through <==> exists v :: v in plan.tasks && v.key == u && StoryLists(plan.stories, t.story, v.story)
    {
      if v :| v in plan.tasks && v.key == u && StoryLists(plan.stories, t.story, v.story) {
        StoryDepsExact(plan.stories, t.story, v.story);
        assert Holds(byStory, v.story, u);
      }
      if s :| s in StoryDeps(plan.stories, t.story) && Holds(byStory, s, u) {
        StoryDepsExact(plan.stories, t.story, s);
      }
    }
  }

  // ---- Paths in the plan ----

  /** The task that a stands for depends on the one keyed b. */
  ghost predicate Leads(plan: Plan, a: Key, b: Key) {
    exists i :: Current(plan.tasks, i) && plan.tasks[i].key == a && DependsOn(plan, plan.tasks[i], b)
  }

  /** A path through task and expanded story dependencies. */
  ghost predicate IsPath(plan: Plan, p: seq<Key>) {
    p != [] && forall i :: 0 <= i < |p| - 1 ==> TaskStep(plan, p, i)
  }

  ghost predicate TaskStep(plan: Plan, p: seq<Key>, i: nat)
    requires i + 1 < |p|
  {
    Leads(plan, p[i], p[i + 1])
  }

  /** A path through tasks of the plan that ends where it starts. */
  ghost predicate IsLoop(plan: Plan, p: seq<Key>) {
    && IsPath(plan, p) && |p| >= 2 && p[0] == p[|p| - 1]
    && forall i :: 0 <= i < |p| ==> HasTask(plan, p[i])
  }

  /** Some task depends on itself, directly or through other tasks of the plan. */
  ghost predicate Circular(plan: Plan) {
    exists p :: IsLoop(plan, p)
  }

  /** The story keyed a depends on a story of the plan keyed b. */
  ghost predicate StoryLeads(plan: Plan, a: Key, b: Key) {
    StoryLists(plan.stories, a, b) && HasStory(plan, b)
  }

  ghost predicate IsStoryLoop(plan: Plan, p: seq<Key>) {
    |p| >= 2 && p[0] == p[|p| - 1] && forall i :: 0 <= i < |p| - 1 ==> StoryStep(plan, p, i)
  }

  ghost predicate StoryStep(plan: Plan, p: seq<Key>, i: nat)
    requires i + 1 < |p|
  {
    StoryLeads(plan, p[i], p[i + 1])
  }

  /** Some story depends on itself, directly or through other stories of the plan. */
  ghost predicate StoriesCircular(plan: Plan) {
    exists p :: IsStoryLoop(plan, p)
  }

  ghost predicate LeadsTo(plan: Plan, a: Key, b: Key) {
    exists p :: IsPath(plan, p) && |p| >= 2 && p[0] == a && p[|p| - 1] == b
  }

  lemma {:induction false} KeyStands(tasks: seq<Task>, n: nat, k: Key) returns (i: int)
    requires n <= |tasks| && k in TaskKeys(tasks[..n])
    ensures Standing(tasks, n, i) && tasks[i].key == k
  {
    if tasks[n - 1].key == k {
      i := n - 1;
    } else {
      AddKey(tasks, n - 1);
      i := KeyStands(tasks, n - 1, k);
    }
  }

  /** The edges of a task graph are the plan's dependencies. */
  lemma EdgesLead(plan: Plan, edges: Edges, a: Key, b: Key)
    requires IsTaskGraph(plan, edges)
    ensures (a in edges && b in edges[a]) <==> Leads(plan, a, b)
  {
    hide DependsOn, Standing, TaskKeys;
    if a in edges && b in edges[a] {
      assert plan.tasks[..|plan.tasks|] == plan.tasks;
      var i := KeyStands(plan.tasks, |plan.tasks|, a);
      assert Current(plan.tasks, i);
    }
  }

  lemma PathsAreWalks(plan: Plan, edges: Edges, p: seq<Key>)
    requires IsTaskGraph(plan, edges)
    ensures IsWalk(edges, p) <==> IsPath(plan, p)
  {
    hide IsTaskGraph, TaskStep, Hop;
    forall i | 0 <= i < |p| - 1 ensures Hop(edges, p, i) <==> TaskStep(plan, p, i) {
      HopLeads(plan, edges, p, i);
    }
  }

  lemma HopLeads(plan: Plan, edges: Edges, p: seq<Key>, i: nat)
    requires IsTaskGraph(plan, edges) && i + 1 < |p|
    ensures Hop(edges, p, i) <==> TaskStep(plan, p, i)
  {
    hide IsTaskGraph, Leads;
    EdgesLead(plan, edges, p[i], p[i + 1]);
  }

  lemma PlanReaches(plan: Plan, edges: Edges, a: Key, b: Key)
    requires IsTaskGraph(plan, edges)
    ensures Reaches(edges, a, b) <==> LeadsTo(plan, a, b)
  {
    hide IsTaskGraph, IsWalk, IsPath;
    forall p ensures IsWalk(edges, p) <==> IsPath(plan, p) { PathsAreWalks(plan, edges, p); }
  }

  lemma PlanCyclic(plan: Plan, edges: Edges)
    requires IsTaskGraph(plan, edges)
    ensures Cyclic(TaskKeys(plan.tasks), edges) <==> Circular(plan)
  {
    assert forall k :: k in TaskKeys(plan.tasks) <==> HasTask(plan, k);
    hide IsTaskGraph, IsWalk, IsPath, TaskKeys, HasTask;
    forall p ensures IsWalk(edges, p) <==> IsPath(plan, p) { PathsAreWalks(plan, edges, p); }
    if p :| IsCycle(TaskKeys(plan.tasks), edges, p) {
      assert IsLoop(plan, p);
    }
    if p :| IsLoop(plan, p) {
      assert IsCycle(TaskKeys(plan.tasks), edges, p);
    }
  }

  // ---- C5 ----

  /** An execution order: every task after everything it depends on that the plan holds. */
  ghost predicate Schedule(plan: Plan, order: seq<Key>) {
    && (forall i, j :: 0 <= i < j < |order| ==> order[i] != order[j])
    && (forall k :: k in order <==> HasTask(plan, k))
    && (forall at, u :: 0 <= at < |order| && Leads(plan, order[at], u) && HasTask(plan, u) ==> u in order[..at])
  }

  function StoryKeys(stories: seq<Story>): set<Key> {
    set s | s in stories :: s.key
  }

  /** The story graph keeps only dependencies on known stories; a repeated key keeps its last entry. */
  function StoryEdges(stories: seq<Story>): Edges {
    map k | k in StoryKeys(stories) :: set d | d in StoryDeps(stories, k) && d in StoryKeys(stories)
  }

  /**
   C5: no story and no task depends on itself, however indirectly. When it
   passes, the tasks can be scheduled.
   */
  method CriterionC5(plan: Plan, edges: Edges) returns (passed: bool)
    requires IsTaskGraph(plan, edges)
    ensures passed <==> !StoriesCircular(plan) && !Circular(plan)
    ensures passed ==> exists order :: Schedule(plan, order)
  {
    hide *;
    var storyCycle := HasCycle(StoryKeys(plan.stories), StoryEdges(plan.stories));
    StoryCyclic(plan);
    if storyCycle {
      return false;
    }
    var taskCycle := HasCycle(TaskKeys(plan.tasks), edges);
    PlanCyclic(plan, edges);
    if !taskCycle {
      var keys := TaskKeys(plan.tasks);
      ghost var order :| Topological(keys, edges, order);
      ScheduleFromOrder(plan, edges, order);
    }
    return !taskCycle;
  }

  /** An edge of the story graph is a dependency of one story of the plan on another. */
  lemma StoryEdgesLead(plan: Plan, a: Key, b: Key)
    ensures var edges := StoryEdges(plan.stories); (a in edges && b in edges[a]) <==> StoryLeads(plan, a, b)
  {
    StoryDepsExact(plan.stories, a, b);
    assert forall k :: k in StoryKeys(plan.stories) <==> HasStory(plan, k);
    hide StoryDeps;
    if i :| LastStory(plan.stories, i) && plan.stories[i].key == a && b in plan.stories[i].dependsOn {
      assert plan.stories[i] in plan.stories;
    }
  }

  lemma StoryLoopIsCycle(plan: Plan, p: seq<Key>)
    ensures IsStoryLoop(plan, p) <==> IsCycle(StoryKeys(plan.stories), StoryEdges(plan.stories), p)
  {
    var keys, edges := StoryKeys(plan.stories), StoryEdges(plan.stories);
    hide StoryEdges, StoryKeys, StoryStep, Hop;
    forall i | 0 <= i < |p| - 1
      ensures Hop(edges, p, i) <==> StoryStep(plan, p, i)
      ensures Hop(edges, p, i) ==> p[i] in keys
    {
      HopStory(plan, p, i);
    }
    if IsStoryLoop(plan, p) {
      assert Hop(edges, p, 0);
      assert forall i :: 0 <= i < |p| - 1 ==> Hop(edges, p, i);
      forall i | 0 <= i < |p| ensures p[i] in keys {
        assert i < |p| - 1 || p[i] == p[0];
      }
    }
  }

  lemma HopStory(plan: Plan, p: seq<Key>, i: nat)
    requires i + 1 < |p|
    ensures Hop(StoryEdges(plan.stories), p, i) <==> StoryStep(plan, p, i)
    ensures Hop(StoryEdges(plan.stories), p, i) ==> p[i] in StoryKeys(plan.stories)
  {
    assert StoryEdges(plan.stories).Keys == StoryKeys(plan.stories);
    hide StoryEdges, StoryKeys, StoryLeads;
    StoryEdgesLead(plan, p[i], p[i + 1]);
  }

  lemma StoryCyclic(plan: Plan)
    ensures Cyclic(StoryKeys(plan.stories), StoryEdges(plan.stories)) <==> StoriesCircular(plan)
  {
    hide StoryEdges, StoryKeys, IsStoryLoop, IsCycle;
    forall p
      ensures IsStoryLoop(plan, p) <==> IsCycle(StoryKeys(plan.stories), StoryEdges(plan.stories), p)
    {
      StoryLoopIsCycle(plan, p);
    }
  }

  lemma ScheduleFromOrder(plan: Plan, edges: Edges, order: seq<Key>)
    requires IsTaskGraph(plan, edges) && Topological(TaskKeys(plan.tasks), edges, order)
    ensures Schedule(plan, order)
  {
    assert forall k :: k in TaskKeys(plan.tasks) <==> HasTask(plan, k);
    hide IsTaskGraph, Leads, TaskKeys, HasTask;
    forall at, u | 0 <= at < |order| && Leads(plan, order[at], u) && HasTask(plan, u) ensures u in order[..at] {
      EdgesLead(plan, edges, order[at], u);
    }
  }

  // ---- C12 ----

  predicate IsRelease(t: Task) {
    forall f :: f in RELEASE_FILES ==> f in t.files
  }

  predicate IsCode(t: Task) {
    CODE_FILE in t.files
  }

  /** The keys of the tasks that satisfy p, in plan order. */
  function KeysOf(tasks: seq<Task>, p: Task -> bool): (r: seq<Key>)
    ensures forall k :: k in r <==> exists t :: t in tasks && p(t) && t.key == k
  {
    if tasks == [] then []
    else
      var rest := KeysOf(tasks[1..], p);
      assert tasks == [tasks[0]] + tasks[1..];
      if p(tasks[0]) then [tasks[0].key] + rest else rest
  }

  ghost predicate ReachesOther(edges: Edges, code: seq<Key>, k: Key) {
    exists c :: c in code && c != k && Reaches(edges, k, c)
  }

  /** Both lists are non-empty and every key of the first reaches another key of the second. */
  method AllReach(release: seq<Key>, code: seq<Key>, edges: Edges) returns (ok: bool)
    ensures ok <==> release != [] && code != [] && forall k :: k in release ==> ReachesOther(edges, code, k)
  {
    if release == [] || code == [] {
      return false;
    }
    for i := 0 to |release|
      invariant forall j :: 0 <= j < i ==> ReachesOther(edges, code, release[j])
    {
      var reached := Reachable(release[i], edges);
      var hit := reached * ((set c | c in code) - {release[i]});
      NonEmpty(hit);
      assert forall c :: c in hit <==> c in code && c != release[i] && Reaches(edges, release[i], c);
      if hit == {} {
        assert !ReachesOther(edges, code, release[i]);
        return false;
      }
    }
    return true;
  }

  /**
   C12: release and code tasks both exist, and every release task has a path,
   through task or expanded story dependencies, to a code task other than itself.
   */
  ghost predicate ReleaseFollowsCode(plan: Plan) {
    && (exists t :: t in plan.tasks && TouchesRelease(t))
    && (exists t :: t in plan.tasks && TouchesCode(t))
    && forall t :: t in plan.tasks && TouchesRelease(t) ==>
         exists c :: c in plan.tasks && TouchesCode(c) && c.key != t.key && LeadsTo(plan, t.key, c.key)
  }

  /** All three files that carry the version. */
  ghost predicate TouchesRelease(t: Task) {
    "cmd/datawatch/main.go" in t.files && "internal/server/api.go" in t.files && "CHANGELOG.md" in t.files
  }

  ghost predicate TouchesCode(t: Task) {
    "internal/session/tracker.go" in t.files
  }

  lemma FilesExact(t: Task)
    ensures (IsRelease(t) <==> TouchesRelease(t)) && (IsCode(t) <==> TouchesCode(t))
  {
    assert RELEASE_FILES[0] == "cmd/datawatch/main.go" && RELEASE_FILES[1] == "internal/server/api.go";
    assert RELEASE_FILES[2] == "CHANGELOG.md";
  }

  method CriterionC12(plan: Plan, edges: Edges) returns (passed: bool)
    requires IsTaskGraph(plan, edges)
    ensures passed <==> ReleaseFollowsCode(plan)
  {
    hide IsTaskGraph, IsRelease, IsCode, ReachesOther, ReleaseFollowsCode;
    var release, code := KeysOf(plan.tasks, IsRelease), KeysOf(plan.tasks, IsCode);
    passed := AllReach(release, code, edges);
    KeysSayTheSame(plan, edges, release, code);
  }

  lemma KeysSayTheSame(plan: Plan, edges: Edges, release: seq<Key>, code: seq<Key>)
    requires IsTaskGraph(plan, edges)
    requires forall k :: k in release <==> exists t :: t in plan.tasks && IsRelease(t) && t.key == k
    requires forall k :: k in code <==> exists t :: t in plan.tasks && IsCode(t) && t.key == k
    ensures ReleaseFollowsCode(plan) <==>
            release != [] && code != [] && forall k :: k in release ==> ReachesOther(edges, code, k)
  {
    hide IsTaskGraph, IsRelease, IsCode, TouchesRelease, TouchesCode, Reaches, LeadsTo, ReachesOther;
    forall t ensures (IsRelease(t) <==> TouchesRelease(t)) && (IsCode(t) <==> TouchesCode(t)) { FilesExact(t); }
    assert forall t :: t in plan.tasks && IsRelease(t) ==> t.key in release;
    assert forall t :: t in plan.tasks && IsCode(t) ==> t.key in code;
    assert release != [] ==> release[0] in release;
    assert code != [] ==> code[0] in code;
    forall t | t in plan.tasks
      ensures ReachesOther(edges, code, t.key) <==>
              exists c :: c in plan.tasks && IsCode(c) && c.key != t.key && LeadsTo(plan, t.key, c.key)
    {
      OtherCode(plan, edges, code, t.key);
    }
  }

  lemma OtherCode(plan: Plan, edges: Edges, code: seq<Key>, k: Key)
    requires IsTaskGraph(plan, edges)
    requires forall u :: u in code <==> exists t :: t in plan.tasks && IsCode(t) && t.key == u
    ensures ReachesOther(edges, code, k) <==>
        exists c :: c in plan.tasks && IsCode(c) && c.key != k && LeadsTo(plan, k, c.key)
  {
    hide IsTaskGraph, IsCode, Reaches, LeadsTo;
    forall u ensures Reaches(edges, k, u) <==> LeadsTo(plan, k, u) { PlanReaches(plan, edges, k, u); }
    if c :| c in plan.tasks && IsCode(c) && c.key != k && LeadsTo(plan, k, c.key) {
      assert c.key in code;
    }
  }

  /** C5 and C12 of a plan, scored over the task graph it gives rise to. */
  method GraphCriteria(plan: Plan) returns (c5: bool, c12: bool)
    ensures c5 <==> !StoriesCircular(plan) && !Circular(plan)
    ensures c5 ==> exists order :: Schedule(plan, order)
    ensures c12 <==> ReleaseFollowsCode(plan)
  {
    hide *;
    var edges := TaskEdges(plan);
    c5 := CriterionC5(plan, edges);
    c12 := CriterionC12(plan, edges);
  }
}
