/**
 What the pool resolver answers (cmd/datawatch/capacity_wiring.go), told by the
 registries and the hosting entry: the pools, which nodes are choices and in what
 order, and which node is the answer when there are none.
 */
module PlacementLaws {
  import opened Basics
  import opened Placement

  // ---- The nodes in question ----

  /** The entry lists the node under a name, and the compute registry knows it. */
  ghost predicate IsKnown(l: Llm, nodes: Nodes, n: string) {
    n in l.computeNodes && n != "" && n in nodes
  }

  /** The models list pairs the node with the model, or names no model for it. */
  ghost predicate MayServe(l: Llm, n: string, model: string) {
    || (exists m :: m in l.models && m.node == n && Names(m, model))
    || (forall m :: m in l.models && m.node == n ==> m.model == "")
  }

  /** A known node that serves the model, or any known node when none serves it. */
  ghost predicate IsCandidateNode(l: Llm, nodes: Nodes, model: string, n: string) {
    IsKnown(l, nodes, n) && (MayServe(l, n, model) || forall m :: IsKnown(l, nodes, m) ==> !MayServe(l, m, model))
  }

  /** The priority the registry stores, or 50 where it stores none. */
  ghost predicate HasPriority(nodes: Nodes, n: PoolNode) {
    n.name in nodes && n.priority == if nodes[n.name] == 0 then 50 else nodes[n.name]
  }

  lemma CandidatesExact(l: Llm, nodes: Nodes, model: string, n: PoolNode)
    ensures var c := Candidates(l, nodes, model);
      (n in c <==> IsCandidateNode(l, nodes, model, n.name) && HasPriority(nodes, n)) && DistinctNodes(c)
  {
    assert forall m :: Serves(l, m, model) <==> MayServe(l, m, model);
    assert forall m :: Priority(nodes, m).Some? <==> m in nodes;
    assert Priority(nodes, n.name) == Some(n.priority) <==> HasPriority(nodes, n);
    hide Serves, MayServe, Priority;
    var known := KnownNodes(l.computeNodes, nodes);
    var serving := Serving(l, known, model);
    ServingDistinct(l, known, model);
    hide KnownNodes, Serving, DistinctNodes;
    forall m | IsKnown(l, nodes, m) && MayServe(l, m, model) ensures serving != [] {
      assert PoolNode(m, Priority(nodes, m).value) in serving;
    }
    HasFirst(serving);
  }

  // ---- Their order ----

  /** The first place of n in the list. */
  ghost predicate FirstAt(list: seq<string>, n: string, a: int) {
    0 <= a < |list| && list[a] == n && n !in list[..a]
  }

  ghost predicate InListOrder(list: seq<string>, ns: seq<PoolNode>) {
    forall i, j, a, b :: 0 <= i < j < |ns| && FirstAt(list, ns[i].name, a) && FirstAt(list, ns[j].name, b) ==> a < b
  }

  lemma FirstInFront(list: seq<string>, n: string, a: int)
    requires list != [] && FirstAt(list, n, a)
    ensures n in list[..|list| - 1] ==> FirstAt(list[..|list| - 1], n, a)
    ensures n !in list[..|list| - 1] ==> a == |list| - 1
  {
    var front := list[..|list| - 1];
    if a < |front| {
      assert front[a] == n && front[..a] == list[..a];
    } else {
      assert front == list[..a];
    }
  }

  lemma {:induction false} KnownInOrder(list: seq<string>, nodes: Nodes)
    ensures InListOrder(list, KnownNodes(list, nodes))
  {
    hide Priority;
    if list != [] {
      var front, name := list[..|list| - 1], list[|list| - 1];
      KnownInOrder(front, nodes);
      var ns, known := KnownNodes(list, nodes), KnownNodes(front, nodes);
      assert forall k :: 0 <= k < |known| ==> known[k] in known && known[k].name in front;
      forall i, j, a, b | 0 <= i < j < |ns| && FirstAt(list, ns[i].name, a) && FirstAt(list, ns[j].name, b)
        ensures a < b
      {
        FirstInFront(list, ns[i].name, a);
        FirstInFront(list, ns[j].name, b);
      }
    }
  }

  lemma {:induction false} ServingInOrder(l: Llm, list: seq<string>, ns: seq<PoolNode>, model: string)
    requires InListOrder(list, ns)
    ensures InListOrder(list, Serving(l, ns, model))
  {
    hide Serves, FirstAt;
    if ns != [] {
      var front, n := ns[..|ns| - 1], ns[|ns| - 1];
      ServingInOrder(l, list, front, model);
      var r := Serving(l, front, model);
      forall i, a, b | 0 <= i < |r| && FirstAt(list, r[i].name, a) && FirstAt(list, n.name, b) ensures a < b {
        assert r[i] in r && r[i] in front;
        var k :| 0 <= k < |front| && front[k] == r[i];
        assert ns[k] == r[i];
      }
    }
  }

  // ---- The resolver's answer ----

  /** The pools: the host's, that of the entry named backend if there is one, and the node's if one is the answer. */
  lemma PoolsExact(reg: Registry, nodes: Nodes, backend: string, model: string)
    requires DistinctNames(reg)
    ensures var r := Resolve(reg, nodes, backend, model);
      r.pools == ["host"]
        + (if exists l :: l in reg && l.name == backend then ["llm:" + backend] else [])
        + (if HostingEntry(reg, backend, model).Local? && r.choices == [] then ["node:" + r.node] else [])
  {
    var own := Get(reg, backend);
    forall l | l in reg && l.name == backend ensures own == Some(l) { GetFinds(reg, backend, l); }
    if own.Some? { GetFinds(reg, backend, own.value); }
    hide HostingEntry, Place, Get;
  }

  /**
   There are choices exactly if there are two candidate nodes. They are then all
   of the candidate nodes, each once, with its priority, in the order of the
   entry's list, and no node is the answer.
   */
  lemma ChoicesExact(reg: Registry, nodes: Nodes, backend: string, model: string, n: PoolNode)
    requires HostingEntry(reg, backend, model).Local?
    ensures var r, l := Resolve(reg, nodes, backend, model), HostingEntry(reg, backend, model).entry;
      && (r.choices != [] <==>
            exists a, b :: a != b && IsCandidateNode(l, nodes, model, a) && IsCandidateNode(l, nodes, model, b))
      && (r.choices != [] ==>
            && r.node == "" && DistinctNodes(r.choices) && InListOrder(l.computeNodes, r.choices)
            && (n in r.choices <==> IsCandidateNode(l, nodes, model, n.name) && HasPriority(nodes, n)))
  {
    var l := HostingEntry(reg, backend, model).entry;
    var c := Candidates(l, nodes, model);
    CandidatesInOrder(l, nodes, model);
    CandidatesExact(l, nodes, model, n);
    TwoCandidates(l, nodes, model);
    hide HostingEntry, Candidates, IsCandidateNode, HasPriority, InListOrder, BasePools, DistinctNodes;
    if |l.computeNodes| <= 1 {
      OneCandidate(l, nodes, model);
    }
  }

  lemma CandidatesInOrder(l: Llm, nodes: Nodes, model: string)
    ensures InListOrder(l.computeNodes, Candidates(l, nodes, model))
  {
    KnownInOrder(l.computeNodes, nodes);
    ServingInOrder(l, l.computeNodes, KnownNodes(l.computeNodes, nodes), model);
    hide KnownNodes, Serving, InListOrder;
  }

  lemma OneCandidate(l: Llm, nodes: Nodes, model: string)
    requires |l.computeNodes| <= 1
    ensures forall a, b :: IsCandidateNode(l, nodes, model, a) && IsCandidateNode(l, nodes, model, b) ==> a == b
  {
    hide MayServe;
  }

  lemma TwoCandidates(l: Llm, nodes: Nodes, model: string)
    ensures |Candidates(l, nodes, model)| >= 2 <==>
            exists a, b :: a != b && IsCandidateNode(l, nodes, model, a) && IsCandidateNode(l, nodes, model, b)
  {
    var c := Candidates(l, nodes, model);
    hide Candidates, IsCandidateNode;
    if |c| >= 2 {
      CandidatesExact(l, nodes, model, c[0]);
      CandidatesExact(l, nodes, model, c[1]);
      assert c[0] in c && c[1] in c && c[0].name != c[1].name;
    }
    if a, b :| a != b && IsCandidateNode(l, nodes, model, a) && IsCandidateNode(l, nodes, model, b) {
      var p := CandidateListed(l, nodes, model, a);
      var q := CandidateListed(l, nodes, model, b);
      assert p in c && q in c && p != q;
    }
  }

  lemma CandidateListed(l: Llm, nodes: Nodes, model: string, a: string) returns (p: PoolNode)
    requires IsCandidateNode(l, nodes, model, a)
    ensures p.name == a && p in Candidates(l, nodes, model)
  {
    p := PoolNode(a, if nodes[a] == 0 then 50 else nodes[a]);
    CandidatesExact(l, nodes, model, p);
  }

  /**
   Without choices the answer of a local session is one node: the entry's only
   one, whatever the compute registry says; of several, the only candidate, or
   the first when there is no candidate. Any other session has no node.
   */
  lemma NodeExact(reg: Registry, nodes: Nodes, backend: string, model: string, n: string)
    requires DistinctNames(reg)
    ensures var r, h := Resolve(reg, nodes, backend, model), HostingEntry(reg, backend, model);
      && (h.NotLocal? ==> r.node == "" && r.choices == [])
      && (h.Local? && |h.entry.computeNodes| == 1 ==> r.choices == [] && r.node == h.entry.computeNodes[0])
      && (h.Local? && |h.entry.computeNodes| > 1 && r.choices == [] ==>
            && (IsCandidateNode(h.entry, nodes, model, n) ==> r.node == n)
            && (IsCandidateNode(h.entry, nodes, model, r.node) || r.node == h.entry.computeNodes[0]))
  {
    HostingExact(reg, backend, model);
    var h := HostingEntry(reg, backend, model);
    hide HostingEntry, BasePools, IsCandidateNode, IsEngine, IsPiOwn, Candidates;
    if h.Local? && |h.entry.computeNodes| > 1 && Resolve(reg, nodes, backend, model).choices == [] {
      var c := Candidates(h.entry, nodes, model);
      assert |c| <= 1;
      if IsCandidateNode(h.entry, nodes, model, n) {
        var p := CandidateListed(h.entry, nodes, model, n);
      }
      if |c| == 1 {
        CandidatesExact(h.entry, nodes, model, c[0]);
        assert c[0] in c;
      }
    }
  }
}
