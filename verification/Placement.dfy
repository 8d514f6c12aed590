/**
 Where a session may run (cmd/datawatch/capacity_wiring.go, with the gate of
 internal/autonomous/local_engine.go and the node list of
 internal/inference/pool_nodes.go).

 An inference registry is its listing, entries with distinct names; a compute
 registry maps the nodes it knows to their stored priority. A nil registry of
 either kind answers every question as an empty one does, and is modelled so.
 */
module Placement {
  import opened Basics
  import opened Encoding

  datatype ModelRef = ModelRef(node: string, model: string)
  datatype Llm = Llm(name: string, kind: string, computeNodes: seq<string>, models: seq<ModelRef>)
  datatype PoolNode = PoolNode(name: string, priority: int)

  type Registry = seq<Llm>
  type Nodes = map<string, int>

  const DEFAULT_NODE_PRIORITY := 50
  const LOCAL_BACKENDS: set<string> := {"pi", "pi-prompt", "ollama", "opencode", "opencode-acp"}

  /** The registry keeps its entries in a map, so no two share a name. */
  ghost predicate DistinctNames(reg: Registry) {
    forall i, j :: 0 <= i < j < |reg| ==> reg[i].name != reg[j].name
  }

  /** The same entries, listed in any order. */
  ghost predicate SameEntries(reg: Registry, other: Registry) {
    forall l :: l in reg <==> l in other
  }

  // ---- Lookups ----

  function Get(reg: Registry, name: string): Option<Llm> {
    if reg == [] then None
    else if reg[0].name == name then Some(reg[0])
    else Get(reg[1..], name)
  }

  lemma {:induction false} GetFinds(reg: Registry, name: string, l: Llm)
    requires DistinctNames(reg)
    ensures Get(reg, name) == Some(l) <==> l in reg && l.name == name
  {
    if reg != [] {
      assert reg == [reg[0]] + reg[1..];
      if reg[0].name == name {
        assert forall i :: 0 < i < |reg| ==> reg[i].name != reg[0].name;
      } else {
        GetFinds(reg[1..], name, l);
      }
    }
  }

  /** A node's scheduling priority; a stored 0 stands for the default. */
  function Priority(nodes: Nodes, n: string): Option<int> {
    if n !in nodes then None
    else if nodes[n] == 0 then Some(DEFAULT_NODE_PRIORITY)
    else Some(nodes[n])
  }

  /** The text before and after the first slash, when there is one. */
  function Cut(s: string): Option<(string, string)> {
    if s == "" then None
    else if s[0] == '/' then Some(("", s[1..]))
    else match Cut(s[1..])
      case None => None
      case Some((before, after)) => Some(([s[0]] + before, after))
  }

  /** The cut is at the first slash: what comes before it holds none. */
  lemma {:induction false} CutExact(s: string, before: string, after: string)
    ensures Cut(s) == Some((before, after)) <==> '/' !in before && s == before + "/" + after
  {
    if s == "" {
    } else if s[0] == '/' {
      if before != "" && '/' !in before {
        assert (before + "/" + after)[0] == before[0];
      }
      if before == "" {
        assert "" + "/" + after == ['/'] + after && s == [s[0]] + s[1..];
      }
    } else if before == "" {
      assert (before + "/" + after)[0] == '/';
    } else {
      CutExact(s[1..], before[1..], after);
      assert before == [before[0]] + before[1..] && s == [s[0]] + s[1..];
      assert (before + "/" + after)[0] == before[0] && (before + "/" + after)[1..] == before[1..] + "/" + after;
    }
  }

  /** The name a node serves model under: without its provider prefix. */
  function NodeModelName(model: string): string {
    match Cut(model)
    case Some((_, name)) => if name != "" then name else model
    case None => model
  }

  predicate Names(m: ModelRef, model: string) {
    m.model != "" && (m.model == NodeModelName(model) || m.model == model)
  }

  /** A reference names the model exactly if it is the model itself or what follows its provider prefix. */
  lemma NamesExact(m: ModelRef, model: string)
    ensures Names(m, model) <==>
            && m.model != ""
            && (m.model == model || exists provider :: '/' !in provider && model == provider + "/" + m.model)
  {
    var cut := Cut(model);
    if cut.Some? {
      CutExact(model, cut.value.0, cut.value.1);
    }
    forall provider | '/' !in provider && model == provider + "/" + m.model ensures cut == Some((provider, m.model)) {
      CutExact(model, provider, m.model);
    }
  }

  predicate ListsModel(l: Llm, model: string) {
    exists m :: m in l.models && Names(m, model)
  }

  /** The models list pairs node with model, or says nothing about node. */
  predicate Serves(l: Llm, node: string, model: string) {
    || (exists m :: m in l.models && m.node == node && Names(m, model))
    || (forall m :: m in l.models && m.node == node ==> m.model == "")
  }

  method NodeServes(l: Llm, node: string, model: string) returns (serves: bool)
    ensures serves <==> Serves(l, node, model)
  {
    var name := NodeModelName(model);
    var listed := false;
    for i := 0 to |l.models|
      invariant listed <==> exists j :: 0 <= j < i && l.models[j].node == node && l.models[j].model != ""
      invariant forall j :: 0 <= j < i && l.models[j].node == node ==> !Names(l.models[j], model)
    {
      var m := l.models[i];
      if m.node != node || m.model == "" {
        continue;
      }
      listed := true;
      if m.model == name || m.model == model {
        return true;
      }
    }
    return !listed;
  }

  // ---- The hosting entry ----

  predicate Candidate(l: Llm, kind: string) {
    l.kind == kind && l.computeNodes != []
  }

  /** An entry that lists the model comes before one that does not; equals go by name. */
  predicate Beats(a: Llm, b: Llm, model: string) {
    || (ListsModel(a, model) && !ListsModel(b, model))
    || (ListsModel(a, model) == ListsModel(b, model) && Less(a.name, b.name))
  }

  function Best(reg: Registry, kind: string, model: string): Option<Llm> {
    if reg == [] then None
    else
      var best, l := Best(reg[..|reg| - 1], kind, model), reg[|reg| - 1];
      if Candidate(l, kind) && (best.None? || Beats(l, best.value, model)) then Some(l) else best
  }

  /** What the chosen entry is, whatever the listing order: it beats every other candidate. */
  ghost predicate IsHost(reg: Registry, kind: string, model: string, host: Option<Llm>) {
    match host
    case None => forall l :: l in reg ==> !Candidate(l, kind)
    case Some(h) =>
      && h in reg && Candidate(h, kind)
      && forall l :: l in reg && Candidate(l, kind) && l != h ==> Beats(h, l, model)
  }

  lemma BeatsTransitive(a: Llm, b: Llm, c: Llm, model: string)
    requires Beats(a, b, model) && Beats(b, c, model)
    ensures Beats(a, c, model)
  {
    if ListsModel(a, model) == ListsModel(c, model) {
      LessTransitive(a.name, b.name, c.name);
    }
  }

  lemma {:induction false} BestIsHost(reg: Registry, kind: string, model: string)
    requires DistinctNames(reg)
    ensures IsHost(reg, kind, model, Best(reg, kind, model))
  {
    if reg != [] {
      var front, l := reg[..|reg| - 1], reg[|reg| - 1];
      assert reg == front + [l];
      BestIsHost(front, kind, model);
      var best := Best(front, kind, model);
      if best.Some? && Candidate(l, kind) {
        LessTrichotomy(l.name, best.value.name);
        forall other | other in front && Candidate(other, kind) && other != best.value && Beats(l, best.value, model)
          ensures Beats(l, other, model)
        {
          BeatsTransitive(l, best.value, other, model);
        }
      }
    }
  }

  /**
   In the registry's terms: the host is an entry of the kind with compute nodes;
   it lists the model if any such entry does, and has the smallest name of those
   that are like it in this. There is none only if no entry qualifies.
   */
  lemma HostPreference(reg: Registry, kind: string, model: string, l: Llm)
    requires DistinctNames(reg) && l in reg && l.kind == kind && l.computeNodes != []
    ensures Best(reg, kind, model).Some?
    ensures var h := Best(reg, kind, model).value;
      && h in reg && h.kind == kind && h.computeNodes != []
      && ((exists m :: m in l.models && Names(m, model)) ==> exists m :: m in h.models && Names(m, model))
      && (((exists m :: m in l.models && Names(m, model)) <==> (exists m :: m in h.models && Names(m, model))) ==>
            h == l || Less(h.name, l.name))
  {
    BestIsHost(reg, kind, model);
    hide Names, Less, Best;
    assert ListsModel(l, model) <==> exists m :: m in l.models && Names(m, model);
  }

  /** The host depends on which entries are listed, not on their order. */
  lemma HostUnique(reg: Registry, other: Registry, kind: string, model: string, a: Option<Llm>, b: Option<Llm>)
    requires SameEntries(reg, other) && IsHost(reg, kind, model, a) && IsHost(other, kind, model, b)
    ensures a == b
  {
    if a.Some? && b.Some? && a != b {
      LessTrichotomy(a.value.name, b.value.name);
    }
  }

  /** The hosting-entry loop: no other candidate beats the entry it returns. */
  method EngineEntry(reg: Registry, kind: string, model: string) returns (best: Option<Llm>)
    requires DistinctNames(reg)
    ensures best == Best(reg, kind, model) && IsHost(reg, kind, model, best)
  {
    best := None;
    var bestListed := false;
    for i := 0 to |reg|
      invariant best == Best(reg[..i], kind, model)
      invariant best.Some? ==> bestListed == ListsModel(best.value, model)
    {
      var l := reg[i];
      assert reg[..i + 1][..i] == reg[..i];
      if l.kind != kind || l.computeNodes == [] {
        continue;
      }
      var listed := ListsModel(l, model);
      if best.None? || (listed && !bestListed) || (listed == bestListed && Less(l.name, best.value.name)) {
        best, bestListed := Some(l), listed;
      }
    }
    assert reg[..|reg|] == reg;
    BestIsHost(reg, kind, model);
  }

  /** A pi backend's own entry, when it lists compute nodes. */
  function PiOwnEntry(reg: Registry, backend: string): Option<Llm> {
    if backend != "pi" && backend != "pi-prompt" then None
    else match Get(reg, backend)
      case Some(l) => if l.computeNodes == [] then None else Some(l)
      case None => None
  }

  datatype Hosting = NotLocal | Local(entry: Llm, node: string)

  /** The entry and first node of a local-engine session, or NotLocal for any other. */
  function HostingEntry(reg: Registry, backend: string, model: string): Hosting {
    if backend !in LOCAL_BACKENDS then NotLocal
    else match Cut(model)
      case None => NotLocal
      case Some((provider, _)) =>
        if provider == "" then NotLocal
        else match Best(reg, provider, model)
          case None => NotLocal
          case Some(engine) =>
            if engine.computeNodes == [] || engine.computeNodes[0] == "" then NotLocal
            else match PiOwnEntry(reg, backend)
              case Some(own) => Local(own, own.computeNodes[0])
              case None => Local(engine, engine.computeNodes[0])
  }

  // ---- The candidate nodes ----

  /** The known nodes of a list, in list order, each named once. */
  function KnownNodes(list: seq<string>, nodes: Nodes): (r: seq<PoolNode>)
    ensures forall n :: n in r <==> n.name in list && n.name != "" && Priority(nodes, n.name) == Some(n.priority)
    ensures DistinctNodes(r)
  {
    if list == [] then []
    else
      var front, name := KnownNodes(list[..|list| - 1], nodes), list[|list| - 1];
      assert list == list[..|list| - 1] + [name];
      if name == "" || name in list[..|list| - 1] || Priority(nodes, name).None? then front
      else front + [PoolNode(name, Priority(nodes, name).value)]
  }

  lemma KnownAppend(list: seq<string>, name: string, nodes: Nodes)
    ensures KnownNodes(list + [name], nodes) == KnownNodes(list, nodes) +
            if name == "" || name in list || Priority(nodes, name).None? then []
            else [PoolNode(name, Priority(nodes, name).value)]
  {
    hide Priority;
    assert (list + [name])[..|list|] == list;
  }

  method OrderedPoolNodes(l: Llm, nodes: Nodes) returns (out: seq<PoolNode>)
    ensures out == KnownNodes(l.computeNodes, nodes)
  {
    out := [];
    var seen: set<string> := {};
    assert KnownNodes(l.computeNodes[..0], nodes) == [];
    hide KnownNodes, Priority;
    for i := 0 to |l.computeNodes|
      invariant out == KnownNodes(l.computeNodes[..i], nodes)
      invariant forall n :: n in seen <==> n in l.computeNodes[..i] && n != ""
    {
      var name := l.computeNodes[i];
      assert l.computeNodes[..i + 1] == l.computeNodes[..i] + [name];
      KnownAppend(l.computeNodes[..i], name, nodes);
      if name == "" || name in seen {
        continue;
      }
      seen := seen + {name};
      var p := Priority(nodes, name);
      if p.None? {
        continue;
      }
      out := out + [PoolNode(name, p.value)];
    }
    assert l.computeNodes[..|l.computeNodes|] == l.computeNodes;
  }

  /** The nodes that serve model, in order. */
  function Serving(l: Llm, ns: seq<PoolNode>, model: string): (r: seq<PoolNode>)
    ensures forall n :: n in r <==> n in ns && Serves(l, n.name, model)
  {
    if ns == [] then []
    else
      var front, n := Serving(l, ns[..|ns| - 1], model), ns[|ns| - 1];
      assert ns == ns[..|ns| - 1] + [n];
      if Serves(l, n.name, model) then front + [n] else front
  }

  ghost predicate DistinctNodes(ns: seq<PoolNode>) {
    forall i, j :: 0 <= i < j < |ns| ==> ns[i].name != ns[j].name
  }

  lemma {:induction false} ServingDistinct(l: Llm, ns: seq<PoolNode>, model: string)
    requires DistinctNodes(ns)
    ensures DistinctNodes(Serving(l, ns, model))
  {
    hide Serves;
    if ns != [] {
      var front, n := ns[..|ns| - 1], ns[|ns| - 1];
      ServingDistinct(l, front, model);
      var r := Serving(l, front, model);
      forall i | 0 <= i < |r| ensures r[i].name != n.name {
        assert r[i] in r && r[i] in front;
      }
    }
  }

  /** The known nodes that serve model, or all known nodes when none does. */
  function Candidates(l: Llm, nodes: Nodes, model: string): seq<PoolNode> {
    var known := KnownNodes(l.computeNodes, nodes);
    var serving := Serving(l, known, model);
    if serving != [] then serving else known
  }

  datatype Resolution = Resolution(pools: seq<string>, node: string, choices: seq<PoolNode>)

  function BasePools(reg: Registry, backend: string): seq<string> {
    match Get(reg, backend)
    case Some(l) => ["host", "llm:" + l.name]
    case None => ["host"]
  }

  /** Where a hosted session goes: one node, or two or more candidates to choose from. */
  function Place(l: Llm, first: string, nodes: Nodes, model: string): (string, seq<PoolNode>) {
    if |l.computeNodes| <= 1 then (first, [])
    else
      var c := Candidates(l, nodes, model);
      if |c| >= 2 then ("", c) else if |c| == 1 then (c[0].name, []) else (first, [])
  }

  function Resolve(reg: Registry, nodes: Nodes, backend: string, model: string): Resolution {
    match HostingEntry(reg, backend, model)
    case NotLocal => Resolution(BasePools(reg, backend), "", [])
    case Local(entry, first) =>
      var (node, choices) := Place(entry, first, nodes, model);
      if choices != [] then Resolution(BasePools(reg, backend), "", choices)
      else Resolution(BasePools(reg, backend) + ["node:" + node], node, [])
  }

  /** The hosting entry of a session: the gate first, then a pi backend's own node list. */
  method FindHosting(reg: Registry, backend: string, model: string) returns (h: Hosting)
    requires DistinctNames(reg)
    ensures h == HostingEntry(reg, backend, model)
  {
    if backend !in LOCAL_BACKENDS {
      return NotLocal;
    }
    var cut := Cut(model);
    if cut.None? || cut.value.0 == "" {
      return NotLocal;
    }
    var engine := EngineEntry(reg, cut.value.0, model);
    if engine.None? || engine.value.computeNodes[0] == "" {
      return NotLocal;
    }
    var own := PiOwnEntry(reg, backend);
    var entry := if own.Some? then own.value else engine.value;
    return Local(entry, entry.computeNodes[0]);
  }

  /** The engine entry behind a model: the best entry of its provider, if its first node has a name. */
  ghost predicate IsEngine(reg: Registry, model: string, e: Llm) {
    exists provider, name ::
      && model == provider + "/" + name && '/' !in provider && provider != ""
      && IsHost(reg, provider, model, Some(e)) && e.computeNodes[0] != ""
  }

  /** l is a pi backend's own entry and lists compute nodes. */
  ghost predicate IsPiOwn(reg: Registry, backend: string, l: Llm) {
    (backend == "pi" || backend == "pi-prompt") && l in reg && l.name == backend && l.computeNodes != []
  }

  /**
   A session is local exactly when its backend is one of the local ones and its
   model has an engine entry; it is then hosted by the pi backend's own entry
   if that lists nodes, and by the engine entry otherwise, on the first node.
   */
  lemma HostingExact(reg: Registry, backend: string, model: string)
    requires DistinctNames(reg)
    ensures var h := HostingEntry(reg, backend, model);
      && (h.Local? <==>
            && (backend == "pi" || backend == "pi-prompt" || backend == "ollama" || backend == "opencode"
                || backend == "opencode-acp")
            && exists e :: IsEngine(reg, model, e))
      && (h.Local? ==> h.entry.computeNodes != [] && h.node == h.entry.computeNodes[0])
      && (h.Local? ==> forall l :: IsPiOwn(reg, backend, l) ==> h.entry == l)
      && (h.Local? && (forall l :: !IsPiOwn(reg, backend, l)) ==> IsEngine(reg, model, h.entry))
  {
    PiOwnExact(reg, backend);
    EngineExact(reg, model);
    hide Best, Get, IsHost, IsEngine, IsPiOwn, PiOwnEntry;
  }

  /** Best finds the engine entry of a model, and no other entry is one. */
  lemma EngineExact(reg: Registry, model: string)
    requires DistinctNames(reg)
    ensures forall e :: IsEngine(reg, model, e) <==>
              && Cut(model).Some? && Cut(model).value.0 != ""
              && Best(reg, Cut(model).value.0, model) == Some(e) && e.computeNodes != [] && e.computeNodes[0] != ""
  {
    var cut := Cut(model);
    if cut.Some? {
      var provider := cut.value.0;
      CutExact(model, provider, cut.value.1);
      BestIsHost(reg, provider, model);
      forall e ensures IsHost(reg, provider, model, Some(e)) <==> Best(reg, provider, model) == Some(e) {
        if IsHost(reg, provider, model, Some(e)) {
          HostUnique(reg, reg, provider, model, Some(e), Best(reg, provider, model));
        }
      }
    }
    forall provider, name | model == provider + "/" + name && '/' !in provider ensures cut == Some((provider, name)) {
      CutExact(model, provider, name);
    }
  }

  lemma PiOwnExact(reg: Registry, backend: string)
    requires DistinctNames(reg)
    ensures forall l :: IsPiOwn(reg, backend, l) <==> PiOwnEntry(reg, backend) == Some(l)
  {
    forall l ensures IsPiOwn(reg, backend, l) <==> PiOwnEntry(reg, backend) == Some(l) {
      GetFinds(reg, backend, l);
    }
  }

  lemma ServingNone(l: Llm, model: string)
    ensures Serving(l, [], model) == []
  {
  }

  lemma ServingAppend(l: Llm, ns: seq<PoolNode>, n: PoolNode, model: string)
    ensures Serving(l, ns + [n], model) ==
            if Serves(l, n.name, model) then Serving(l, ns, model) + [n] else Serving(l, ns, model)
  {
    hide Serves;
    assert (ns + [n])[..|ns|] == ns;
  }

  method ServingNodes(l: Llm, ordered: seq<PoolNode>, model: string) returns (serving: seq<PoolNode>)
    ensures serving == Serving(l, ordered, model)
  {
    serving := [];
    ServingNone(l, model);
    hide Serving, Serves;
    for i := 0 to |ordered|
      invariant serving == Serving(l, ordered[..i], model)
    {
      assert ordered[..i + 1] == ordered[..i] + [ordered[i]];
      ServingAppend(l, ordered[..i], ordered[i], model);
      var ok := NodeServes(l, ordered[i].name, model);
      if ok {
        serving := serving + [ordered[i]];
      }
    }
    assert ordered[..|ordered|] == ordered;
  }

  method CapacityResolver(reg: Registry, nodes: Nodes, backend: string, model: string) returns (r: Resolution)
    requires DistinctNames(reg)
    ensures r == Resolve(reg, nodes, backend, model)
  {
    hide HostingEntry, Get, Serving, KnownNodes;
    var pools := ["host"];
    var own := Get(reg, backend);
    if own.Some? {
      pools := pools + ["llm:" + own.value.name];
    }
    assert pools == BasePools(reg, backend);
    var hosting := FindHosting(reg, backend, model);
    if hosting.NotLocal? {
      return Resolution(pools, "", []);
    }
    var entry, node := hosting.entry, hosting.node;
    if |entry.computeNodes| > 1 {
      var ordered := OrderedPoolNodes(entry, nodes);
      var serving := ServingNodes(entry, ordered, model);
      if |serving| > 0 {
        ordered := serving;
      }
      if |ordered| >= 2 {
        return Resolution(pools, "", ordered);
      }
      if |ordered| == 1 {
        node := ordered[0].name;
      }
    }
    return Resolution(pools + ["node:" + node], node, []);
  }

  // ---- What the resolver guarantees ----

  /** The whole answer is the same for every listing order of the same entries. */
  lemma ListingOrderIrrelevant(reg: Registry, other: Registry, nodes: Nodes, backend: string, model: string)
    requires DistinctNames(reg) && DistinctNames(other) && SameEntries(reg, other)
    ensures Resolve(reg, nodes, backend, model) == Resolve(other, nodes, backend, model)
  {
    assert Get(reg, backend) == Get(other, backend) by {
      SameGet(reg, other, backend);
    }
    if Cut(model).Some? {
      var provider := Cut(model).value.0;
      BestIsHost(reg, provider, model);
      BestIsHost(other, provider, model);
      HostUnique(reg, other, provider, model, Best(reg, provider, model), Best(other, provider, model));
    }
  }

  lemma SameGet(reg: Registry, other: Registry, name: string)
    requires DistinctNames(reg) && DistinctNames(other) && SameEntries(reg, other)
    ensures Get(reg, name) == Get(other, name)
  {
    var a, b := Get(reg, name), Get(other, name);
    if a.Some? {
      GetFinds(reg, name, a.value);
      GetFinds(other, name, a.value);
    } else if b.Some? {
      GetFinds(other, name, b.value);
      GetFinds(reg, name, b.value);
    }
  }

  predicate IsNodePool(p: string) {
    "node:" <= p
  }

  /**
   Two or more candidates leave the node to the ledger and take no node pool; a
   local session without candidates takes exactly the pool of its node; any
   other session takes neither.
   */
  lemma ResolutionShape(reg: Registry, nodes: Nodes, backend: string, model: string)
    ensures var r, h := Resolve(reg, nodes, backend, model), HostingEntry(reg, backend, model);
      && |r.choices| != 1
      && (r.choices != [] ==> h.Local? && r.node == "" && forall p :: p in r.pools ==> !IsNodePool(p))
      && (h.Local? && r.choices == [] ==>
            exists front :: r.pools == front + ["node:" + r.node] && forall p :: p in front ==> !IsNodePool(p))
      && (h.NotLocal? ==> r.node == "" && r.choices == [] && forall p :: p in r.pools ==> !IsNodePool(p))
  {
    var base := BasePools(reg, backend);
    assert forall p :: p in base ==> !IsNodePool(p) by {
      assert forall s: string :: ("llm:" + s)[0] == 'l';
      assert "host"[0] == 'h' && "node:"[0] == 'n';
    }
    var r := Resolve(reg, nodes, backend, model);
    if HostingEntry(reg, backend, model).Local? && r.choices == [] {
      assert r.pools == base + ["node:" + r.node];
    }
  }
}
