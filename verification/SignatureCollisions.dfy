/**
 Why the placement signature needs its delimiters (cmd/datawatch/capacity_wiring.go).
 Names and kinds of entries are validated when an entry is added or updated, but
 not when the stored entries are loaded; names of compute nodes inside an entry
 and names of models never are. For each clause of the delimiter condition, two
 registries with one signature and different placements.
 */
module SignatureCollisions {
  import opened Basics
  import opened Encoding
  import opened Placement
  import opened PlacementSignature

  const KIND := "ollama"
  const MODEL := "ollama/y"

  /** One signature, and a session that goes to different places. */
  ghost predicate Collide(reg: Registry, other: Registry, nodes: Nodes) {
    && DistinctNames(reg) && DistinctNames(other)
    && Signature(reg, nodes) == Signature(other, nodes)
    && !SamePlacement(Resolve(reg, nodes, KIND, MODEL), Resolve(other, nodes, KIND, MODEL))
  }

  // ---- Where the sessions of the examples go ----

  lemma ModelName()
    ensures Cut(MODEL) == Some((KIND, "y")) && NodeModelName(MODEL) == "y" && KIND in LOCAL_BACKENDS
  {
    assert MODEL == KIND + "/" + "y";
    CutExact(MODEL, KIND, "y");
  }

  lemma HostOf(reg: Registry, l: Llm)
    requires DistinctNames(reg) && IsHost(reg, KIND, MODEL, Some(l)) && l.computeNodes[0] != ""
    ensures HostingEntry(reg, KIND, MODEL) == Local(l, l.computeNodes[0])
  {
    ModelName();
    BestIsHost(reg, KIND, MODEL);
    HostUnique(reg, reg, KIND, MODEL, Some(l), Best(reg, KIND, MODEL));
    assert PiOwnEntry(reg, KIND) == None;
    hide Best, IsHost, Cut, PiOwnEntry;
  }

  lemma OnlyHost(l: Llm)
    requires l.kind == KIND && l.computeNodes != [] && l.computeNodes[0] != ""
    ensures DistinctNames([l]) && HostingEntry([l], KIND, MODEL) == Local(l, l.computeNodes[0])
  {
    HostOf([l], l);
  }

  /** Nodes that the compute registry does not know leave the first one. */
  lemma FirstNode(reg: Registry, l: Llm)
    requires l.computeNodes != [] && HostingEntry(reg, KIND, MODEL) == Local(l, l.computeNodes[0])
    ensures Resolve(reg, map[], KIND, MODEL).node == l.computeNodes[0]
  {
    hide HostingEntry, BasePools, KnownNodes, Serving;
    var known := KnownNodes(l.computeNodes, map[]);
    HasFirst(known);
    ServingNone(l, MODEL);
  }

  /** Without an entry of the kind a session is not local. */
  lemma NoHost(reg: Registry)
    requires DistinctNames(reg) && forall l :: l in reg ==> l.kind != KIND
    ensures Resolve(reg, map[], KIND, MODEL).node == ""
  {
    ModelName();
    BestIsHost(reg, KIND, MODEL);
    hide Best, Cut;
  }

  const KNOWN: Nodes := map["a" := 1, "b" := 1]

  /** With nodes a and b known and b serving, both are choices when a serves too, and otherwise there are none. */
  lemma ChoicesOf(l: Llm, nodes: Nodes, p: int, q: int)
    requires l.kind == KIND && l.computeNodes == ["a", "b"] && Serves(l, "b", MODEL)
    requires Priority(nodes, "a") == Some(p) && Priority(nodes, "b") == Some(q)
    ensures Resolve([l], nodes, KIND, MODEL).choices ==
            if Serves(l, "a", MODEL) then [PoolNode("a", p), PoolNode("b", q)] else []
  {
    OnlyHost(l);
    KnownPair(nodes, p, q);
    hide HostingEntry, BasePools, KnownNodes, Serves, Priority;
    ServingPair(l, p, q);
  }

  lemma ServingPair(l: Llm, p: int, q: int)
    requires Serves(l, "b", MODEL)
    ensures Serving(l, [PoolNode("a", p), PoolNode("b", q)], MODEL) ==
            if Serves(l, "a", MODEL) then [PoolNode("a", p), PoolNode("b", q)] else [PoolNode("b", q)]
  {
    hide Serves;
    ServingNone(l, MODEL);
    ServingAppend(l, [], PoolNode("a", p), MODEL);
    ServingAppend(l, [PoolNode("a", p)], PoolNode("b", q), MODEL);
    assert [] + [PoolNode("a", p)] == [PoolNode("a", p)];
    assert [PoolNode("a", p)] + [PoolNode("b", q)] == [PoolNode("a", p), PoolNode("b", q)];
  }

  lemma KnownPair(nodes: Nodes, p: int, q: int)
    requires Priority(nodes, "a") == Some(p) && Priority(nodes, "b") == Some(q)
    ensures KnownNodes(["a", "b"], nodes) == [PoolNode("a", p), PoolNode("b", q)]
  {
    hide Priority;
    var list := ["a", "b"];
    assert list[..1] == ["a"] && list[..1][..0] == [];
    assert "b" !in list[..1];
    assert KnownNodes([], nodes) == [];
    assert KnownNodes(list[..1], nodes) == [] + [PoolNode("a", p)] == [PoolNode("a", p)];
  }

  // ---- Texts ----

  lemma SignatureOfOne(l: Llm, nodes: Nodes)
    requires l.computeNodes != []
    ensures Signature([l], nodes) == EntryText(nodes, l, "")
  {
    assert [l][1..] == [];
  }

  lemma SignatureOfTwo(l: Llm, k: Llm, nodes: Nodes)
    requires l.computeNodes != [] && k.computeNodes != []
    ensures Signature([l, k], nodes) == EntryText(nodes, l, EntryText(nodes, k, ""))
  {
    assert [l, k][1..] == [k];
    SignatureOfOne(k, nodes);
  }

  lemma OneModel(m: ModelRef, rest: string)
    ensures ModelsText([m], rest) == m.node + ['='] + (m.model + [','] + rest)
  {
    assert [m][1..] == [];
  }

  lemma TwoModels(m: ModelRef, k: ModelRef, rest: string)
    ensures ModelsText([m, k], rest) == m.node + ['='] + (m.model + [','] + (k.node + ['='] + (k.model + [','] + rest)))
  {
    assert [m, k][1..] == [k];
    OneModel(k, rest);
  }

  /** Two entries that differ in their models only, serve node a differently and write the same text. */
  lemma ModelsCollide(ms: seq<ModelRef>, ns: seq<ModelRef>)
    requires forall rest :: ModelsText(ms, rest) == ModelsText(ns, rest)
    requires var l, k := Llm("e", KIND, ["a", "b"], ms), Llm("e", KIND, ["a", "b"], ns);
      Serves(l, "b", MODEL) && Serves(k, "b", MODEL) && Serves(l, "a", MODEL) && !Serves(k, "a", MODEL)
    ensures Collide([Llm("e", KIND, ["a", "b"], ms)], [Llm("e", KIND, ["a", "b"], ns)], KNOWN)
  {
    var l, k := Llm("e", KIND, ["a", "b"], ms), Llm("e", KIND, ["a", "b"], ns);
    hide Serves, Resolve, NodesText, ModelsText;
    SignatureOfOne(l, KNOWN);
    SignatureOfOne(k, KNOWN);
    ChoicesOf(l, KNOWN, 1, 1);
    ChoicesOf(k, KNOWN, 1, 1);
  }

  // ---- A comma or an equals sign in a models list ----

  lemma CommaText(n: string, x: string, y: string, rest: string)
    ensures ModelsText([ModelRef(n, x), ModelRef(n, y)], rest) == ModelsText([ModelRef(n, x + "," + n + "=" + y)], rest)
  {
    TwoModels(ModelRef(n, x), ModelRef(n, y), rest);
    OneModel(ModelRef(n, x + "," + n + "=" + y), rest);
  }

  lemma EqualsText(n: string, x: string, y: string, rest: string)
    ensures ModelsText([ModelRef(n + "=" + x, y)], rest) == ModelsText([ModelRef(n, x + "=" + y)], rest)
  {
    OneModel(ModelRef(n + "=" + x, y), rest);
    OneModel(ModelRef(n, x + "=" + y), rest);
  }

  /** Whether a models list that names one node only leaves that node out. */
  lemma ServesByNode(ms: seq<ModelRef>, n: string)
    requires forall m :: m in ms ==> m.node == n && m.model != ""
    ensures var l := Llm("e", KIND, ["a", "b"], ms);
      forall node :: Serves(l, node, MODEL) <==> node != n || ms == [] || exists m :: m in ms && m.model in {"y", MODEL}
  {
    ModelName();
    HasFirst(ms);
  }

  lemma CommaInModelName()
    ensures Collide([Llm("e", KIND, ["a", "b"], [ModelRef("a", "x"), ModelRef("a", "y")])],
                    [Llm("e", KIND, ["a", "b"], [ModelRef("a", "x" + "," + "a" + "=" + "y")])], KNOWN)
  {
    var two, one := [ModelRef("a", "x"), ModelRef("a", "y")], [ModelRef("a", "x" + "," + "a" + "=" + "y")];
    ServesByNode(two, "a");
    ServesByNode(one, "a");
    assert two[1] in two && one[0].model[0] == 'x';
    hide *;
    forall rest ensures ModelsText(two, rest) == ModelsText(one, rest) {
      CommaText("a", "x", "y", rest);
    }
    ModelsCollide(two, one);
  }

  lemma EqualsInModelNode()
    ensures Collide([Llm("e", KIND, ["a", "b"], [ModelRef("a" + "=" + "x", "z")])],
                    [Llm("e", KIND, ["a", "b"], [ModelRef("a", "x" + "=" + "z")])], KNOWN)
  {
    var free, bound := [ModelRef("a" + "=" + "x", "z")], [ModelRef("a", "x" + "=" + "z")];
    ServesByNode(free, "a" + "=" + "x");
    ServesByNode(bound, "a");
    assert bound[0].model[0] == 'x' && |free[0].node| == 3;
    hide *;
    forall rest ensures ModelsText(free, rest) == ModelsText(bound, rest) {
      EqualsText("a", "x", "z", rest);
    }
    ModelsCollide(free, bound);
  }

  // ---- A slash in a node's name ----

  lemma UnknownNode(n: string, ns: seq<string>, rest: string)
    ensures NodesText(map[], [n] + ns, rest) == n + ['/'] + ("0/false," + NodesText(map[], ns, rest))
  {
    assert ([n] + ns)[1..] == ns;
    assert Priority(map[], n) == None && PriorityText(map[], n) == "0";
  }

  lemma SlashText(n: string, k: string, rest: string)
    ensures NodesText(map[], [n, k], rest) == NodesText(map[], [n + "/0/false," + k], rest)
  {
    assert [n, k] == [n] + [k] && [k] == [k] + [];
    UnknownNode(n, [k], rest);
    UnknownNode(k, [], rest);
    assert [n + "/0/false," + k] == [n + "/0/false," + k] + [];
    UnknownNode(n + "/0/false," + k, [], rest);
  }

  lemma SlashInNodeName()
    ensures Collide([Llm("e", KIND, ["a", "b"], [])], [Llm("e", KIND, ["a" + "/0/false," + "b"], [])], map[])
  {
    var l, k := Llm("e", KIND, ["a", "b"], []), Llm("e", KIND, ["a" + "/0/false," + "b"], []);
    assert |k.computeNodes[0]| > 1;
    SignatureOfOne(l, map[]);
    SignatureOfOne(k, map[]);
    hide Resolve, NodesText, ModelsText, Signature;
    SlashText("a", "b", ['|'] + ModelsText([], [';'] + ""));
    OnlyHost(l);
    OnlyHost(k);
    FirstNode([l], l);
    FirstNode([k], k);
  }

  // ---- A name that starts with the end of its list ----

  /** An entry's text up to its only model's name. */
  function Head(l: Llm, node: string): string {
    l.name + ['/'] + (l.kind + [':'] + NodesText(map[], l.computeNodes, ['|'] + node))
  }

  lemma {:induction false} NodesTextRest(ns: seq<string>, r: string, q: string)
    ensures NodesText(map[], ns, r + q) == NodesText(map[], ns, r) + q
  {
    if ns != [] {
      NodesTextRest(ns[1..], r, q);
    }
  }

  lemma TextByHead(l: Llm, m: ModelRef)
    requires l.models == [m]
    ensures EntryText(map[], l, "") == Head(l, m.node) + (['='] + (m.model + [','] + [';']))
  {
    OneModel(m, [';'] + "");
    NodesTextRest(l.computeNodes, ['|'] + m.node, ['='] + (m.model + [','] + [';']));
    assert ['|'] + (m.node + ['='] + (m.model + [','] + ([';'] + ""))) ==
        (['|'] + m.node) + (['='] + (m.model + [','] + [';']));
  }

  const LISTING := Llm("f", KIND, ["c"], [ModelRef("d", "y")])

  /** Next to an entry that lists no model, the one that lists it hosts the session. */
  lemma ListingHosts(nodes: seq<string>)
    requires nodes != []
    ensures DistinctNames([Llm("e", KIND, nodes, []), LISTING])
    ensures Resolve([Llm("e", KIND, nodes, []), LISTING], map[], KIND, MODEL).node == "c"
  {
    hide IsHost, ListsModel, HostingEntry, Resolve;
    var e := Llm("e", KIND, nodes, []);
    ListsOrNot(e);
    ListerHosts(e);
    HostOf([e, LISTING], LISTING);
    FirstNode([e, LISTING], LISTING);
  }

  lemma ListsOrNot(e: Llm)
    requires e.models == []
    ensures ListsModel(LISTING, MODEL) && !ListsModel(e, MODEL)
  {
    ModelName();
    assert LISTING.models[0] in LISTING.models && Names(LISTING.models[0], MODEL);
  }

  lemma ListerHosts(e: Llm)
    requires Candidate(e, KIND) && ListsModel(LISTING, MODEL) && !ListsModel(e, MODEL)
    ensures IsHost([e, LISTING], KIND, MODEL, Some(LISTING))
  {
    hide ListsModel, Less;
    var reg := [e, LISTING];
    assert reg[1] in reg && forall l :: l in reg ==> l == e || l == LISTING;
  }

  lemma SemicolonAtModelNode()
    ensures Collide([Llm("e", KIND, ["a"], [ModelRef([';'] + Head(LISTING, "d"), "y")])],
                    [Llm("e", KIND, ["a"], []), LISTING], map[])
  {
    var m := ModelRef([';'] + Head(LISTING, "d"), "y");
    var joined, e := Llm("e", KIND, ["a"], [m]), Llm("e", KIND, ["a"], []);
    SignatureOfOne(joined, map[]);
    SignatureOfTwo(e, LISTING, map[]);
    TextByHead(LISTING, ModelRef("d", "y"));
    OneModel(m, [';'] + "");
    hide Resolve, NodesText, Signature, Head;
    assert ModelsText([], [';'] + EntryText(map[], LISTING, "")) == [';'] + EntryText(map[], LISTING, "");
    assert [';'] + (Head(LISTING, "d") + (['='] + ("y" + [','] + [';']))) ==
           ([';'] + Head(LISTING, "d")) + ['='] + ("y" + [','] + ([';'] + ""));
    OnlyHost(joined);
    FirstNode([joined], joined);
    ListingHosts(["a"]);
  }

  lemma BarAtNodeName()
    ensures Collide([Llm("e", KIND, ["a"], [ModelRef("n", "m/0/false"), ModelRef("|;" + Head(LISTING, "d"), "y")])],
                    [Llm("e", KIND, ["a", "|n=m"], []), LISTING], map[])
  {
    var ms := [ModelRef("n", "m/0/false"), ModelRef("|;" + Head(LISTING, "d"), "y")];
    var joined, e := Llm("e", KIND, ["a"], ms), Llm("e", KIND, ["a", "|n=m"], []);
    SignatureOfOne(joined, map[]);
    SignatureOfTwo(e, LISTING, map[]);
    TextByHead(LISTING, ModelRef("d", "y"));
    TwoModels(ms[0], ms[1], [';'] + "");
    BarText(Head(LISTING, "d"));
    hide Resolve, NodesText, Signature, Head;
    OnlyHost(joined);
    FirstNode([joined], joined);
    ListingHosts(["a", "|n=m"]);
  }

  lemma BarText(h: string)
    ensures var second := ("|;" + h) + ['='] + ("y" + [','] + ([';'] + ""));
            NodesText(map[], ["a"], ['|'] + ("n" + ['='] + ("m/0/false" + [','] + second))) ==
            NodesText(map[], ["a", "|n=m"], ['|'] + ([';'] + (h + (['='] + ("y" + [','] + [';'])))))
  {
    var models := ['|'] + ("n" + ['='] + ("m/0/false" + [','] + (("|;" + h) + ['='] + ("y" + [','] + ([';'] + "")))));
    var entries := ['|'] + ([';'] + (h + (['='] + ("y" + [','] + [';']))));
    BarTail(h);
    hide NodesText;
    assert ["a"] == ["a"] + [] && ["a", "|n=m"] == ["a"] + ["|n=m"] && ["|n=m"] == ["|n=m"] + [];
    UnknownNode("a", [], models);
    UnknownNode("a", ["|n=m"], entries);
    UnknownNode("|n=m", [], entries);
    NoNodesText(models);
    NoNodesText(entries);
  }

  lemma NoNodesText(rest: string)
    ensures NodesText(map[], [], rest) == rest
  {
  }

  lemma BarTail(h: string)
    ensures ['|'] + ("n" + ['='] + ("m/0/false" + [','] + (("|;" + h) + ['='] + ("y" + [','] + ([';'] + ""))))) ==
            "|n=m" + ['/'] + ("0/false," + (['|'] + ([';'] + (h + (['='] + ("y" + [','] + [';']))))))
  {
    var rest := h + (['='] + ("y" + [','] + [';']));
    assert ("|;" + h) + ['='] + ("y" + [','] + ([';'] + "")) == "|;" + rest;
    assert ['|'] + ([';'] + rest) == "|;" + rest;
    assert "n" + ['='] + ("m/0/false" + [','] + ("|;" + rest)) == "n=m/0/false," + ("|;" + rest);
    assert "|n=m" + ['/'] + ("0/false," + ("|;" + rest)) == "|n=m/0/false," + ("|;" + rest);
    assert ['|'] + ("n=m/0/false," + ("|;" + rest)) == "|n=m/0/false," + ("|;" + rest);
  }

  // ---- A slash in an entry's name, a colon in its kind ----

  lemma SlashInEntryName()
    ensures Collide([Llm("e" + "/" + "x", KIND, ["a"], [])], [Llm("e", "x" + "/" + KIND, ["a"], [])], map[])
  {
    var slashed, other := Llm("e" + "/" + "x", KIND, ["a"], []), Llm("e", "x" + "/" + KIND, ["a"], []);
    assert other.kind[0] == 'x';
    SignatureOfOne(slashed, map[]);
    SignatureOfOne(other, map[]);
    hide Resolve, NodesText, ModelsText, Signature;
    var rest := NodesText(map[], ["a"], ['|'] + ModelsText([], [';'] + ""));
    assert ("e" + "/" + "x") + ['/'] + (KIND + [':'] + rest) == "e" + ['/'] + (("x" + "/" + KIND) + [':'] + rest);
    OnlyHost(slashed);
    FirstNode([slashed], slashed);
    NoHost([other]);
  }

  lemma ColonInKind()
    ensures Collide([Llm("e", KIND, ["b" + ":" + "a"], [])], [Llm("e", KIND + ":" + "b", ["a"], [])], map[])
  {
    var plain, other := Llm("e", KIND, ["b" + ":" + "a"], []), Llm("e", KIND + ":" + "b", ["a"], []);
    assert |other.kind| > |KIND|;
    SignatureOfOne(plain, map[]);
    SignatureOfOne(other, map[]);
    hide Resolve, NodesText, ModelsText, Signature;
    var rest := ['|'] + ModelsText([], [';'] + "");
    ColonText("a", "b", KIND, rest);
    OnlyHost(plain);
    FirstNode([plain], plain);
    NoHost([other]);
  }

  lemma ColonText(n: string, b: string, kind: string, rest: string)
    ensures kind + [':'] + NodesText(map[], [b + ":" + n], rest) ==
        (kind + ":" + b) + [':'] + NodesText(map[], [n], rest)
  {
    hide NodesText;
    assert [n] == [n] + [] && [b + ":" + n] == [b + ":" + n] + [];
    UnknownNode(n, [], rest);
    UnknownNode(b + ":" + n, [], rest);
    var tail := "0/false," + NodesText(map[], [], rest);
    assert kind + [':'] + ((b + ":" + n) + ['/'] + tail) == (kind + ":" + b) + [':'] + (n + ['/'] + tail);
  }
}
