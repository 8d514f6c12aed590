/**
 The placement signature (cmd/datawatch/capacity_wiring.go): a text over the
 entries that list compute nodes. Equal text must mean equal candidates.
 */
module PlacementSignature {
  import opened Basics
  import opened Encoding
  import opened Placement

  // ---- The text ----

  function BoolText(b: bool): string {
    if b then "true" else "false"
  }

  function PriorityText(nodes: Nodes, n: string): string {
    var p := Priority(nodes, n);
    Decimal(if p.Some? then p.value else 0)
  }

  /** The compute_nodes part of an entry's text, followed by rest. */
  function NodesText(nodes: Nodes, ns: seq<string>, rest: string): string {
    if ns == [] then rest
    else ns[0] + ['/'] + (PriorityText(nodes, ns[0]) + ['/'] +
           (BoolText(Priority(nodes, ns[0]).Some?) + [','] + NodesText(nodes, ns[1..], rest)))
  }

  /** The models part of an entry's text, followed by rest. */
  function ModelsText(ms: seq<ModelRef>, rest: string): string {
    if ms == [] then rest
    else ms[0].node + ['='] + (ms[0].model + [','] + ModelsText(ms[1..], rest))
  }

  function EntryText(nodes: Nodes, l: Llm, rest: string): string {
    l.name + ['/'] + (l.kind + [':'] +
      NodesText(nodes, l.computeNodes, ['|'] + ModelsText(l.models, [';'] + rest)))
  }

  /** The placement signature: an entry without compute nodes leaves no trace in it. */
  function Signature(reg: Registry, nodes: Nodes): string {
    if reg == [] then ""
    else if reg[0].computeNodes == [] then Signature(reg[1..], nodes)
    else EntryText(nodes, reg[0], Signature(reg[1..], nodes))
  }

  // ---- The builder loops ----

  /** Writing a field and its delimiter moves them from what is left to what is written. */
  lemma Written(b: string, field: string, c: char, rest: string)
    ensures b + field + [c] + rest == b + (field + [c] + rest)
  {
  }

  method WriteNodes(b0: string, nodes: Nodes, ns: seq<string>, ghost rest: string) returns (b: string)
    ensures b + rest == b0 + NodesText(nodes, ns, rest)
  {
    hide Decimal, Priority;
    b := b0;
    for i := 0 to |ns|
      invariant b + NodesText(nodes, ns[i..], rest) == b0 + NodesText(nodes, ns, rest)
    {
      var n, p, known := ns[i], PriorityText(nodes, ns[i]), BoolText(Priority(nodes, ns[i]).Some?);
      ghost var left := NodesText(nodes, ns[i + 1..], rest);
      assert ns[i..][1..] == ns[i + 1..];
      Written(b, n, '/', p + ['/'] + (known + [','] + left));
      b := b + n + ['/'];
      Written(b, p, '/', known + [','] + left);
      b := b + p + ['/'];
      Written(b, known, ',', left);
      b := b + known + [','];
    }
  }

  method WriteModels(b0: string, ms: seq<ModelRef>, ghost rest: string) returns (b: string)
    ensures b + rest == b0 + ModelsText(ms, rest)
  {
    b := b0;
    for i := 0 to |ms|
      invariant b + ModelsText(ms[i..], rest) == b0 + ModelsText(ms, rest)
    {
      ghost var left := ModelsText(ms[i + 1..], rest);
      assert ms[i..][1..] == ms[i + 1..];
      Written(b, ms[i].node, '=', ms[i].model + [','] + left);
      b := b + ms[i].node + ['='];
      Written(b, ms[i].model, ',', left);
      b := b + ms[i].model + [','];
    }
  }

  method WriteEntry(b0: string, nodes: Nodes, l: Llm, ghost rest: string) returns (b: string)
    ensures b + rest == b0 + EntryText(nodes, l, rest)
  {
    ghost var models := ModelsText(l.models, [';'] + rest);
    ghost var afterKind := NodesText(nodes, l.computeNodes, ['|'] + models);
    Written(b0, l.name, '/', l.kind + [':'] + afterKind);
    b := b0 + l.name + ['/'];
    Written(b, l.kind, ':', afterKind);
    b := b + l.kind + [':'];
    b := WriteNodes(b, nodes, l.computeNodes, ['|'] + models);
    assert b + ['|'] + models == b + (['|'] + models);
    b := b + ['|'];
    b := WriteModels(b, l.models, [';'] + rest);
    assert b + [';'] + rest == b + ([';'] + rest);
    b := b + [';'];
  }

  /** The builder writes exactly the signature. */
  method WriteSignature(reg: Registry, nodes: Nodes) returns (b: string)
    ensures b == Signature(reg, nodes)
  {
    b := "";
    for i := 0 to |reg|
      invariant b + Signature(reg[i..], nodes) == Signature(reg, nodes)
    {
      assert reg[i..][1..] == reg[i + 1..];
      if reg[i].computeNodes == [] {
        continue;
      }
      b := WriteEntry(b, nodes, reg[i], Signature(reg[i + 1..], nodes));
    }
  }

  // ---- When the text is unambiguous ----

  predicate StartsWith(s: string, c: char) {
    s != "" && s[0] == c
  }

  predicate NodeDelimited(n: string) {
    '/' !in n && !StartsWith(n, '|')
  }

  predicate ModelDelimited(m: ModelRef) {
    '=' !in m.node && !StartsWith(m.node, ';') && ',' !in m.model
  }

  /** No field holds the delimiter that ends it, or starts with the one that ends its list. */
  predicate Delimited(l: Llm) {
    && '/' !in l.name && ':' !in l.kind
    && (forall n :: n in l.computeNodes ==> NodeDelimited(n))
    && (forall m :: m in l.models ==> ModelDelimited(m))
  }

  predicate AllDelimited(reg: Registry) {
    forall l :: l in reg && l.computeNodes != [] ==> Delimited(l)
  }

  /** Two lists of nodes that the two compute registries answer alike. */
  ghost predicate AgreeOn(ns: seq<string>, nodes: Nodes, other: Nodes) {
    forall n :: n in ns ==> Priority(nodes, n) == Priority(other, n)
  }

  lemma PriorityUnique(nodes: Nodes, other: Nodes, n: string)
    requires PriorityText(nodes, n) == PriorityText(other, n)
    requires BoolText(Priority(nodes, n).Some?) == BoolText(Priority(other, n).Some?)
    ensures Priority(nodes, n) == Priority(other, n)
  {
    var p, q := Priority(nodes, n), Priority(other, n);
    assert "true"[0] != "false"[0];
    DecimalUnique(if p.Some? then p.value else 0, if q.Some? then q.value else 0);
  }

  lemma PlainText(nodes: Nodes, n: string)
    ensures '/' !in PriorityText(nodes, n) && ',' !in BoolText(Priority(nodes, n).Some?)
  {
  }

  lemma NodesStart(nodes: Nodes, ns: seq<string>, rest: string)
    requires ns != [] && NodeDelimited(ns[0])
    ensures NodesText(nodes, ns, rest) != "" && NodesText(nodes, ns, rest)[0] != '|'
  {
    assert ns[0] != "" ==> NodesText(nodes, ns, rest)[0] == ns[0][0];
  }

  lemma NodeTextUnique(nodes: Nodes, other: Nodes, ns: seq<string>, ms: seq<string>, r: string, q: string)
    requires ns != [] && ms != [] && NodeDelimited(ns[0]) && NodeDelimited(ms[0])
    requires NodesText(nodes, ns, r) == NodesText(other, ms, q)
    ensures ns[0] == ms[0] && Priority(nodes, ns[0]) == Priority(other, ms[0])
    ensures NodesText(nodes, ns[1..], r) == NodesText(other, ms[1..], q)
  {
    hide Priority, PriorityText, BoolText;
    var n, m := ns[0], ms[0];
    var p1, p2 := PriorityText(nodes, n), PriorityText(other, m);
    var b1, b2 := BoolText(Priority(nodes, n).Some?), BoolText(Priority(other, m).Some?);
    var t1, t2 := NodesText(nodes, ns[1..], r), NodesText(other, ms[1..], q);
    PlainText(nodes, n);
    PlainText(other, m);
    CutUnique('/', n, p1 + ['/'] + (b1 + [','] + t1), m, p2 + ['/'] + (b2 + [','] + t2));
    CutUnique('/', p1, b1 + [','] + t1, p2, b2 + [','] + t2);
    CutUnique(',', b1, t1, b2, t2);
    PriorityUnique(nodes, other, n);
  }

  lemma {:induction false} NodesTextUnique(nodes: Nodes, other: Nodes, ns: seq<string>, ms: seq<string>, r: string,
                                           q: string)
    requires forall n :: n in ns || n in ms ==> NodeDelimited(n)
    requires NodesText(nodes, ns, ['|'] + r) == NodesText(other, ms, ['|'] + q)
    ensures ns == ms && AgreeOn(ns, nodes, other) && r == q
    decreases |ns|
  {
    hide NodeDelimited, Priority;
    if ns != [] { NodesStart(nodes, ns, ['|'] + r); }
    if ms != [] { NodesStart(other, ms, ['|'] + q); }
    assert (['|'] + r)[0] == '|' == (['|'] + q)[0];
    if ns == [] {
      assert r == (['|'] + r)[1..] == (['|'] + q)[1..] == q;
    } else {
      NodeTextUnique(nodes, other, ns, ms, ['|'] + r, ['|'] + q);
      NodesTextUnique(nodes, other, ns[1..], ms[1..], r, q);
      assert ns == [ns[0]] + ns[1..] && ms == [ms[0]] + ms[1..];
    }
  }

  lemma ModelsStart(ms: seq<ModelRef>, rest: string)
    requires ms != [] && ModelDelimited(ms[0])
    ensures ModelsText(ms, rest) != "" && ModelsText(ms, rest)[0] != ';'
  {
    assert ms[0].node != "" ==> ModelsText(ms, rest)[0] == ms[0].node[0];
  }

  lemma {:induction false} ModelsTextUnique(ms: seq<ModelRef>, ns: seq<ModelRef>, r: string, q: string)
    requires forall m :: m in ms || m in ns ==> ModelDelimited(m)
    requires ModelsText(ms, [';'] + r) == ModelsText(ns, [';'] + q)
    ensures ms == ns && r == q
    decreases |ms|
  {
    if ms != [] { ModelsStart(ms, [';'] + r); }
    if ns != [] { ModelsStart(ns, [';'] + q); }
    assert ([';'] + r)[0] == ';' == ([';'] + q)[0];
    if ms == [] {
      assert r == ([';'] + r)[1..] == ([';'] + q)[1..] == q;
    } else {
      var t1, t2 := ModelsText(ms[1..], [';'] + r), ModelsText(ns[1..], [';'] + q);
      CutUnique('=', ms[0].node, ms[0].model + [','] + t1, ns[0].node, ns[0].model + [','] + t2);
      CutUnique(',', ms[0].model, t1, ns[0].model, t2);
      ModelsTextUnique(ms[1..], ns[1..], r, q);
      assert ms == [ms[0]] + ms[1..] && ns == [ns[0]] + ns[1..];
    }
  }

  lemma EntryTextUnique(nodes: Nodes, other: Nodes, l: Llm, k: Llm, r: string, q: string)
    requires Delimited(l) && Delimited(k)
    requires EntryText(nodes, l, r) == EntryText(other, k, q)
    ensures l == k && AgreeOn(l.computeNodes, nodes, other) && r == q
  {
    hide NodesText, ModelsText, AgreeOn;
    var m1, m2 := ModelsText(l.models, [';'] + r), ModelsText(k.models, [';'] + q);
    var n1, n2 := NodesText(nodes, l.computeNodes, ['|'] + m1), NodesText(other, k.computeNodes, ['|'] + m2);
    CutUnique('/', l.name, l.kind + [':'] + n1, k.name, k.kind + [':'] + n2);
    CutUnique(':', l.kind, n1, k.kind, n2);
    NodesTextUnique(nodes, other, l.computeNodes, k.computeNodes, m1, m2);
    ModelsTextUnique(l.models, k.models, r, q);
  }

  /** The entries the signature speaks of. */
  function Pooled(reg: Registry): (r: Registry)
    ensures forall l :: l in r <==> l in reg && l.computeNodes != []
  {
    if reg == [] then []
    else
      assert reg == [reg[0]] + reg[1..];
      if reg[0].computeNodes == [] then Pooled(reg[1..]) else [reg[0]] + Pooled(reg[1..])
  }

  lemma {:induction false} SignatureOfPooled(reg: Registry, nodes: Nodes)
    ensures Signature(reg, nodes) == Signature(Pooled(reg), nodes)
  {
    if reg != [] {
      SignatureOfPooled(reg[1..], nodes);
      assert reg[0].computeNodes != [] ==> Pooled(reg)[1..] == Pooled(reg[1..]);
    }
  }

  lemma {:induction false} PooledUnique(a: Registry, b: Registry, nodes: Nodes, other: Nodes)
    requires forall l :: l in a || l in b ==> l.computeNodes != [] && Delimited(l)
    requires Signature(a, nodes) == Signature(b, other)
    ensures a == b && forall l :: l in a ==> AgreeOn(l.computeNodes, nodes, other)
    decreases |a|
  {
    if a != [] && b != [] {
      EntryTextUnique(nodes, other, a[0], b[0], Signature(a[1..], nodes), Signature(b[1..], other));
      PooledUnique(a[1..], b[1..], nodes, other);
      assert a == [a[0]] + a[1..] && b == [b[0]] + b[1..];
    }
  }

  lemma {:induction false} NodesTextAgrees(ns: seq<string>, nodes: Nodes, other: Nodes, rest: string)
    requires AgreeOn(ns, nodes, other)
    ensures NodesText(nodes, ns, rest) == NodesText(other, ns, rest)
  {
    hide Priority, BoolText, Decimal;
    if ns != [] {
      assert ns[0] in ns && forall n :: n in ns[1..] ==> n in ns;
      NodesTextAgrees(ns[1..], nodes, other, rest);
    }
  }

  lemma {:induction false} SignatureAgrees(reg: Registry, nodes: Nodes, other: Nodes)
    requires forall l :: l in reg ==> AgreeOn(l.computeNodes, nodes, other)
    ensures Signature(reg, nodes) == Signature(reg, other)
  {
    hide NodesText, ModelsText, AgreeOn;
    if reg != [] {
      var l, rest := reg[0], Signature(reg[1..], nodes);
      assert l in reg && forall k :: k in reg[1..] ==> k in reg;
      SignatureAgrees(reg[1..], nodes, other);
      NodesTextAgrees(l.computeNodes, nodes, other, ['|'] + ModelsText(l.models, [';'] + rest));
    }
  }

  /** Signatures are equal exactly for the same entries with nodes and the same answers about those nodes. */
  lemma EqualSignatures(reg: Registry, nodes: Nodes, reg2: Registry, nodes2: Nodes)
    requires AllDelimited(reg) && AllDelimited(reg2)
    ensures Signature(reg, nodes) == Signature(reg2, nodes2) <==>
            Pooled(reg) == Pooled(reg2) && forall l :: l in Pooled(reg) ==> AgreeOn(l.computeNodes, nodes, nodes2)
  {
    hide Signature, AgreeOn, Delimited;
    SignatureOfPooled(reg, nodes);
    SignatureOfPooled(reg2, nodes2);
    if Signature(reg, nodes) == Signature(reg2, nodes2) {
      PooledUnique(Pooled(reg), Pooled(reg2), nodes, nodes2);
    } else if forall l :: l in Pooled(reg) ==> AgreeOn(l.computeNodes, nodes, nodes2) {
      SignatureAgrees(Pooled(reg), nodes, nodes2);
    }
  }

  lemma OneNodeText(nodes: Nodes, n: string, rest: string)
    requires Priority(nodes, n).Some?
    ensures NodesText(nodes, [n], rest) == n + "/" + Decimal(Priority(nodes, n).value) + "/true," + rest
  {
    hide Decimal, Priority;
    assert [n][1..] == [] && NodesText(nodes, [], rest) == rest;
    assert PriorityText(nodes, n) == Decimal(Priority(nodes, n).value);
  }

  lemma OneModelText(m: ModelRef, rest: string)
    ensures ModelsText([m], rest) == m.node + "=" + m.model + "," + rest
  {
    assert [m][1..] == [] && ModelsText([], rest) == rest;
  }

  /** The text of an entry with one node, which the compute registry knows, and one model. */
  lemma SignatureText(name: string, kind: string, n: string, m: ModelRef, nodes: Nodes)
    requires Priority(nodes, n).Some?
    ensures Signature([Llm(name, kind, [n], [m])], nodes) ==
            name + "/" + (kind + ":" + (n + "/" + Decimal(Priority(nodes, n).value) + "/true,"
            + ("|" + (m.node + "=" + m.model + "," + ";"))))
  {
    hide Decimal, Priority, NodesText, ModelsText;
    var l := Llm(name, kind, [n], [m]);
    assert [l][1..] == [] && Signature([], nodes) == "" && [';'] + "" == ";";
    OneModelText(m, ";");
    OneNodeText(nodes, n, "|" + ModelsText([m], ";"));
  }

  // ---- Equal signatures mean equal candidates ----

  lemma {:induction false} BestOfPooled(reg: Registry, kind: string, model: string)
    requires DistinctNames(reg)
    ensures Best(reg, kind, model) == Best(Pooled(reg), kind, model)
  {
    PooledDistinct(reg);
    BestIsHost(reg, kind, model);
    BestIsHost(Pooled(reg), kind, model);
    var a, b := Best(reg, kind, model), Best(Pooled(reg), kind, model);
    if a.Some? && b.Some? && a != b {
      LessTrichotomy(a.value.name, b.value.name);
    }
  }

  lemma {:induction false} PooledDistinct(reg: Registry)
    requires DistinctNames(reg)
    ensures DistinctNames(Pooled(reg))
  {
    if reg != [] {
      PooledDistinct(reg[1..]);
      var rest := Pooled(reg[1..]);
      assert forall i :: 0 <= i < |rest| ==> rest[i].name != reg[0].name by {
        forall i | 0 <= i < |rest| ensures rest[i].name != reg[0].name {
          assert rest[i] in rest;
          var k :| 0 <= k < |reg[1..]| && reg[1..][k] == rest[i];
        }
      }
    }
  }

  lemma PiOwnOfPooled(reg: Registry, backend: string)
    requires DistinctNames(reg)
    ensures PiOwnEntry(reg, backend) == PiOwnEntry(Pooled(reg), backend)
  {
    PooledDistinct(reg);
    var a, b := Get(reg, backend), Get(Pooled(reg), backend);
    if a.Some? {
      GetFinds(reg, backend, a.value);
      GetFinds(Pooled(reg), backend, a.value);
    }
    if b.Some? {
      GetFinds(reg, backend, b.value);
      GetFinds(Pooled(reg), backend, b.value);
    }
  }

  lemma {:induction false} KnownNodesAgree(list: seq<string>, nodes: Nodes, other: Nodes)
    requires AgreeOn(list, nodes, other)
    ensures KnownNodes(list, nodes) == KnownNodes(list, other)
  {
    if list != [] {
      assert list[|list| - 1] in list;
      KnownNodesAgree(list[..|list| - 1], nodes, other);
    }
  }

  /**
   Two equal signatures give every backend and model the same node and the same
   candidates, so a waiter needs no new plan.
   */
  lemma SameSignatureSamePlacement(reg: Registry, nodes: Nodes, reg2: Registry, nodes2: Nodes, backend: string,
                                   model: string)
    requires DistinctNames(reg) && DistinctNames(reg2) && AllDelimited(reg) && AllDelimited(reg2)
    requires Signature(reg, nodes) == Signature(reg2, nodes2)
    ensures SamePlacement(Resolve(reg, nodes, backend, model), Resolve(reg2, nodes2, backend, model))
  {
    SameSignatureSameHost(reg, nodes, reg2, nodes2, backend, model);
    hide Signature, HostingEntry, Place, BasePools;
  }

  /** Both registries hold an entry named backend, or neither does; with or without compute nodes. */
  predicate SameNamed(reg: Registry, other: Registry, backend: string) {
    Get(reg, backend).Some? <==> Get(other, backend).Some?
  }

  /**
   The whole answer, pools included, is the same exactly if the two registries
   also agree on whether there is an entry named backend: its pool is part of
   the answer, and the signature leaves entries without compute nodes out.
   */
  lemma SameSignatureSameAnswer(reg: Registry, nodes: Nodes, reg2: Registry, nodes2: Nodes, backend: string,
                                model: string)
    requires DistinctNames(reg) && DistinctNames(reg2) && AllDelimited(reg) && AllDelimited(reg2)
    requires Signature(reg, nodes) == Signature(reg2, nodes2)
    ensures Resolve(reg, nodes, backend, model) == Resolve(reg2, nodes2, backend, model) <==>
        SameNamed(reg, reg2, backend)
  {
    SameSignatureSameHost(reg, nodes, reg2, nodes2, backend, model);
    SameBasePools(reg, reg2, backend);
    hide Get, Signature, HostingEntry, Place, BasePools, SameNamed;
    var base, other := BasePools(reg, backend), BasePools(reg2, backend);
    forall pool: string ensures base + [pool] == other + [pool] <==> base == other {
      assert (base + [pool])[..|base + [pool]| - 1] == base && (other + [pool])[..|other + [pool]| - 1] == other;
    }
  }

  lemma SameBasePools(reg: Registry, reg2: Registry, backend: string)
    requires DistinctNames(reg) && DistinctNames(reg2)
    ensures BasePools(reg, backend) == BasePools(reg2, backend) <==> SameNamed(reg, reg2, backend)
  {
    var a, b := Get(reg, backend), Get(reg2, backend);
    if a.Some? { GetFinds(reg, backend, a.value); }
    if b.Some? { GetFinds(reg2, backend, b.value); }
    hide Get;
    assert |BasePools(reg, backend)| == (if a.Some? then 2 else 1) &&
        |BasePools(reg2, backend)| == (if b.Some? then 2 else 1);
  }

  /** Equal signatures: the same host, placed the same way. */
  lemma SameSignatureSameHost(reg: Registry, nodes: Nodes, reg2: Registry, nodes2: Nodes, backend: string,
                              model: string)
    requires DistinctNames(reg) && DistinctNames(reg2) && AllDelimited(reg) && AllDelimited(reg2)
    requires Signature(reg, nodes) == Signature(reg2, nodes2)
    ensures var h := HostingEntry(reg, backend, model);
      && h == HostingEntry(reg2, backend, model)
      && (h.Local? ==> Place(h.entry, h.node, nodes, model) == Place(h.entry, h.node, nodes2, model))
  {
    hide Best, Get, Signature, Pooled, KnownNodes, Serving, Cut, Priority, PiOwnEntry, BasePools;
    EqualSignatures(reg, nodes, reg2, nodes2);
    PiOwnOfPooled(reg, backend);
    PiOwnOfPooled(reg2, backend);
    if Cut(model).Some? {
      BestOfPooled(reg, Cut(model).value.0, model);
      BestOfPooled(reg2, Cut(model).value.0, model);
    }
    var h := HostingEntry(reg, backend, model);
    if h.Local? {
      HostIsPooled(reg, backend, model);
      KnownNodesAgree(h.entry.computeNodes, nodes, nodes2);
    }
  }

  lemma HostIsPooled(reg: Registry, backend: string, model: string)
    requires DistinctNames(reg) && HostingEntry(reg, backend, model).Local?
    ensures HostingEntry(reg, backend, model).entry in Pooled(reg)
  {
    BestIsHost(reg, Cut(model).value.0, model);
    var own := PiOwnEntry(reg, backend);
    if own.Some? {
      GetFinds(reg, backend, own.value);
    }
  }

  predicate SamePlacement(a: Resolution, b: Resolution) {
    a.node == b.node && a.choices == b.choices
  }
}
