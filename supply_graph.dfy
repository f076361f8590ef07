/** The demonstration supply graph built by `build_multi_tier_graph`. */
module SupplyGraph {
  import opened Options
  import opened Risk
  import opened Graphs

  const SUPPLIER_PREFIX := "Supplier_"

  /** The node name of a supplier: "Supplier_" followed by its id. */
  function NodeName(id: string): string {
    SUPPLIER_PREFIX + id
  }

  /** Different ids give different node names. */
  lemma NodeNameInjective(a: string, b: string)
    ensures NodeName(a) == NodeName(b) ==> a == b
  {
    if NodeName(a) == NodeName(b) {
      assert a == NodeName(a)[|SUPPLIER_PREFIX|..];
      assert b == NodeName(b)[|SUPPLIER_PREFIX|..];
    }
  }

  function Ids(table: seq<Supplier>): seq<string> {
    seq(|table|, k requires 0 <= k < |table| => table[k].id)
  }

  function NodeNames(table: seq<Supplier>): seq<string> {
    seq(|table|, k requires 0 <= k < |table| => NodeName(table[k].id))
  }

  /** Distinct ids give distinct node names, so no node collapses. */
  lemma DistinctIdsDistinctNames(table: seq<Supplier>)
    requires Distinct(Ids(table))
    ensures Distinct(NodeNames(table))
  {
    var names := NodeNames(table);
    forall i, j | 0 <= i < j < |names| ensures names[i] != names[j] {
      assert Ids(table)[i] == table[i].id && Ids(table)[j] == table[j].id;
      assert names[i] == NodeName(table[i].id) && names[j] == NodeName(table[j].id);
      NodeNameInjective(table[i].id, table[j].id);
    }
  }

  /** The dictionary `tier=1, risk=...` of a supplier's own node. */
  function NodeTier(risk: RiskLabel): Attrs {
    Attrs(Some(1), Some(risk))
  }

  /** The dictionary `tier=t, risk=...` of a simulated relationship edge. */
  function EdgeTier(tier: int, risk: RiskLabel): Attrs {
    Attrs(Some(tier), Some(risk))
  }

  /** The consecutive pairs of `names`, in order. */
  function Chain(names: seq<string>): (es: seq<Edge>)
    ensures |es| == if |names| == 0 then 0 else |names| - 1
    ensures forall k :: 0 <= k < |es| ==> es[k] == (names[k], names[k + 1])
  {
    if |names| <= 1 then [] else [(names[0], names[1])] + Chain(names[1..])
  }

  /** Every name has a successor list, holding just the next name, or
      nothing for the last. */
  ghost predicate ChainSucc(succ: map<string, seq<string>>, names: seq<string>) {
    && (forall k :: 0 <= k < |names| ==> names[k] in succ)
    && (|names| >= 1 ==> succ[names[|names| - 1]] == [])
    && (forall j, k :: 0 <= j && k == j + 1 && k < |names| ==> succ[names[j]] == [names[k]])
  }

  /** A graph whose successor lists are the consecutive pairs of `names` is
      iterated as that chain. */
  lemma {:induction false} ChainEdgeOrder(names: seq<string>, succ: map<string, seq<string>>)
    requires ChainSucc(succ, names)
    ensures EdgeOrder(names, succ) == Chain(names)
  {
    if names != [] {
      var rest := names[1..];
      forall j, k | 0 <= j && k == j + 1 && k < |rest| ensures succ[rest[j]] == [rest[k]] {
        assert rest[j] == names[j + 1] && rest[k] == names[k + 1];
      }
      assert ChainSucc(succ, rest);
      ChainEdgeOrder(rest, succ);
      if |names| == 1 {
        assert OutPairs(names[0], []) == [];
      } else {
        assert succ[names[0]] == [names[1]];
        assert OutPairs(names[0], [names[1]]) == [(names[0], names[1])];
      }
    }
  }

  /** Number of nodes present after the first `i` rows of `n` have been
      processed: row 0 brings in rows 0 to 2, every later row one more. */
  function Created(i: nat, n: nat): nat {
    if i == 0 then 0 else if i + 2 < n then i + 2 else n
  }

  /** The first `c` names, as a set. */
  ghost function NameSet(names: seq<string>, c: nat): set<string>
    requires c <= |names|
  {
    set k | 0 <= k < c :: names[k]
  }

  /** The nodes of `g` are the first `c` names. */
  ghost predicate NodesAre(g: Graph, names: seq<string>, c: nat)
    requires c <= |names|
  {
    g.nodes.Keys == NameSet(names, c)
  }

  /** The graph with distinct names part-way through the builder: the first
      `c` names are the nodes in that order and form a chain; the first `t`
      carry their own row's tier 1 dictionary and the others still have the
      empty dictionary `add_edge` gave them; the first `e2` chain edges are
      their source row's tier 2 edges and the later ones are still the tier 3
      edge of the row before their source. */
  ghost predicate Shape(g: Graph, names: seq<string>, risks: seq<RiskLabel>, t: nat, c: nat, e2: nat)
    requires |names| == |risks| && c <= |names|
  {
    && g.order == names[..c]
    && (c >= 2 ==> e2 >= 1)
    && (forall k :: c <= k < |names| ==> names[k] !in g.succ)
    && (forall u, v :: (u, v) in g.edges ==> u in g.succ && v in g.succ[u])
    && (forall k :: 0 <= k < c ==>
          names[k] in g.nodes && g.nodes[names[k]] == (if k < t then NodeTier(risks[k]) else NO_ATTRS))
    && (forall k :: 0 <= k < c ==> names[k] in g.succ)
    && (c >= 1 ==> g.succ[names[c - 1]] == [])
    && (forall j, k :: 0 <= j && k == j + 1 && k < c ==> g.succ[names[j]] == [names[k]])
    && (forall j, k :: 0 <= j < e2 && k == j + 1 && k < c ==>
          (names[j], names[k]) in g.edges && g.edges[(names[j], names[k])] == EdgeTier(2, risks[j]))
    && (forall j, k :: 1 <= j && e2 <= j && k == j + 1 && k < c ==>
          (names[j], names[k]) in g.edges && g.edges[(names[j], names[k])] == EdgeTier(3, risks[j - 1]))
  }

  /** What one iteration of the builder's loop does to the graph: row `i`'s
      node, its tier 2 edge to row `i + 1`, and the tier 3 edge from row
      `i + 1` to row `i + 2`. */
  function RowAdded(g: Graph, names: seq<string>, risks: seq<RiskLabel>, i: nat): Graph
    requires |names| == |risks| && i < |names|
  {
    var g1 := g.NodeAdded(names[i], NodeTier(risks[i]));
    if i + 1 < |names| then
      var g2 := g1.EdgeAdded(names[i], names[i + 1], EdgeTier(2, risks[i]));
      if i + 2 < |names| then g2.EdgeAdded(names[i + 1], names[i + 2], EdgeTier(3, risks[i])) else g2
    else g1
  }

  /** What one pass of the loop adds to a well formed graph: row `i`'s node
      carries its tier 1 dictionary; the edge to row `i + 1` carries row
      `i`'s label (its tier may be overwritten when the two added edges
      coincide); the edge from row `i + 1` to row `i + 2` carries tier 3
      and row `i`'s label. */
  lemma RowAddedEffect(g: Graph, names: seq<string>, risks: seq<RiskLabel>, i: nat)
    requires |names| == |risks| && i < |names| && g.Valid()
    ensures var r := RowAdded(g, names, risks, i);
            && names[i] in r.nodes && r.nodes[names[i]] == NodeTier(risks[i])
            && (i + 1 < |names| ==>
                  (names[i], names[i + 1]) in r.edges && r.edges[(names[i], names[i + 1])].risk == Some(risks[i]))
            && (i + 2 < |names| ==>
                  (names[i + 1], names[i + 2]) in r.edges && r.edges[(names[i + 1], names[i + 2])] == EdgeTier(3, risks[i]))
  {
    ValidEdgesListed(g);
    var n := NodeTier(risks[i]);
    var g1 := g.NodeAdded(names[i], n);
    NodeAddedEffect(g, names[i], n);
    if i + 1 < |names| {
      var a, b := names[i], names[i + 1];
      var g2 := g1.EdgeAdded(a, b, EdgeTier(2, risks[i]));
      EdgeAddedEffect(g1, a, b, EdgeTier(2, risks[i]));
      EdgeAddedKeeps(g1, a, b, EdgeTier(2, risks[i]));
      if i + 2 < |names| {
        var c := names[i + 2];
        var g3 := g2.EdgeAdded(b, c, EdgeTier(3, risks[i]));
        EdgeAddedEffect(g2, b, c, EdgeTier(3, risks[i]));
        EdgeAddedKeeps(g2, b, c, EdgeTier(3, risks[i]));
        assert RowAdded(g, names, risks, i) == g3;
      } else {
        assert RowAdded(g, names, risks, i) == g2;
      }
    } else {
      assert RowAdded(g, names, risks, i) == g1;
    }
  }

  /** One pass of the loop keeps every other node's dictionary and every
      edge it does not add. */
  lemma RowAddedKeeps(g: Graph, names: seq<string>, risks: seq<RiskLabel>, i: nat)
    requires |names| == |risks| && i < |names| && g.Valid()
    ensures var r := RowAdded(g, names, risks, i);
            && (forall x :: x in g.nodes && x != names[i] ==> x in r.nodes && r.nodes[x] == g.nodes[x])
            && (forall e :: e in g.edges && !(i + 1 < |names| && e == (names[i], names[i + 1]))
                                          && !(i + 2 < |names| && e == (names[i + 1], names[i + 2])) ==>
                  e in r.edges && r.edges[e] == g.edges[e])
  {
    ValidEdgesListed(g);
    var n := NodeTier(risks[i]);
    var g1 := g.NodeAdded(names[i], n);
    NodeAddedEffect(g, names[i], n);
    if i + 1 < |names| {
      var a, b := names[i], names[i + 1];
      var g2 := g1.EdgeAdded(a, b, EdgeTier(2, risks[i]));
      EdgeAddedKeeps(g1, a, b, EdgeTier(2, risks[i]));
      if i + 2 < |names| {
        var c := names[i + 2];
        var g3 := g2.EdgeAdded(b, c, EdgeTier(3, risks[i]));
        EdgeAddedEffect(g1, a, b, EdgeTier(2, risks[i]));
        EdgeAddedKeeps(g2, b, c, EdgeTier(3, risks[i]));
        assert RowAdded(g, names, risks, i) == g3;
      } else {
        assert RowAdded(g, names, risks, i) == g2;
      }
    } else {
      assert RowAdded(g, names, risks, i) == g1;
    }
  }

  /** One row keeps the graph well formed. */
  lemma RowValid(g: Graph, names: seq<string>, risks: seq<RiskLabel>, i: nat)
    requires |names| == |risks| && i < |names|
    requires g.Valid()
    ensures RowAdded(g, names, risks, i).Valid()
  {
    var g1 := g.NodeAdded(names[i], NodeTier(risks[i]));
    NodeAddedValid(g, names[i], NodeTier(risks[i]));
    if i + 1 < |names| {
      var g2 := g1.EdgeAdded(names[i], names[i + 1], EdgeTier(2, risks[i]));
      EdgeAddedValid(g1, names[i], names[i + 1], EdgeTier(2, risks[i]));
      if i + 2 < |names| {
        EdgeAddedValid(g2, names[i + 1], names[i + 2], EdgeTier(3, risks[i]));
      }
    }
  }

  /** Whatever the ids, one row brings in exactly the nodes `Created` counts. */
  lemma RowNodes(g: Graph, names: seq<string>, risks: seq<RiskLabel>, i: nat)
    requires |names| == |risks| && i < |names|
    requires g.succ.Keys == g.nodes.Keys && NodesAre(g, names, Created(i, |names|))
    ensures RowAdded(g, names, risks, i).succ.Keys == RowAdded(g, names, risks, i).nodes.Keys
    ensures NodesAre(RowAdded(g, names, risks, i), names, Created(i + 1, |names|))
  {
    var n := |names|;
    var g1 := g.NodeAdded(names[i], NodeTier(risks[i]));
    var c1 := if i == 0 then 1 else Created(i, n);
    NodeStepNodes(g, names, NodeTier(risks[i]), i);
    if i + 1 < n {
      RowEdgesNodes(g1, names, risks, i, c1);
    } else {
      assert Created(i + 1, n) == c1;
    }
  }

  lemma RowEdgesNodes(g1: Graph, names: seq<string>, risks: seq<RiskLabel>, i: nat, c1: nat)
    requires |names| == |risks| && i + 1 < |names| && i < c1 <= i + 2
    requires g1.succ.Keys == g1.nodes.Keys && NodesAre(g1, names, c1)
    ensures var g2 := g1.EdgeAdded(names[i], names[i + 1], EdgeTier(2, risks[i]));
      var r := if i + 2 < |names| then g2.EdgeAdded(names[i + 1], names[i + 2], EdgeTier(3, risks[i])) else g2;
      r.succ.Keys == r.nodes.Keys && NodesAre(r, names, Created(i + 1, |names|))
  {
    var n := |names|;
    var g2 := g1.EdgeAdded(names[i], names[i + 1], EdgeTier(2, risks[i]));
    EdgeStepNodes(g1, names, EdgeTier(2, risks[i]), i, c1, i + 2);
    if i + 2 < n {
      EdgeStepNodes(g2, names, EdgeTier(3, risks[i]), i + 1, i + 2, i + 3);
      assert Created(i + 1, n) == i + 3;
    } else {
      assert Created(i + 1, n) == i + 2;
    }
  }


  /** `add_node` of row `i` creates its node only for row 0. */
  lemma NodeStepNodes(g: Graph, names: seq<string>, attr: Attrs, i: nat)
    requires i < |names|
    requires g.succ.Keys == g.nodes.Keys && NodesAre(g, names, Created(i, |names|))
    ensures g.NodeAdded(names[i], attr).succ.Keys == g.NodeAdded(names[i], attr).nodes.Keys
    ensures NodesAre(g.NodeAdded(names[i], attr), names, if i == 0 then 1 else Created(i, |names|))
  {
    NodeAddedNodes(g, names[i], attr);
    var c1 := if i == 0 then 1 else Created(i, |names|);
    assert NameSet(names, c1) == NameSet(names, Created(i, |names|)) + {names[i]};
  }

  /** `add_edge` from `names[j]` to `names[j + 1]` when the first `c` names
      exist and `names[j + 1]` is the last of the first `c2`. */
  lemma EdgeStepNodes(g: Graph, names: seq<string>, attr: Attrs, j: nat, c: nat, c2: nat)
    requires j < c && j + 2 == c2 <= |names| && c <= c2
    requires g.succ.Keys == g.nodes.Keys && NodesAre(g, names, c)
    ensures g.EdgeAdded(names[j], names[j + 1], attr).succ.Keys == g.EdgeAdded(names[j], names[j + 1], attr).nodes.Keys
    ensures NodesAre(g.EdgeAdded(names[j], names[j + 1], attr), names, c2)
  {
    EdgeAddedNodes(g, names[j], names[j + 1], attr);
    assert names[j] in NameSet(names, c);
    assert NameSet(names, c2) == NameSet(names, c) + {names[j + 1]};
  }

  /** `names[i]` differs from every other name. */
  ghost predicate Unique(names: seq<string>, i: nat)
    requires i < |names|
  {
    forall k :: 0 <= k < |names| && k != i ==> names[k] != names[i]
  }

  lemma DistinctUnique(names: seq<string>, i: nat)
    requires i < |names| && Distinct(names)
    ensures Unique(names, i)
  {
  }

  /** Step 1 of row `i` with distinct names: `add_node` gives row `i`'s node
      its tier 1 dictionary, creating it only for row 0. */
  lemma NodeShape(g: Graph, names: seq<string>, risks: seq<RiskLabel>, i: nat)
    requires |names| == |risks| && i < |names| && Unique(names, i)
    requires Shape(g, names, risks, i, Created(i, |names|), i)
    ensures Shape(g.NodeAdded(names[i], NodeTier(risks[i])), names, risks, i + 1,
                  if i == 0 then 1 else Created(i, |names|), i)
  {
    var g1 := g.NodeAdded(names[i], NodeTier(risks[i]));
    if i == 0 {
      assert g.order == [];
      assert g1.order == [names[0]] == names[..1];
      assert g1.nodes == g.nodes[names[0] := NodeTier(risks[0])];
    } else {
      var c := Created(i, |names|);
      assert names[i] in g.succ;
      assert g1.nodes == g.nodes[names[i] := NodeTier(risks[i])];
      forall k | 0 <= k < c
        ensures names[k] in g1.nodes && g1.nodes[names[k]] == (if k < i + 1 then NodeTier(risks[k]) else NO_ATTRS)
      {
        if k != i {
          assert names[k] != names[i];
        }
      }
    }
  }

  /** Step 2 of row 0 with distinct names: the first edge, to a new node. */
  lemma Tier2FirstShape(g1: Graph, names: seq<string>, risks: seq<RiskLabel>)
    requires |names| == |risks| && 1 < |names| && Unique(names, 0) && Unique(names, 1)
    requires Shape(g1, names, risks, 1, 1, 0)
    ensures Shape(g1.EdgeAdded(names[0], names[1], EdgeTier(2, risks[0])), names, risks, 1, 2, 1)
  {
    var a, b := names[0], names[1];
    assert g1.order == [a] && a in g1.succ && g1.succ[a] == [];
    assert b !in g1.succ;
    assert (a, b) !in g1.edges;
    EdgeToNewNode(g1, a, b, EdgeTier(2, risks[0]));
    assert names[..2] == [a, b];
  }

  /** Step 2 of a later row `i` with distinct names: the tier 2 edge from row
      `i` to row `i + 1` overwrites the tier 3 edge row `i - 1` put there. */
  lemma Tier2OverwriteShape(g1: Graph, names: seq<string>, risks: seq<RiskLabel>, i: nat)
    requires |names| == |risks| && 1 <= i && i + 1 < |names| && Unique(names, i)
    requires Shape(g1, names, risks, i + 1, i + 2, i)
    ensures Shape(g1.EdgeAdded(names[i], names[i + 1], EdgeTier(2, risks[i])), names, risks, i + 1, i + 2, i + 1)
  {
    var a, b := names[i], names[i + 1];
    var g2 := g1.EdgeAdded(a, b, EdgeTier(2, risks[i]));
    assert a in g1.succ && b in g1.succ;
    assert (a, b) in g1.edges;
    EdgeReAdded(g1, a, b, EdgeTier(2, risks[i]));
    assert g2.edges == g1.edges[(a, b) := EdgeTier(2, risks[i])];
    forall j, k | 0 <= j < i + 1 && k == j + 1 && k < i + 2
      ensures (names[j], names[k]) in g2.edges && g2.edges[(names[j], names[k])] == EdgeTier(2, risks[j])
    {
      if j != i {
        assert names[j] != a;
      }
    }
  }

  /** Step 3 of row `i` with distinct names: the tier 3 edge from row `i + 1`
      to row `i + 2`, a new node and a new edge. */
  lemma Tier3Shape(g2: Graph, names: seq<string>, risks: seq<RiskLabel>, i: nat)
    requires |names| == |risks| && i + 2 < |names| && Unique(names, i + 1) && Unique(names, i + 2)
    requires Shape(g2, names, risks, i + 1, i + 2, i + 1)
    ensures Shape(g2.EdgeAdded(names[i + 1], names[i + 2], EdgeTier(3, risks[i])), names, risks, i + 1, i + 3, i + 1)
  {
    var a, b := names[i + 1], names[i + 2];
    assert a in g2.succ && g2.succ[a] == [];
    assert b !in g2.succ;
    assert (a, b) !in g2.edges;
    EdgeToNewNode(g2, a, b, EdgeTier(3, risks[i]));
    assert g2.succ[a] + [b] == [b];
    Tier3Step(g2, g2.EdgeAdded(a, b, EdgeTier(3, risks[i])), names, risks, i);
  }

  /** The tier 3 edge of row `i` as the dictionary updates it makes. */
  lemma Tier3Step(g2: Graph, g3: Graph, names: seq<string>, risks: seq<RiskLabel>, i: nat)
    requires |names| == |risks| && i + 2 < |names| && Unique(names, i + 1) && Unique(names, i + 2)
    requires Shape(g2, names, risks, i + 1, i + 2, i + 1)
    requires g3.order == g2.order + [names[i + 2]] && g3.nodes == g2.nodes[names[i + 2] := NO_ATTRS]
    requires g3.succ == g2.succ[names[i + 2] := []][names[i + 1] := [names[i + 2]]]
    requires g3.edges == g2.edges[(names[i + 1], names[i + 2]) := EdgeTier(3, risks[i])]
    ensures Shape(g3, names, risks, i + 1, i + 3, i + 1)
  {
    Tier3Nodes(g2, g3, names, risks, i);
    Tier3Links(g2, g3, names, risks, i);
  }

  lemma Tier3Nodes(g2: Graph, g3: Graph, names: seq<string>, risks: seq<RiskLabel>, i: nat)
    requires |names| == |risks| && i + 2 < |names| && Unique(names, i + 1) && Unique(names, i + 2)
    requires Shape(g2, names, risks, i + 1, i + 2, i + 1)
    requires g3.order == g2.order + [names[i + 2]] && g3.nodes == g2.nodes[names[i + 2] := NO_ATTRS]
    requires g3.succ == g2.succ[names[i + 2] := []][names[i + 1] := [names[i + 2]]]
    requires g3.edges == g2.edges[(names[i + 1], names[i + 2]) := EdgeTier(3, risks[i])]
    ensures g3.order == names[..i + 3]
    ensures forall k :: i + 3 <= k < |names| ==> names[k] !in g3.succ
    ensures forall k :: 0 <= k < i + 3 ==>
              names[k] in g3.nodes && g3.nodes[names[k]] == (if k < i + 1 then NodeTier(risks[k]) else NO_ATTRS)
    ensures forall k :: 0 <= k < i + 3 ==> names[k] in g3.succ
  {
    var a, b := names[i + 1], names[i + 2];
    assert names[..i + 3] == names[..i + 2] + [b];
    forall k | 0 <= k < i + 3
      ensures names[k] in g3.nodes && g3.nodes[names[k]] == (if k < i + 1 then NodeTier(risks[k]) else NO_ATTRS)
    {
      if k != i + 2 {
        assert names[k] != b;
      }
    }
    forall k | i + 3 <= k < |names| ensures names[k] !in g3.succ {
      assert names[k] != a && names[k] != b;
    }
  }

  lemma Tier3Links(g2: Graph, g3: Graph, names: seq<string>, risks: seq<RiskLabel>, i: nat)
    requires |names| == |risks| && i + 2 < |names| && Unique(names, i + 1) && Unique(names, i + 2)
    requires Shape(g2, names, risks, i + 1, i + 2, i + 1)
    requires g3.order == g2.order + [names[i + 2]] && g3.nodes == g2.nodes[names[i + 2] := NO_ATTRS]
    requires g3.succ == g2.succ[names[i + 2] := []][names[i + 1] := [names[i + 2]]]
    requires g3.edges == g2.edges[(names[i + 1], names[i + 2]) := EdgeTier(3, risks[i])]
    ensures forall u, v :: (u, v) in g3.edges ==> u in g3.succ && v in g3.succ[u]
    ensures g3.succ[names[i + 2]] == []
    ensures forall j, k :: 0 <= j && k == j + 1 && k < i + 3 ==> g3.succ[names[j]] == [names[k]]
    ensures forall j, k :: 0 <= j < i + 1 && k == j + 1 && k < i + 3 ==>
              (names[j], names[k]) in g3.edges && g3.edges[(names[j], names[k])] == EdgeTier(2, risks[j])
    ensures forall j, k :: 1 <= j && i + 1 <= j && k == j + 1 && k < i + 3 ==>
              (names[j], names[k]) in g3.edges && g3.edges[(names[j], names[k])] == EdgeTier(3, risks[j - 1])
  {
    var a, b := names[i + 1], names[i + 2];
    forall u, v | (u, v) in g3.edges ensures u in g3.succ && v in g3.succ[u] {
      if (u, v) != (a, b) {
        assert u in g2.succ && v in g2.succ[u];
        assert u != b && u != a;
      }
    }
    forall j, k | 0 <= j && k == j + 1 && k < i + 3 ensures g3.succ[names[j]] == [names[k]] {
      if j < i + 1 {
        assert names[j] != a && names[j] != b;
      }
    }
    forall j, k | 0 <= j < i + 1 && k == j + 1 && k < i + 3
      ensures (names[j], names[k]) in g3.edges && g3.edges[(names[j], names[k])] == EdgeTier(2, risks[j])
    {
      assert names[j] != a;
    }
    forall j, k | 1 <= j && i + 1 <= j && k == j + 1 && k < i + 3
      ensures (names[j], names[k]) in g3.edges && g3.edges[(names[j], names[k])] == EdgeTier(3, risks[j - 1])
    {
      assert j == i + 1;
    }
  }


  /** The last row adds no edge, so its tier 3 count is already complete. */
  lemma LastRowShape(g1: Graph, names: seq<string>, risks: seq<RiskLabel>, i: nat)
    requires |names| == |risks| && i + 1 == |names|
    requires Shape(g1, names, risks, i + 1, if i == 0 then 1 else Created(i, |names|), i)
    ensures Shape(g1, names, risks, i + 1, Created(i + 1, |names|), i + 1)
  {
  }

  /** One whole row with distinct names. */
  lemma RowShape(g: Graph, names: seq<string>, risks: seq<RiskLabel>, i: nat)
    requires |names| == |risks| && i < |names| && Distinct(names)
    requires Shape(g, names, risks, i, Created(i, |names|), i)
    ensures Shape(RowAdded(g, names, risks, i), names, risks, i + 1, Created(i + 1, |names|), i + 1)
  {
    DistinctUnique(names, i);
    NodeShape(g, names, risks, i);
    var g1 := g.NodeAdded(names[i], NodeTier(risks[i]));
    if i + 1 < |names| {
      RowEdgesShape(g1, names, risks, i);
    } else {
      assert (if i == 0 then 1 else Created(i, |names|)) == Created(i + 1, |names|);
      LastRowShape(g1, names, risks, i);
    }
  }

  /** The two edges of row `i` when there is a next row. */
  lemma RowEdgesShape(g1: Graph, names: seq<string>, risks: seq<RiskLabel>, i: nat)
    requires |names| == |risks| && i + 1 < |names| && Distinct(names)
    requires Shape(g1, names, risks, i + 1, if i == 0 then 1 else Created(i, |names|), i)
    ensures var g2 := g1.EdgeAdded(names[i], names[i + 1], EdgeTier(2, risks[i]));
      Shape(if i + 2 < |names| then g2.EdgeAdded(names[i + 1], names[i + 2], EdgeTier(3, risks[i])) else g2,
            names, risks, i + 1, Created(i + 1, |names|), i + 1)
  {
    DistinctUnique(names, i);
    DistinctUnique(names, i + 1);
    var g2 := g1.EdgeAdded(names[i], names[i + 1], EdgeTier(2, risks[i]));
    if i == 0 {
      Tier2FirstShape(g1, names, risks);
    } else {
      assert Created(i, |names|) == i + 2;
      Tier2OverwriteShape(g1, names, risks, i);
    }
    if i + 2 < |names| {
      DistinctUnique(names, i + 2);
      Tier3Shape(g2, names, risks, i);
      assert Created(i + 1, |names|) == i + 3;
    } else {
      assert Created(i + 1, |names|) == i + 2;
    }
  }

  /** What the builder keeps true after `i` rows: a well formed graph whose
      nodes are the names of the rows added so far and of the two rows after
      them, and, with distinct names, the shape of the chain built so far. */
  ghost predicate Built(g: Graph, names: seq<string>, risks: seq<RiskLabel>, i: nat)
    requires |names| == |risks| && i <= |names|
  {
    && g.Valid()
    && g.succ.Keys == g.nodes.Keys
    && NodesAre(g, names, Created(i, |names|))
    && (Distinct(names) ==> Shape(g, names, risks, i, Created(i, |names|), i))
  }

  /** One row keeps the builder's invariant. */
  lemma RowBuilt(g: Graph, names: seq<string>, risks: seq<RiskLabel>, i: nat)
    requires |names| == |risks| && i < |names| && Built(g, names, risks, i)
    ensures Built(RowAdded(g, names, risks, i), names, risks, i + 1)
  {
    RowValid(g, names, risks, i);
    RowNodes(g, names, risks, i);
    if Distinct(names) {
      RowShape(g, names, risks, i);
    }
  }

  /** The finished graph with distinct names: the names in table order,
      each carrying its own row's tier 1 dictionary, each linked to the next
      name only, and each link carrying its source row's tier 2
      dictionary. */
  ghost predicate ChainGraph(g: Graph, names: seq<string>, risks: seq<RiskLabel>)
    requires |names| == |risks|
  {
    && g.order == names
    && ChainSucc(g.succ, names)
    && (forall k :: 0 <= k < |names| ==> names[k] in g.nodes && g.nodes[names[k]] == NodeTier(risks[k]))
    && (forall j, k :: 0 <= j && k == j + 1 && k < |names| ==>
          (names[j], names[k]) in g.edges && g.edges[(names[j], names[k])] == EdgeTier(2, risks[j]))
  }

  /** The shape of the finished graph with distinct names is the chain. */
  lemma FinalShape(g: Graph, names: seq<string>, risks: seq<RiskLabel>)
    requires |names| == |risks| && Shape(g, names, risks, |names|, |names|, |names|)
    ensures ChainGraph(g, names, risks)
  {
    assert names[..|names|] == names;
  }

  /** A well formed chain graph lists exactly the chain's `N - 1` edges, in
      table order. */
  lemma ChainGraphEdges(g: Graph, names: seq<string>, risks: seq<RiskLabel>)
    requires |names| == |risks| && g.Valid() && ChainGraph(g, names, risks)
    ensures g.Edges() == Chain(names)
    ensures |g.Edges()| == if |names| == 0 then 0 else |names| - 1
  {
    ChainEdgeOrder(names, g.succ);
  }

  /** Edge `k` of a well formed chain graph's edge list is row `k`'s tier 2
      dictionary. */
  lemma ChainEdgesInOrder(g: Graph, names: seq<string>, risks: seq<RiskLabel>)
    requires |names| == |risks| && g.Valid() && ChainGraph(g, names, risks)
    ensures |g.Edges()| == if |names| == 0 then 0 else |names| - 1
    ensures forall k :: 0 <= k < |g.Edges()| ==>
              g.Edges()[k] in g.edges && g.edges[g.Edges()[k]] == EdgeTier(2, risks[k])
  {
    ChainGraphEdges(g, names, risks);
    forall k | 0 <= k < |g.Edges()|
      ensures g.Edges()[k] in g.edges && g.edges[g.Edges()[k]] == EdgeTier(2, risks[k])
    {
      var j := k + 1;
      assert g.Edges()[k] == (names[k], names[j]);
    }
  }

  /** A well formed chain graph is determined by the names and the labels:
      two such graphs are the same graph. In particular the builder's result
      depends on nothing else, `tiers` included. */
  lemma ChainGraphDetermined(g: Graph, h: Graph, names: seq<string>, risks: seq<RiskLabel>)
    requires |names| == |risks|
    requires g.Valid() && ChainGraph(g, names, risks) && h.Valid() && ChainGraph(h, names, risks)
    ensures g == h
  {
    SameNodes(g.nodes, h.nodes, names, risks);
    SameSucc(g.succ, h.succ, names);
    SameEdges(g.edges, h.edges, g.succ, names, risks);
  }

  lemma SameNodes(a: map<string, Attrs>, b: map<string, Attrs>, names: seq<string>, risks: seq<RiskLabel>)
    requires |names| == |risks|
    requires forall x :: x in a <==> x in names
    requires forall x :: x in b <==> x in names
    requires forall k :: 0 <= k < |names| ==> names[k] in a && a[names[k]] == NodeTier(risks[k])
    requires forall k :: 0 <= k < |names| ==> names[k] in b && b[names[k]] == NodeTier(risks[k])
    ensures a == b
  {
    forall x | x in a ensures x in b && a[x] == b[x] {
      var k :| 0 <= k < |names| && names[k] == x;
    }
  }

  lemma SameSucc(a: map<string, seq<string>>, b: map<string, seq<string>>, names: seq<string>)
    requires forall x :: x in a <==> x in names
    requires forall x :: x in b <==> x in names
    requires ChainSucc(a, names) && ChainSucc(b, names)
    ensures a == b
  {
    forall x | x in a ensures x in b && a[x] == b[x] {
      var j :| 0 <= j < |names| && names[j] == x;
      if j + 1 < |names| {
        var k := j + 1;
        assert a[names[j]] == [names[k]];
      }
    }
  }

  lemma SameEdges(a: map<Edge, Attrs>, b: map<Edge, Attrs>, succ: map<string, seq<string>>,
                  names: seq<string>, risks: seq<RiskLabel>)
    requires |names| == |risks|
    requires forall u, v :: (u, v) in a <==> u in succ && v in succ[u]
    requires forall u, v :: (u, v) in b <==> u in succ && v in succ[u]
    requires forall x :: x in succ <==> x in names
    requires ChainSucc(succ, names)
    requires forall j, k :: 0 <= j && k == j + 1 && k < |names| ==>
               (names[j], names[k]) in a && a[(names[j], names[k])] == EdgeTier(2, risks[j])
    requires forall j, k :: 0 <= j && k == j + 1 && k < |names| ==>
               (names[j], names[k]) in b && b[(names[j], names[k])] == EdgeTier(2, risks[j])
    ensures a == b
  {
    forall e | e in a ensures e in b && a[e] == b[e] {
      var (u, v) := e;
      var j :| 0 <= j < |names| && names[j] == u;
      if j + 1 < |names| {
        var k := j + 1;
        assert succ[u] == [names[k]];
      }
    }
    forall e | e in b ensures e in a {
      var (u, v) := e;
    }
  }

  /** A well formed chain graph has only tier 2 edges: no tier 3
      relationship survives. */
  lemma ChainAllTier2(g: Graph, names: seq<string>, risks: seq<RiskLabel>)
    requires |names| == |risks| && g.Valid() && ChainGraph(g, names, risks)
    ensures forall e :: e in g.edges ==> g.edges[e].tier == Some(2)
  {
    forall e | e in g.edges ensures g.edges[e].tier == Some(2) {
      var (u, v) := e;
      assert u in g.order;
      var j :| 0 <= j < |names| && names[j] == u;
      if j + 1 < |names| {
        var k := j + 1;
        assert g.succ[u] == [names[k]];
      }
    }
  }

  function Risks(table: seq<Supplier>): seq<RiskLabel> {
    seq(|table|, k requires 0 <= k < |table| => table[k].risk)
  }

  /** One pass of the builder's loop body, for row `i`: its node, an edge to
      the next row's node and one from the next row's node to the one
      after. */
  method AddRow(g: DiGraph, table: seq<Supplier>, i: nat)
    modifies g
    requires i < |table|
    ensures g.State() == RowAdded(old(g.State()), NodeNames(table), Risks(table), i)
  {
    ghost var names, risks := NodeNames(table), Risks(table);
    ghost var g1 := old(g.State()).NodeAdded(names[i], NodeTier(risks[i]));
    var supplier := NodeName(table[i].id);
    assert supplier == names[i] && table[i].risk == risks[i];
    g.AddNode(supplier, NodeTier(table[i].risk));
    assert g.State() == g1;
    if i + 1 < |table| {
      ghost var g2 := g1.EdgeAdded(names[i], names[i + 1], EdgeTier(2, risks[i]));
      var t2 := NodeName(table[i + 1].id);
      assert t2 == names[i + 1];
      g.AddEdge(supplier, t2, EdgeTier(2, table[i].risk));
      assert g.State() == g2;
      if i + 2 < |table| {
        var t3 := NodeName(table[i + 2].id);
        assert t3 == names[i + 2];
        g.AddEdge(t2, t3, EdgeTier(3, table[i].risk));
      }
    }
  }

  /** What the finished builder's invariant says about the table. */
  lemma BuiltTable(g: Graph, table: seq<Supplier>)
    requires Built(g, NodeNames(table), Risks(table), |table|)
    ensures g.Valid()
    ensures forall x :: x in g.nodes <==> x in NodeNames(table)
    ensures Distinct(Ids(table)) ==> ChainGraph(g, NodeNames(table), Risks(table))
  {
    var names, risks := NodeNames(table), Risks(table);
    assert Created(|table|, |table|) == |table|;
    forall x ensures x in NameSet(names, |names|) <==> x in names {
      if x in names {
        var k :| 0 <= k < |names| && names[k] == x;
      }
    }
    if Distinct(Ids(table)) {
      DistinctIdsDistinctNames(table);
      FinalShape(g, names, risks);
    }
  }

  /** `build_multi_tier_graph(df, tiers)`. `tiers` is never read. */
  method BuildMultiTierGraph(table: seq<Supplier>, tiers: int) returns (g: DiGraph)
    ensures fresh(g)
    ensures g.State().Valid()
    ensures forall x :: x in g.State().nodes <==> x in NodeNames(table)
    ensures Distinct(Ids(table)) ==> ChainGraph(g.State(), NodeNames(table), Risks(table))
  {
    g := new DiGraph();
    ghost var names, risks := NodeNames(table), Risks(table);
    assert NameSet(names, 0) == {};
    for i := 0 to |table|
      invariant Built(g.State(), names, risks, i)
    {
      ghost var h := g.State();
      AddRow(g, table, i);
      RowBuilt(h, names, risks, i);
    }
    BuiltTable(g.State(), table);
  }
}
