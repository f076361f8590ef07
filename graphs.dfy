/** The part of networkx's `DiGraph` that the graph builder and renderer use:
    insertion-ordered nodes, insertion-ordered successor lists, and attribute
    dictionaries that `add_node` and `add_edge` update in place. */
module Graphs {
  import opened Options
  import opened Risk

  /** An attribute dictionary, restricted to the two keys this program
      stores: `tier` and `risk`. A missing key is `None`. */
  datatype Attrs = Attrs(tier: Option<int>, risk: Option<RiskLabel>) {
    /** Python's `d.update(attr)`: every key `attr` holds overrides. */
    function Update(attr: Attrs): (r: Attrs)
      ensures attr.tier.Some? ==> r.tier == attr.tier
      ensures attr.tier.None? ==> r.tier == tier
      ensures attr.risk.Some? ==> r.risk == attr.risk
      ensures attr.risk.None? ==> r.risk == risk
    {
      Attrs(if attr.tier.Some? then attr.tier else tier, if attr.risk.Some? then attr.risk else risk)
    }
  }

  /** The empty dictionary `{}`. */
  const NO_ATTRS := Attrs(None, None)

  type Edge = (string, string)

  predicate Distinct<T(==)>(s: seq<T>) {
    forall i, j :: 0 <= i < j < |s| ==> s[i] != s[j]
  }

  /** The out-edges of `u`, in the order of its successor list. */
  function OutPairs(u: string, vs: seq<string>): (es: seq<Edge>)
    ensures |es| == |vs|
    ensures forall k :: 0 <= k < |vs| ==> es[k] == (u, vs[k])
  {
    seq(|vs|, k requires 0 <= k < |vs| => (u, vs[k]))
  }

  /** networkx's edge view: nodes in insertion order, each followed by its
      successors in insertion order. It lists exactly the adjacency. */
  function EdgeOrder(order: seq<string>, succ: map<string, seq<string>>): (es: seq<Edge>)
    requires forall n :: n in order ==> n in succ
    ensures forall u, v :: (u, v) in es <==> u in order && v in succ[u]
  {
    if order == [] then []
    else
      var head := OutPairs(order[0], succ[order[0]]);
      assert forall u, v :: (u, v) in head <==> u == order[0] && v in succ[order[0]] by {
        forall u, v | (u, v) in head ensures u == order[0] && v in succ[order[0]] {
          var k :| 0 <= k < |head| && head[k] == (u, v);
        }
        forall u, v | u == order[0] && v in succ[order[0]] ensures (u, v) in head {
          var k :| 0 <= k < |succ[order[0]]| && succ[order[0]][k] == v;
          assert head[k] == (u, v);
        }
      }
      head + EdgeOrder(order[1..], succ)
  }

  /** The iteration order, stated from the end: the edges of a node added
      last come after all the others, in the order of its successors. */
  lemma {:induction false} EdgeOrderSnoc(order: seq<string>, n: string, succ: map<string, seq<string>>)
    requires forall m :: m in order ==> m in succ
    requires n in succ
    ensures EdgeOrder(order + [n], succ) == EdgeOrder(order, succ) + OutPairs(n, succ[n])
  {
    if order == [] {
      assert [] + [n] == [n];
      assert [n][1..] == [];
    } else {
      var longer := order + [n];
      assert longer[0] == order[0];
      assert longer[1..] == order[1..] + [n];
      assert forall m :: m in order[1..] ==> m in order;
      EdgeOrderSnoc(order[1..], n, succ);
    }
  }

  /** With distinct nodes and distinct successors, no edge is listed twice. */
  lemma {:induction false} EdgeOrderDistinct(order: seq<string>, succ: map<string, seq<string>>)
    requires forall n :: n in order ==> n in succ && Distinct(succ[n])
    requires Distinct(order)
    ensures Distinct(EdgeOrder(order, succ))
  {
    if order != [] {
      var rest := order[1..];
      assert forall n :: n in rest ==> n in order;
      EdgeOrderDistinct(rest, succ);
      var head := OutPairs(order[0], succ[order[0]]);
      var tail := EdgeOrder(rest, succ);
      assert order[0] !in rest;
      var es := head + tail;
      forall i, j | 0 <= i < j < |es| ensures es[i] != es[j] {
        if j < |head| {
        } else if i >= |head| {
          assert es[i] == tail[i - |head|] && es[j] == tail[j - |head|];
        } else {
          var (u, v) := es[j];
          assert (u, v) in tail;
          assert es[i].0 == order[0];
        }
      }
    }
  }

  /** The contents of a `DiGraph`: its node list, node dictionaries,
      successor lists and edge dictionaries. */
  datatype Graph = Graph(
    order: seq<string>,
    nodes: map<string, Attrs>,
    succ: map<string, seq<string>>,
    edges: map<Edge, Attrs>)
  {
    /** Every node is listed once; successors are nodes, listed once; an edge
        is stored exactly when its target is in its source's successor list. */
    ghost predicate Valid() {
      && (forall n :: n in nodes <==> n in order)
      && Distinct(order)
      && succ.Keys == nodes.Keys
      && (forall u :: u in succ ==> Distinct(succ[u]) && forall v :: v in succ[u] ==> v in nodes)
      && (forall u, v :: (u, v) in edges <==> u in succ && v in succ[u])
    }

    /** The dictionary of `n`, empty for a node not yet present. */
    function NodeAttrsOf(n: string): Attrs {
      if n in nodes then nodes[n] else NO_ATTRS
    }

    /** The dictionary of `e`, empty for an edge not yet present. */
    function EdgeAttrsOf(e: Edge): Attrs {
      if e in edges then edges[e] else NO_ATTRS
    }

    /** `G.edges()`: every stored edge once, in networkx's iteration order
        (nodes in insertion order, each followed by its successors; see
        EdgeOrderSnoc). */
    function Edges(): (es: seq<Edge>)
      requires Valid()
      ensures forall u, v :: (u, v) in es <==> (u, v) in edges
      ensures Distinct(es)
    {
      EdgeOrderDistinct(order, succ);
      EdgeOrder(order, succ)
    }

    /** Creating `n` with an empty dictionary and no successors unless it
        is present (networkx tests the successor table). */
    function WithNode(n: string): (r: Graph)
      ensures r.order == (if n in succ then order else order + [n]) && r.edges == edges
      ensures r.nodes == if n in succ then nodes else nodes[n := NO_ATTRS]
      ensures r.succ == if n in succ then succ else succ[n := []]
    {
      if n in succ then this else Graph(order + [n], nodes[n := NO_ATTRS], succ[n := []], edges)
    }

    /** `G.add_node(n, **attr)`: create `n` if new, then update its dictionary. */
    function NodeAdded(n: string, attr: Attrs): (r: Graph)
      ensures r.order == (if n in succ then order else order + [n]) && r.edges == edges
      ensures r.nodes == if n in succ then nodes[n := NodeAttrsOf(n).Update(attr)] else nodes[n := NO_ATTRS.Update(attr)]
      ensures r.succ == if n in succ then succ else succ[n := []]
    {
      var g := WithNode(n);
      g.(nodes := g.nodes[n := g.NodeAttrsOf(n).Update(attr)])
    }

    /** The edge part of `add_edge`, once both ends exist. */
    function Linked(u: string, v: string, attr: Attrs): (r: Graph)
      requires u in succ
      ensures r.order == order && r.nodes == nodes
      ensures r.succ == if (u, v) in edges then succ else succ[u := succ[u] + [v]]
      ensures r.edges == edges[(u, v) := EdgeAttrsOf((u, v)).Update(attr)]
    {
      if (u, v) in edges then this.(edges := edges[(u, v) := edges[(u, v)].Update(attr)])
      else this.(succ := succ[u := succ[u] + [v]], edges := edges[(u, v) := NO_ATTRS.Update(attr)])
    }

    /** `G.add_edge(u, v, **attr)`: create `u` then `v` if new, append `v` to
        the successors of `u` if the edge is new, then update the edge's
        dictionary; re-adding an edge overwrites what `attr` names and keeps
        the edge's place. */
    function EdgeAdded(u: string, v: string, attr: Attrs): Graph {
      WithNode(u).WithNode(v).Linked(u, v, attr)
    }
  }

  lemma WithNodeValid(g: Graph, n: string)
    requires g.Valid()
    ensures g.WithNode(n).Valid()
  {
  }

  /** `add_node` keeps a graph well formed. */
  lemma NodeAddedValid(g: Graph, n: string, attr: Attrs)
    requires g.Valid()
    ensures g.NodeAdded(n, attr).Valid()
  {
    WithNodeValid(g, n);
    var h := g.WithNode(n);
    ValidSameShape(h, h.(nodes := h.nodes[n := h.NodeAttrsOf(n).Update(attr)]));
  }

  /** `add_edge` keeps a graph well formed. */
  lemma EdgeAddedValid(g: Graph, u: string, v: string, attr: Attrs)
    requires g.Valid()
    ensures g.EdgeAdded(u, v, attr).Valid()
  {
    WithNodeValid(g, u);
    WithNodeValid(g.WithNode(u), v);
    LinkedValid(g.WithNode(u).WithNode(v), u, v, attr);
  }

  lemma LinkedValid(g: Graph, u: string, v: string, attr: Attrs)
    requires g.Valid() && u in g.succ && v in g.succ
    ensures g.Linked(u, v, attr).Valid()
  {
    if (u, v) in g.edges {
      ValidSameShape(g, g.Linked(u, v, attr));
    } else {
      assert v !in g.succ[u];
    }
  }

  /** `add_node` adds exactly `n` to the node set. */
  lemma NodeAddedNodes(g: Graph, n: string, attr: Attrs)
    requires g.succ.Keys == g.nodes.Keys
    ensures forall x :: x in g.NodeAdded(n, attr).nodes <==> x in g.nodes || x == n
    ensures g.NodeAdded(n, attr).succ.Keys == g.NodeAdded(n, attr).nodes.Keys
  {
  }

  /** When the successor table and the node table have the same keys, as in
      a well-formed graph, `add_edge` adds exactly its two ends to the node set. */
  lemma EdgeAddedNodes(g: Graph, u: string, v: string, attr: Attrs)
    requires g.succ.Keys == g.nodes.Keys
    ensures forall x :: x in g.EdgeAdded(u, v, attr).nodes <==> x in g.nodes || x == u || x == v
    ensures g.EdgeAdded(u, v, attr).succ.Keys == g.EdgeAdded(u, v, attr).nodes.Keys
  {
    var h := g.WithNode(u);
    assert forall x :: x in h.nodes <==> x in g.nodes || x == u;
  }

  /** `add_edge` from an existing node to a new one: the target is appended
      to the node list with an empty dictionary and becomes the last
      successor of the source. */
  lemma EdgeToNewNode(g: Graph, u: string, v: string, attr: Attrs)
    requires u in g.succ && v !in g.succ && (u, v) !in g.edges
    ensures g.EdgeAdded(u, v, attr).order == g.order + [v]
    ensures g.EdgeAdded(u, v, attr).nodes == g.nodes[v := NO_ATTRS]
    ensures g.EdgeAdded(u, v, attr).succ == g.succ[v := []][u := g.succ[u] + [v]]
    ensures g.EdgeAdded(u, v, attr).edges == g.edges[(u, v) := NO_ATTRS.Update(attr)]
  {
    var h := g.WithNode(u);
    assert h == g;
    var h2 := h.WithNode(v);
    assert u != v;
    assert h2.succ[u] == g.succ[u];
  }

  /** Every node has a successor list and every stored edge is listed in its
      source's successor list: the part of `Valid` that `add_node` and
      `add_edge` rely on. */
  ghost predicate EdgesListed(g: Graph) {
    && g.succ.Keys == g.nodes.Keys
    && forall a, b :: (a, b) in g.edges ==> a in g.succ && b in g.succ[a]
  }

  lemma ValidEdgesListed(g: Graph)
    requires g.Valid()
    ensures EdgesListed(g)
  {
  }

  /** What `add_node` promises: the node carries its old dictionary (empty
      when new) updated by `attr`, and every other node and every edge is
      kept. */
  lemma NodeAddedEffect(g: Graph, n: string, attr: Attrs)
    requires EdgesListed(g)
    ensures var r := g.NodeAdded(n, attr);
            && EdgesListed(r)
            && n in r.nodes && r.nodes[n] == g.NodeAttrsOf(n).Update(attr)
            && (forall x :: x in g.nodes && x != n ==> x in r.nodes && r.nodes[x] == g.nodes[x])
            && r.edges == g.edges
  {
  }

  /** What `add_edge` promises for the edge itself: both ends exist, `v` is
      a successor of `u`, and the edge's dictionary is its old one (empty
      when new) updated by `attr`. */
  lemma EdgeAddedEffect(g: Graph, u: string, v: string, attr: Attrs)
    requires EdgesListed(g)
    ensures var r := g.EdgeAdded(u, v, attr);
            && EdgesListed(r)
            && u in r.succ && v in r.succ && v in r.succ[u]
            && (u, v) in r.edges && r.edges[(u, v)] == g.EdgeAttrsOf((u, v)).Update(attr)
  {
    var g2 := g.WithNode(u).WithNode(v);
    assert g2.edges == g.edges;
    if (u, v) !in g.edges {
      assert v in g2.succ[u] + [v];
    }
  }

  /** What `add_edge` keeps: every other edge, every node's dictionary, and
      the node order seen so far. */
  lemma EdgeAddedKeeps(g: Graph, u: string, v: string, attr: Attrs)
    requires g.succ.Keys == g.nodes.Keys
    ensures var r := g.EdgeAdded(u, v, attr);
            && (forall e :: e in g.edges && e != (u, v) ==> e in r.edges && r.edges[e] == g.edges[e])
            && (forall x :: x in g.nodes ==> x in r.nodes && r.nodes[x] == g.nodes[x])
            && |g.order| <= |r.order| && r.order[..|g.order|] == g.order
  {
  }

  /** `add_edge` on an edge that already exists only updates its dictionary. */
  lemma EdgeReAdded(g: Graph, u: string, v: string, attr: Attrs)
    requires u in g.succ && v in g.succ && (u, v) in g.edges
    ensures g.EdgeAdded(u, v, attr).order == g.order
    ensures g.EdgeAdded(u, v, attr).nodes == g.nodes
    ensures g.EdgeAdded(u, v, attr).succ == g.succ
    ensures g.EdgeAdded(u, v, attr).edges == g.edges[(u, v) := g.edges[(u, v)].Update(attr)]
  {
    assert g.WithNode(u).WithNode(v) == g;
  }

  /** Validity depends only on which nodes and edges exist, not on their dictionaries. */
  lemma ValidSameShape(g: Graph, h: Graph)
    requires g.Valid()
    requires h.order == g.order && h.succ == g.succ
    requires h.nodes.Keys == g.nodes.Keys && h.edges.Keys == g.edges.Keys
    ensures h.Valid()
  {
  }

  /** A networkx `DiGraph` object, changed in place by `add_node` and `add_edge`. */
  class DiGraph {
    var nodeOrder: seq<string>
    var nodeAttrs: map<string, Attrs>
    var succ: map<string, seq<string>>
    var edgeAttrs: map<Edge, Attrs>

    function State(): Graph
      reads this
    {
      Graph(nodeOrder, nodeAttrs, succ, edgeAttrs)
    }

    /** `nx.DiGraph()`: the empty graph. */
    constructor ()
      ensures State().Valid()
      ensures nodeOrder == [] && nodeAttrs == map[] && succ == map[] && edgeAttrs == map[]
    {
      nodeOrder, nodeAttrs, succ, edgeAttrs := [], map[], map[], map[];
    }

    method AddNode(n: string, attr: Attrs)
      modifies this
      ensures State() == old(State()).NodeAdded(n, attr)
    {
      EnsureNode(n);
      var d := if n in nodeAttrs then nodeAttrs[n] else NO_ATTRS;
      nodeAttrs := nodeAttrs[n := d.Update(attr)];
    }

    method AddEdge(u: string, v: string, attr: Attrs)
      modifies this
      ensures State() == old(State()).EdgeAdded(u, v, attr)
    {
      EnsureNode(u);
      EnsureNode(v);
      Link(u, v, attr);
    }

    method EnsureNode(n: string)
      modifies this
      ensures State() == old(State()).WithNode(n)
    {
      if n !in succ {
        nodeOrder := nodeOrder + [n];
        nodeAttrs := nodeAttrs[n := NO_ATTRS];
        succ := succ[n := []];
      }
    }

    method Link(u: string, v: string, attr: Attrs)
      requires u in succ
      modifies this
      ensures State() == old(State()).Linked(u, v, attr)
    {
      if (u, v) in edgeAttrs {
        edgeAttrs := edgeAttrs[(u, v) := edgeAttrs[(u, v)].Update(attr)];
      } else {
        succ := succ[u := succ[u] + [v]];
        edgeAttrs := edgeAttrs[(u, v) := NO_ATTRS.Update(attr)];
      }
    }
  }
}
