/** The colour loop of `draw_graph`: one colour per edge of the graph, in the
    graph's edge order, chosen from the edge's `risk` attribute. */
module Render {
  import opened Options
  import opened Risk
  import opened Graphs
  import opened SupplyGraph

  datatype Colour = Red | Orange | Green | Gray

  /** The if-chain on one edge's risk; a missing attribute reads as
      `'unknown'` and, like `dangerous_risk`, falls through to gray. */
  function EdgeColour(risk: Option<RiskLabel>): (c: Colour)
    ensures c == Red <==> risk == Some(HighRisk)
    ensures c == Orange <==> risk == Some(ModerateRisk)
    ensures c == Green <==> risk == Some(LowRisk)
    ensures c == Gray <==> risk.None? || risk.value.DangerousRisk?
  {
    if risk == Some(HighRisk) then Red
    else if risk == Some(ModerateRisk) then Orange
    else if risk == Some(LowRisk) then Green
    else Gray
  }

  /** `nx.get_edge_attributes(G, 'risk')`: the edges that carry a risk,
      mapped to it. */
  function RiskAttributes(g: Graph): (risks: map<Edge, RiskLabel>)
    ensures forall e :: e in risks <==> e in g.edges && g.edges[e].risk.Some?
    ensures forall e :: e in risks ==> Some(risks[e]) == g.edges[e].risk
  {
    map e | e in g.edges && g.edges[e].risk.Some? :: g.edges[e].risk.value
  }

  /** `risks.get((u, v), 'unknown')`, with `None` for `'unknown'`. */
  function RiskOf(risks: map<Edge, RiskLabel>, e: Edge): (r: Option<RiskLabel>)
    ensures r.None? <==> e !in risks
    ensures r.Some? ==> r.value == risks[e]
  {
    if e in risks then Some(risks[e]) else None
  }

  /** The colour list `draw_graph` hands to `nx.draw`: one entry per edge of
      `G.edges()`, in that order, each the colour of that edge's own risk
      attribute. */
  function EdgeColours(g: Graph): (colours: seq<Colour>)
    requires g.Valid()
    ensures |colours| == |g.Edges()|
    ensures forall k :: 0 <= k < |colours| ==>
              g.Edges()[k] in g.edges && colours[k] == EdgeColour(g.edges[g.Edges()[k]].risk)
  {
    var es := g.Edges();
    var risks := RiskAttributes(g);
    assert forall k :: 0 <= k < |es| ==> es[k] in g.edges by {
      forall k | 0 <= k < |es| ensures es[k] in g.edges {
        var (u, v) := es[k];
        assert (u, v) in es;
      }
    }
    seq(|es|, k requires 0 <= k < |es| => EdgeColour(RiskOf(risks, es[k])))
  }

  /** The loop of `draw_graph` over `G.edges()`. */
  method DrawGraphColours(g: DiGraph) returns (colours: seq<Colour>)
    requires g.State().Valid()
    ensures colours == EdgeColours(g.State())
  {
    var risks := RiskAttributes(g.State());
    var es := g.State().Edges();
    colours := [];
    for k := 0 to |es|
      invariant colours == EdgeColours(g.State())[..k]
    {
      var risk := RiskOf(risks, es[k]);
      var colour;
      if risk == Some(HighRisk) {
        colour := Red;
      } else if risk == Some(ModerateRisk) {
        colour := Orange;
      } else if risk == Some(LowRisk) {
        colour := Green;
      } else {
        colour := Gray;
      }
      colours := colours + [colour];
    }
  }

  /** On the graph built from a table with distinct ids, edge `k` is drawn in
      the colour of row `k`'s label: red, orange or green for high, moderate
      and low risk, gray exactly for a dangerous row. */
  lemma ChainColours(g: Graph, names: seq<string>, risks: seq<RiskLabel>)
    requires |names| == |risks| && g.Valid() && ChainGraph(g, names, risks)
    ensures |EdgeColours(g)| == if |names| == 0 then 0 else |names| - 1
    ensures forall k :: 0 <= k < |EdgeColours(g)| ==> EdgeColours(g)[k] == EdgeColour(Some(risks[k]))
    ensures forall k :: 0 <= k < |EdgeColours(g)| ==> (EdgeColours(g)[k] == Gray <==> risks[k] == DangerousRisk)
  {
    ChainEdgesInOrder(g, names, risks);
  }

  /** The graph tab's pipeline, `draw_graph(build_multi_tier_graph(df))`, as
      far as colours go: with distinct ids there is one edge per consecutive
      pair of rows and edge `k` is drawn in row `k`'s colour. */
  method MultiTierGraphColours(table: seq<Supplier>, tiers: int) returns (colours: seq<Colour>)
    ensures Distinct(Ids(table)) ==> |colours| == if |table| == 0 then 0 else |table| - 1
    ensures Distinct(Ids(table)) ==>
              forall k :: 0 <= k < |colours| ==> colours[k] == EdgeColour(Some(table[k].risk))
  {
    var g := BuildMultiTierGraph(table, tiers);
    colours := DrawGraphColours(g);
    if Distinct(Ids(table)) {
      ChainColours(g.State(), NodeNames(table), Risks(table));
    }
  }
}
