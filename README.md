# ESC-M supply-chain dashboard: a verified model of its core

The Ethical Supply Chain Mapper (`esg_orc/app.py`) is a dashboard of five
tabs. The first loads a supplier table and labels each supplier with an
ESG risk level (`esg_orc/app.py:186`). The second builds and draws a
demonstration "multi-tier" supply graph (`esg_orc/app.py:197-198`). The
third asks a sanctions service and a news service about each supplier in
its own loop (`esg_orc/app.py:212-224`). The fourth asks a language model
for a report, which is not modelled. The fifth offers a compliance report,
but only behind a gate that never opens (`esg_orc/app.py:275-276`).
The file also defines `simulate_real_time_alerts` (`esg_orc/app.py:147`)
and `recommend_alternative_supplier` (`esg_orc/app.py:155`), which no tab
calls. This project models these computations in Dafny, the two uncalled
functions and the gated report generator as written, and proves what they
promise.

- **Risk scoring** (`risk.dfy`, `text.dfy`). A row is an id, its numeric
  cells in column order, and its `Predicted_Risk` label. The score sums
  the cells whose upper-cased header contains `PRINCIPLE`. It is then
  classified into four bands: below 10, below 20, below 30, and the rest.
  The proofs show:
  - each label owns exactly one band;
  - the label is monotone in the score;
  - the column test ignores case;
  - the other columns the loader keeps never take part;
  - changing or inserting a non-principle column never changes the label.
- **Graph** (`graphs.dfy`). The part of networkx's `DiGraph` the program
  uses, as a class changed in place by `AddNode` and `AddEdge`:
  - nodes and successor lists keep insertion order;
  - attribute dictionaries are merged the way `dict.update` merges them;
  - re-adding an edge updates its dictionary and keeps its place;
  - `G.edges()` lists every edge once: the nodes in insertion order, each
    followed by its successors.
- **Graph builder** (`supply_graph.dfy`). `BuildMultiTierGraph` runs the
  source's loop over the rows, and a loop invariant follows the graph row
  by row. In every case the graph is well formed and its nodes are exactly
  the `Supplier_<id>` names. With distinct ids the result is the chain
  `Supplier_<id0> -> Supplier_<id1> -> ...` in table order:
  - each node carries tier 1 and its own row's label;
  - each of the N-1 edges carries tier 2 and its source row's label;
  - the graph is determined by the ids and labels alone;
  - in particular the `tiers` argument plays no part.
- **Edge colours** (`render.dfy`). The colour loop of `draw_graph` gives
  one colour per edge, in `G.edges()` order:
  - high risk is red, moderate orange, low green;
  - a dangerous label or a missing `risk` attribute is gray.

  On the built graph with distinct ids, edge k is drawn in row k's colour.
- **Alerts** (`alerts.dfy`). `SimulateRealTimeAlerts` raises one alert
  per high- or dangerous-risk row, in row order, and nothing else. For the
  alerts tab the model decides what one supplier's block shows, given the
  answers of the sanctions and news services (`None` for a failed
  request), in the order the tab shows them:
  - the sanctions request's error line when it failed, or a sanctions
    alert carrying every match;
  - the news request's error line when it failed;
  - warnings for at most the first two articles;
  - "no alerts" exactly when neither service found anything. It comes
    last, after nothing but error lines, and is the only line when both
    services answered with nothing.
- **Recommendation** (`recommend.dfy`). With no low-risk row the result
  is the fixed message, whatever the columns. Otherwise a missing
  `COUNTRY_SECTOR_AVERAGE` is pandas' `KeyError`, and the recommended row
  is a low-risk row of the table whose average is closest to the
  selected row's. That row may be the selected row itself.
- **Compliance report** (`reports.dfy`). The document is the title and
  one section per row, in table order. Each section holds the heading
  `Supplier: <id>` and the stored narrative, or the placeholder
  `No AI report available.` when none is stored.

The builder's comment (`esg_orc/app.py:101`) speaks of tier 2 and tier 3
suppliers. Row i's tier-3 edge (`esg_orc/app.py:107`) joins the same pair
of nodes as row i+1's tier-2 edge (`esg_orc/app.py:104`). networkx keeps
one edge per ordered pair, so row i+1's `add_edge` updates that edge's
`tier` back to 2. The finished graph has N-1 edges, all tier 2
(`SupplyGraph.ChainAllTier2`).

## Model

| member | source | states |
|---|---|---|
| Text.Contains | esg_orc/app.py:83 | the substring test `"PRINCIPLE" in col.upper()` holds exactly when the token occurs at some position |
| Text.Upper | esg_orc/app.py:83 | `col.upper()`, character by character; what it does to each character is stated by `Text.UpperCases` |
| Text.UpperCases | esg_orc/app.py:83 | upper-casing keeps the length, leaves no lower-case letter, turns each lower-case letter into its capital and keeps every other character |
| Text.UpperIdempotent | esg_orc/app.py:83 | upper-casing an already upper-cased header changes nothing |
| Risk.IsPrincipleColumn | esg_orc/app.py:83 | the column test; `Risk.PrincipleMatchIgnoresCase` states that it holds iff "PRINCIPLE" occurs in the upper-cased header |
| Risk.PrincipleCells | esg_orc/app.py:83 | the selected columns are exactly the row's cells whose header matches, and no more than the row has |
| Risk.Total | esg_orc/app.py:84 | `sum`: zero for no cells, and non-negative when every value is |
| Risk.PrincipleScore | esg_orc/app.py:84 | the sum of the selected cells; `Risk.ScoreAppend` and `Risk.PrincipleScoreBounds` state what it is |
| Risk.PrincipleScoreBounds | esg_orc/app.py:83-84 | a row without principle columns scores zero, and non-negative principle values give a non-negative score |
| Risk.ScoreEsgRisk | esg_orc/app.py:81-92 | the label is low, moderate, high or dangerous exactly when the principle score is below 10, in [10, 20), in [20, 30), or at least 30 |
| Risk.Classify | esg_orc/app.py:85-92 | low risk iff score < 10, moderate iff 10 <= score < 20, high iff 20 <= score < 30, dangerous iff score >= 30 |
| Risk.ClassifyMonotone | esg_orc/app.py:85-92 | a larger score never gives a less severe label |
| Risk.PrincipleMatchIgnoresCase | esg_orc/app.py:83 | a header matches iff its upper-cased form matches, iff "PRINCIPLE" occurs in its upper-cased form |
| Risk.NoLetterPNeverMatches | esg_orc/app.py:83 | a header without the letter p in either case never enters the score |
| Risk.StartsWithPrincipleMatches | esg_orc/app.py:83 | a header starting with "principle" in any mix of cases always enters the score |
| Risk.OtherColumnsNeverMatch | esg_orc/app.py:83 | `id`, `TREND_RRI`, `CURRENT_RRI` and `COUNTRY_SECTOR_AVERAGE` never enter the score |
| Risk.SubScoreColumnsMatch | esg_orc/app.py:83 | the principle sub-score columns enter the score in upper, lower or mixed case |
| Risk.UpdateOtherColumn | esg_orc/app.py:83 | rewriting a non-matching cell into another non-matching cell leaves the selected cells unchanged |
| Risk.UpdateOtherColumnKeepsRisk | esg_orc/app.py:81-92 | such a rewrite never changes the label |
| Risk.InsertOtherColumn | esg_orc/app.py:83 | inserting a non-matching cell anywhere leaves the selected cells unchanged |
| Risk.InsertOtherColumnKeepsRisk | esg_orc/app.py:81-92 | inserting a non-matching cell anywhere never changes the label |
| Risk.PrincipleCellsAppend | esg_orc/app.py:83 | appending a cell appends it to the selection exactly when its header matches |
| Risk.TotalAppend | esg_orc/app.py:84 | the sum of two runs of cells is the sum of their sums |
| Risk.ScoreAppend | esg_orc/app.py:83-84 | appending a cell adds its value to the score exactly when its header matches |
| Risk.ScoreOfThree | esg_orc/app.py:83-84 | a three-column row scores the sum of the values of its matching columns |
| Risk.WorkedRowLow | esg_orc/app.py:81-92 | principle values 5 and 3 with a TREND_RRI of 40 give low risk |
| Risk.WorkedRowHigh | esg_orc/app.py:81-92 | principle values 15 and 10 give high risk |
| Risk.ScoreTable | esg_orc/app.py:186 | every row keeps its id and cells and gets the label of its own cells, one row per input row |
| Graphs.Attrs.Update | esg_orc/app.py:100 | `dict.update`: every key the new attributes hold overrides, every other key is kept |
| Graphs.Graph.Edges | esg_orc/app.py:114 | `G.edges()` lists exactly the stored edges, each once |
| Graphs.EdgeOrderDistinct | esg_orc/app.py:114 | with distinct nodes and distinct successors, the edge view lists no edge twice |
| Graphs.Graph.NodeAdded | esg_orc/app.py:100 | `add_node` appends a new node to the node order with no successors; the node's dictionary is its old one (empty when new) updated by the attributes; edges are kept |
| Graphs.Graph.EdgeAdded | esg_orc/app.py:104 | `add_edge`; what it adds and keeps is stated by `Graphs.EdgeAddedEffect` and `Graphs.EdgeAddedKeeps` |
| Graphs.NodeAddedEffect | esg_orc/app.py:100 | after `add_node` the node carries its old dictionary updated by the attributes, every other node and every edge is kept, and edges stay listed in their successor lists |
| Graphs.EdgeAddedEffect | esg_orc/app.py:104 | after `add_edge` both ends exist, the target is a successor of the source, and the edge's dictionary is its old one (empty when new) updated by the attributes |
| Graphs.EdgeAddedKeeps | esg_orc/app.py:104 | `add_edge` keeps every other edge's dictionary, every node's dictionary and the node order seen so far |
| Graphs.EdgeOrder | esg_orc/app.py:114 | `G.edges()` lists exactly the pairs of the stored adjacency |
| Graphs.EdgeOrderSnoc | esg_orc/app.py:114 | the edges of a node added last come after all the others, in the order of its successors; with the definition's head-first recursion this fixes the node-then-successor order |
| Graphs.DiGraph.constructor | esg_orc/app.py:96 | `nx.DiGraph()` is the empty, well-formed graph |
| Graphs.DiGraph.AddNode | esg_orc/app.py:100 | `add_node` creates the node if it is new and merges the attributes into its dictionary |
| Graphs.DiGraph.AddEdge | esg_orc/app.py:104 | `add_edge` creates missing ends and appends a new edge to its source's successors, then merges the attributes into the edge's dictionary |
| Graphs.NodeAddedValid | esg_orc/app.py:100 | `add_node` keeps the graph well formed |
| Graphs.EdgeAddedValid | esg_orc/app.py:104 | `add_edge` keeps the graph well formed |
| Graphs.NodeAddedNodes | esg_orc/app.py:100 | `add_node` adds exactly its node to the node set |
| Graphs.EdgeAddedNodes | esg_orc/app.py:104 | `add_edge` adds exactly its two ends to the node set |
| Graphs.EdgeToNewNode | esg_orc/app.py:104 | an edge to a new node appends the node with an empty dictionary and makes it the source's last successor |
| Graphs.EdgeReAdded | esg_orc/app.py:104 | re-adding an existing edge keeps nodes, order and successors and only overwrites the attributes it names |
| SupplyGraph.NodeName | esg_orc/app.py:99-106 | the node name `Supplier_<id>`; distinct ids give distinct names (NodeNameInjective) |
| SupplyGraph.NodeNameInjective | esg_orc/app.py:99 | different ids give different `Supplier_<id>` node names |
| SupplyGraph.DistinctIdsDistinctNames | esg_orc/app.py:97-103 | a table with distinct ids has distinct node names |
| SupplyGraph.ChainEdgeOrder | esg_orc/app.py:102-104 | a graph whose successor lists link each name to the next iterates its edges as the consecutive pairs in table order |
| SupplyGraph.RowAdded | esg_orc/app.py:99-107 | the loop body on the graph's value; what it adds and keeps is stated by `SupplyGraph.RowAddedEffect` and `SupplyGraph.RowAddedKeeps` |
| SupplyGraph.RowAddedEffect | esg_orc/app.py:99-107 | after row i, its node carries tier 1 and its label, the edge to row i+1 carries row i's label, and the edge from row i+1 to row i+2 carries tier 3 and row i's label |
| SupplyGraph.RowAddedKeeps | esg_orc/app.py:99-107 | row i changes no other node's dictionary and no edge other than the two it adds |
| SupplyGraph.AddRow | esg_orc/app.py:99-107 | one pass of the loop body adds row i's node, the tier-2 edge to row i+1 and the tier-3 edge from row i+1 to row i+2, as far as those rows exist |
| SupplyGraph.RowBuilt | esg_orc/app.py:98-107 | each pass keeps the builder's invariant: well formed, the nodes created so far, and for distinct ids the partial chain with its node and edge dictionaries |
| SupplyGraph.BuiltTable | esg_orc/app.py:94-108 | after the last row the graph is well formed, its nodes are exactly the rows' names, and with distinct ids it is the chain graph |
| SupplyGraph.BuildMultiTierGraph | esg_orc/app.py:94-108 | the result is well formed, its nodes are exactly the `Supplier_<id>` names, and with distinct ids it is the chain: tier-1 nodes with their own labels, and tier-2 edges to the next row with the source row's label |
| SupplyGraph.ChainGraphEdges | esg_orc/app.py:102-104 | the chain graph's edge list is exactly the N-1 consecutive pairs, in table order |
| SupplyGraph.ChainEdgesInOrder | esg_orc/app.py:102-104 | edge k of the chain graph's edge list carries tier 2 and row k's label |
| SupplyGraph.ChainGraphDetermined | esg_orc/app.py:94-108 | two well-formed chain graphs for the same names and labels are equal, so the result depends on nothing else (not on `tiers`) |
| SupplyGraph.ChainAllTier2 | esg_orc/app.py:104-107 | every edge of the chain graph has tier 2: no tier-3 dictionary survives |
| Render.EdgeColour | esg_orc/app.py:115-123 | red iff high risk, orange iff moderate, green iff low, gray iff dangerous or no risk attribute |
| Render.RiskAttributes | esg_orc/app.py:112 | the map holds exactly the edges with a risk attribute, each with that attribute |
| Render.RiskOf | esg_orc/app.py:115 | `risks.get((u, v), 'unknown')`: missing exactly when the edge has no risk attribute, and otherwise that attribute |
| Render.EdgeColours | esg_orc/app.py:113-123 | one colour per edge of `G.edges()`, in that order, each the colour of that edge's own risk |
| Render.DrawGraphColours | esg_orc/app.py:112-123 | the loop produces exactly the edge colour list |
| Render.ChainColours | esg_orc/app.py:114-123 | on the chain graph there are N-1 colours, colour k is row k's label's colour, and it is gray exactly for a dangerous row |
| Render.MultiTierGraphColours | esg_orc/app.py:197-198 | building then drawing a table with distinct ids gives N-1 colours, colour k being row k's |
| Alerts.AlertsFor | esg_orc/app.py:149-153 | the alert list, never longer than the table; its content is stated by the lemmas below |
| Alerts.Alarming | esg_orc/app.py:151 | true exactly for the high and dangerous labels |
| Alerts.SimulateRealTimeAlerts | esg_orc/app.py:147-153 | the loop returns the table's alert list |
| Alerts.AlertsCount | esg_orc/app.py:150-152 | there is exactly one alert per high- or dangerous-risk row |
| Alerts.AlertsSound | esg_orc/app.py:150-152 | every alert has an alarming label and names a row of the table with that label |
| Alerts.AlertsComplete | esg_orc/app.py:150-152 | every high- or dangerous-risk row raises its alert |
| Alerts.AlertsConcat | esg_orc/app.py:149-153 | alerts come in row order: two blocks of rows give the first block's alerts then the second's |
| Alerts.CalmTableNoAlerts | esg_orc/app.py:151 | a table of low- and moderate-risk rows raises no alert |
| Alerts.CheckSanctions | esg_orc/app.py:42-51 | flagged iff the request succeeded with a non-empty result list; the matches are that list when flagged and empty otherwise |
| Alerts.NewsFor | esg_orc/app.py:24-31 | the service's articles, or none when the request failed |
| Alerts.SanctionNotices | esg_orc/app.py:215-217 | the sanctions request's error line when it failed, an alert carrying every match when it found some, and nothing for an empty answer |
| Alerts.Warnings | esg_orc/app.py:220-222 | one warning for each of the first two articles, in order |
| Alerts.SupplierNotices | esg_orc/app.py:212-224 | a supplier's block shows the sanctions error line iff that request failed, and the news error line iff that request failed |
| Alerts.NoAlertsExactly | esg_orc/app.py:223-224 | "no alerts" is shown iff neither service found anything, and when both answered with nothing it is the only line |
| Alerts.NoAlertsLast | esg_orc/app.py:212-224 | when neither service found anything, "no alerts" is the last line and every line before it is an error line |
| Alerts.NewsWarningsFirstTwo | esg_orc/app.py:212-222 | the sanctions error line or alert comes first, the alert carrying every match; the news error line comes next; then warnings for the first (at most two) articles in order; the length counts exactly these |
| Alerts.NoticesBounds | esg_orc/app.py:212-224 | whatever the services answer, a supplier's block has between one and three lines |
| Recommend.Lookup | esg_orc/app.py:161 | `row[column]` is missing iff no cell has that header, and otherwise is the value of a cell with that header |
| Recommend.Average | esg_orc/app.py:161 | `row['COUNTRY_SECTOR_AVERAGE']`, the lookup of that column whose meaning `Recommend.Lookup` states |
| Recommend.LowRiskRows | esg_orc/app.py:157 | the filter keeps exactly the table's low-risk rows |
| Recommend.Distance | esg_orc/app.py:161 | the absolute difference: non-negative and one of the two differences |
| Recommend.Closest | esg_orc/app.py:161-162 | the first row after sorting by difference is a row at the least difference from the target |
| Recommend.RecommendAlternativeSupplier | esg_orc/app.py:155-163 | the message iff no low-risk row; `KeyError` iff a low-risk row exists and the selected row or a low-risk row lacks the average; otherwise a low-risk row of the table at the least distance from the selected row's average |
| Recommend.SelectedIsClosest | esg_orc/app.py:157-162 | a low-risk selected row from the table gets a recommendation with exactly its own average, so it may be returned itself |
| Recommend.RiskName | esg_orc/app.py:163 | the `Predicted_Risk` spelling of each label |
| Recommend.RiskNameInjective | esg_orc/app.py:163 | different labels are spelled differently, so the message's `(Risk: ...)` part names the recommended row's label unambiguously |
| Recommend.Message | esg_orc/app.py:159-163 | the fixed message is returned iff there is no alternative |
| Reports.Heading | esg_orc/app.py:139 | the heading is the prefix `Supplier: ` followed by the id |
| Reports.Narrative | esg_orc/app.py:141 | the stored narrative for the id, or the placeholder when none is stored |
| Reports.GenerateComplianceReport | esg_orc/app.py:131-143 | the title, then one section per row in table order, holding that row's heading and narrative |
| Reports.HeadingInjective | esg_orc/app.py:139 | headings of different ids differ |
| Reports.PlaceholderExactly | esg_orc/app.py:141 | the placeholder appears iff no narrative is stored for the id or the stored one is the placeholder text |

## Left out

- The Streamlit page and tabs are not modelled: uploads, buttons, the
  select box, session state and every `st.*` display call. The alerts tab
  is modelled only as the list of notices one supplier gets.
- CSV parsing and column cleaning (`esg_orc/app.py:179-181`) are left out.
  The model starts from rows of id, numeric cells and label. Both the
  row's position in the table and the loop index `i` stand for pandas'
  default 0..N-1 index.
- Values are reals. NaN, and the way a NaN score falls into the last
  band, are not modelled. Non-numeric principle columns are not modelled
  either.
- Text.Upper: upper-casing is ASCII only; the rest of Unicode case
  mapping is not modelled.
- Graphs.DiGraph.AddNode: attribute dictionaries hold only the two keys
  the program stores, `tier` and `risk`.
- BuildMultiTierGraph: for tables with repeated ids it states only that
  the graph is well formed and that its nodes are the names. The exact
  edge set that such collisions produce is not stated.
- BuildMultiTierGraph: ids are strings. The source formats `row['id']`
  with an f-string and `ids` with `astype(str)`; the model takes both to
  give the same text.
- Layout, plotting and the risk-distribution chart are left out
  (`spring_layout`, matplotlib, seaborn). The model covers only the
  colour list handed to `nx.draw`.
- The HTTP calls to the news, sanctions and AI services are not modelled.
  `CheckSanctions`, `NewsFor` and `SupplierNotices` take the service's
  answer as a parameter, with `None` for a failed request. A failed
  request's error line is modelled as a notice naming the service; the
  exception text it prints is not. The request parameters and the AI
  prompt text are not modelled.
- SimulateRealTimeAlerts: an alert is the supplier's id and its label.
  The message wording (emoji, title-cased label) is not modelled.
- Alerts.NewsWarningsFirstTwo: the warning and sanctions wording (markdown
  link, joined match names) is not modelled.
- Recommend.Message: the recommendation sentence is modelled, but the
  rendering of a non-string id is not.
- Recommend.Closest: pandas' `sort_values` is not stable, so the source
  promises only some row at the least difference. The model picks the
  first, and its contract states only "a minimiser".
- Recommend.RecommendAlternativeSupplier: cells are looked up per row,
  while pandas columns are shared by the whole table. The model is
  therefore more general, and the column-wide `KeyError` is the special
  case where every row lacks the column. The `diff` column written into
  the filtered copy is not modelled.
- GenerateComplianceReport: FPDF layout, fonts and the latin-1 encoding
  of the output are left out. The model covers only the document's title
  and sections. Nothing in the dashboard stores into `ai_reports`, so the
  tab's gate (`esg_orc/app.py:275`) never opens. The function is modelled
  as written.
- SimulateRealTimeAlerts and RecommendAlternativeSupplier: the source
  defines `simulate_real_time_alerts` and `recommend_alternative_supplier`
  but no tab calls them; the alerts tab runs its own loop
  (`esg_orc/app.py:212-224`). Both are modelled as written, and nothing
  in the model connects them to the tabs.
- The CSV download of the raw table is left out.
