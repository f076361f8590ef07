/** The risk scorer (`score_esg_risk`) and the supplier table it labels. */
module Risk {
  import opened Text

  datatype RiskLabel = LowRisk | ModerateRisk | HighRisk | DangerousRisk

  /** One numeric column of a table row: its header and its value. */
  datatype Cell = Cell(column: string, value: real)

  /** A scored row of the supplier table: the `id` column, the numeric
      columns in header order, and the `Predicted_Risk` column. */
  datatype Supplier = Supplier(id: string, cells: seq<Cell>, risk: RiskLabel)

  const PRINCIPLE_TOKEN := "PRINCIPLE"

  /** A column takes part in the score when its upper-cased header contains "PRINCIPLE". */
  predicate IsPrincipleColumn(column: string) {
    Contains(Upper(column), PRINCIPLE_TOKEN)
  }

  /** The columns the list comprehension selects, in row order. */
  function PrincipleCells(cells: seq<Cell>): (r: seq<Cell>)
    ensures |r| <= |cells|
    ensures forall c :: c in r <==> c in cells && IsPrincipleColumn(c.column)
  {
    if cells == [] then []
    else (if IsPrincipleColumn(cells[0].column) then [cells[0]] else []) + PrincipleCells(cells[1..])
  }

  /** Python's `sum`: zero for no cells, never negative for non-negative
      values. */
  function Total(cells: seq<Cell>): (t: real)
    ensures cells == [] ==> t == 0.0
    ensures (forall k :: 0 <= k < |cells| ==> cells[k].value >= 0.0) ==> t >= 0.0
  {
    if cells == [] then 0.0
    else
      assert (forall k :: 0 <= k < |cells| ==> cells[k].value >= 0.0) ==>
             (forall k :: 0 <= k < |cells[1..]| ==> cells[1..][k].value >= 0.0);
      cells[0].value + Total(cells[1..])
  }

  /** `sum([row[c] for c in cols])`. */
  function PrincipleScore(cells: seq<Cell>): real {
    Total(PrincipleCells(cells))
  }

  /** A row without principle columns scores zero, and non-negative
      principle values give a non-negative score. */
  lemma PrincipleScoreBounds(cells: seq<Cell>)
    ensures (forall k :: 0 <= k < |cells| ==> !IsPrincipleColumn(cells[k].column)) ==> PrincipleScore(cells) == 0.0
    ensures (forall k :: 0 <= k < |cells| && IsPrincipleColumn(cells[k].column) ==> cells[k].value >= 0.0) ==>
              PrincipleScore(cells) >= 0.0
  {
    var selected := PrincipleCells(cells);
    if forall k :: 0 <= k < |cells| ==> !IsPrincipleColumn(cells[k].column) {
      assert forall c :: c !in selected;
    }
    if forall k :: 0 <= k < |cells| && IsPrincipleColumn(cells[k].column) ==> cells[k].value >= 0.0 {
      forall k | 0 <= k < |selected| ensures selected[k].value >= 0.0 {
        assert selected[k] in selected;
      }
    }
  }

  /** The threshold chain: each label owns one band of scores. */
  function Classify(score: real): (r: RiskLabel)
    ensures r == LowRisk <==> score < 10.0
    ensures r == ModerateRisk <==> 10.0 <= score < 20.0
    ensures r == HighRisk <==> 20.0 <= score < 30.0
    ensures r == DangerousRisk <==> 30.0 <= score
  {
    if score < 10.0 then LowRisk
    else if score < 20.0 then ModerateRisk
    else if score < 30.0 then HighRisk
    else DangerousRisk
  }

  /** `score_esg_risk(row)`: the label of the band the principle score
      falls in. */
  function ScoreEsgRisk(cells: seq<Cell>): (r: RiskLabel)
    ensures r == LowRisk <==> PrincipleScore(cells) < 10.0
    ensures r == ModerateRisk <==> 10.0 <= PrincipleScore(cells) < 20.0
    ensures r == HighRisk <==> 20.0 <= PrincipleScore(cells) < 30.0
    ensures r == DangerousRisk <==> 30.0 <= PrincipleScore(cells)
  {
    Classify(PrincipleScore(cells))
  }

  /** Severity order of the labels. */
  function Rank(r: RiskLabel): nat {
    match r
    case LowRisk => 0
    case ModerateRisk => 1
    case HighRisk => 2
    case DangerousRisk => 3
  }

  /** A larger score never yields a less severe label. */
  lemma ClassifyMonotone(a: real, b: real)
    requires a <= b
    ensures Rank(Classify(a)) <= Rank(Classify(b))
  {
  }

  /** Only "PRINCIPLE" columns count, whatever their case. */
  lemma PrincipleMatchIgnoresCase(column: string)
    ensures IsPrincipleColumn(column) <==> IsPrincipleColumn(Upper(column))
    ensures IsPrincipleColumn(column) <==> exists i: nat :: OccursAt(Upper(column), PRINCIPLE_TOKEN, i)
  {
    UpperIdempotent(column);
  }

  /** A header with no letter p in either case can never match. */
  lemma {:induction false} NoLetterPNeverMatches(column: string)
    requires forall i :: 0 <= i < |column| ==> column[i] != 'P' && column[i] != 'p'
    ensures !IsPrincipleColumn(column)
  {
    var u := Upper(column);
    forall i: nat ensures !OccursAt(u, PRINCIPLE_TOKEN, i) {
      if i + 9 <= |u| {
        assert u[i..i + 9][0] == u[i] == UpperChar(column[i]) != 'P';
      }
    }
  }

  /** A header whose first nine letters spell "principle" in any case matches. */
  lemma StartsWithPrincipleMatches(column: string)
    requires |column| >= 9 && forall i :: 0 <= i < 9 ==> UpperChar(column[i]) == PRINCIPLE_TOKEN[i]
    ensures IsPrincipleColumn(column)
  {
    assert Upper(column)[..9] == PRINCIPLE_TOKEN;
    assert OccursAt(Upper(column), PRINCIPLE_TOKEN, 0);
  }

  /** The other columns the loader keeps never match, so they never enter the score. */
  lemma OtherColumnsNeverMatch()
    ensures !IsPrincipleColumn("id")
    ensures !IsPrincipleColumn("TREND_RRI")
    ensures !IsPrincipleColumn("CURRENT_RRI")
    ensures !IsPrincipleColumn("COUNTRY_SECTOR_AVERAGE")
  {
    var id, trend, current, average := "id", "TREND_RRI", "CURRENT_RRI", "COUNTRY_SECTOR_AVERAGE";
    NoLetterPNeverMatches(id);
    NoLetterPNeverMatches(trend);
    NoLetterPNeverMatches(current);
    NoLetterPNeverMatches(average);
  }

  /** The compliance sub-scores match whatever their case. */
  lemma SubScoreColumnsMatch()
    ensures IsPrincipleColumn("principle_1_human_rights")
    ensures IsPrincipleColumn("Principle_3_Labour")
    ensures IsPrincipleColumn("PRINCIPLE_10_ANTI_CORRUPTION")
  {
    StartsWithPrincipleMatches("principle_1_human_rights");
    StartsWithPrincipleMatches("Principle_3_Labour");
    StartsWithPrincipleMatches("PRINCIPLE_10_ANTI_CORRUPTION");
  }

  /** Rewriting a non-matching column (value or header) leaves the selected columns unchanged. */
  lemma {:induction false} UpdateOtherColumn(cells: seq<Cell>, k: nat, c: Cell)
    requires k < |cells|
    requires !IsPrincipleColumn(cells[k].column) && !IsPrincipleColumn(c.column)
    ensures PrincipleCells(cells[k := c]) == PrincipleCells(cells)
  {
    if k > 0 {
      UpdateOtherColumn(cells[1..], k - 1, c);
      assert cells[k := c][1..] == cells[1..][k - 1 := c];
    } else {
      assert cells[k := c][1..] == cells[1..];
    }
  }

  /** Changing a non-PRINCIPLE column never changes the risk label. */
  lemma UpdateOtherColumnKeepsRisk(cells: seq<Cell>, k: nat, c: Cell)
    requires k < |cells|
    requires !IsPrincipleColumn(cells[k].column) && !IsPrincipleColumn(c.column)
    ensures ScoreEsgRisk(cells[k := c]) == ScoreEsgRisk(cells)
  {
    UpdateOtherColumn(cells, k, c);
  }

  /** Inserting a non-matching column anywhere leaves the selected columns unchanged. */
  lemma {:induction false} InsertOtherColumn(cells: seq<Cell>, k: nat, c: Cell)
    requires k <= |cells|
    requires !IsPrincipleColumn(c.column)
    ensures PrincipleCells(cells[..k] + [c] + cells[k..]) == PrincipleCells(cells)
  {
    if k > 0 {
      InsertOtherColumn(cells[1..], k - 1, c);
      assert (cells[..k] + [c] + cells[k..])[1..] == cells[1..][..k - 1] + [c] + cells[1..][k - 1..];
    } else {
      assert cells[..k] + [c] + cells[k..] == [c] + cells;
      assert ([c] + cells)[1..] == cells;
    }
  }

  /** Adding an extra non-PRINCIPLE column (an id, an RRI figure, ...) never changes the label. */
  lemma InsertOtherColumnKeepsRisk(cells: seq<Cell>, k: nat, c: Cell)
    requires k <= |cells|
    requires !IsPrincipleColumn(c.column)
    ensures ScoreEsgRisk(cells[..k] + [c] + cells[k..]) == ScoreEsgRisk(cells)
  {
    InsertOtherColumn(cells, k, c);
  }

  /** Appending a column adds its value to the score exactly when it matches. */
  lemma {:induction false} ScoreAppend(cells: seq<Cell>, c: Cell)
    ensures PrincipleScore(cells + [c]) == PrincipleScore(cells) + (if IsPrincipleColumn(c.column) then c.value else 0.0)
  {
    PrincipleCellsAppend(cells, c);
    TotalAppend(PrincipleCells(cells), if IsPrincipleColumn(c.column) then [c] else []);
  }

  lemma {:induction false} PrincipleCellsAppend(cells: seq<Cell>, c: Cell)
    ensures PrincipleCells(cells + [c]) == PrincipleCells(cells) + (if IsPrincipleColumn(c.column) then [c] else [])
  {
    if cells != [] {
      assert (cells + [c])[1..] == cells[1..] + [c];
      PrincipleCellsAppend(cells[1..], c);
    } else {
      assert [] + [c] == [c];
    }
  }

  lemma {:induction false} TotalAppend(a: seq<Cell>, b: seq<Cell>)
    ensures Total(a + b) == Total(a) + Total(b)
  {
    if a != [] {
      assert (a + b)[1..] == a[1..] + b;
      TotalAppend(a[1..], b);
    } else {
      assert a + b == b;
    }
  }

  /** The score of a three-column row, column by column. */
  lemma ScoreOfThree(c0: Cell, c1: Cell, c2: Cell)
    ensures PrincipleScore([c0, c1, c2]) ==
              (if IsPrincipleColumn(c0.column) then c0.value else 0.0) +
              (if IsPrincipleColumn(c1.column) then c1.value else 0.0) +
              (if IsPrincipleColumn(c2.column) then c2.value else 0.0)
  {
    ScoreAppend([], c0);
    ScoreAppend([c0], c1);
    ScoreAppend([c0, c1], c2);
    assert [] + [c0] == [c0] && [c0] + [c1] == [c0, c1] && [c0, c1] + [c2] == [c0, c1, c2];
  }

  /** Worked row A: 5 + 3 = 8 is low risk; the TREND_RRI column is ignored. */
  lemma WorkedRowLow()
    ensures ScoreEsgRisk([Cell("PRINCIPLE_1", 5.0), Cell("PRINCIPLE_2", 3.0), Cell("TREND_RRI", 40.0)]) == LowRisk
  {
    var p1, p2, trend := "PRINCIPLE_1", "PRINCIPLE_2", "TREND_RRI";
    StartsWithPrincipleMatches(p1);
    StartsWithPrincipleMatches(p2);
    NoLetterPNeverMatches(trend);
    ScoreOfThree(Cell(p1, 5.0), Cell(p2, 3.0), Cell(trend, 40.0));
  }

  /** Worked row B: 15 + 10 = 25 is high risk. */
  lemma WorkedRowHigh()
    ensures ScoreEsgRisk([Cell("PRINCIPLE_1", 15.0), Cell("PRINCIPLE_2", 10.0)]) == HighRisk
  {
    var p1, p2 := "PRINCIPLE_1", "PRINCIPLE_2";
    var c0, c1 := Cell(p1, 15.0), Cell(p2, 10.0);
    StartsWithPrincipleMatches(p1);
    StartsWithPrincipleMatches(p2);
    ScoreAppend([], c0);
    ScoreAppend([c0], c1);
    assert [] + [c0] == [c0] && [c0] + [c1] == [c0, c1];
  }

  /** Scoring the loaded table: every row gets the label of its own columns
      in its Predicted_Risk column, and nothing else in the table changes. */
  function ScoreTable(rows: seq<(string, seq<Cell>)>): (t: seq<Supplier>)
    ensures |t| == |rows|
    ensures forall k :: 0 <= k < |rows| ==>
      t[k].id == rows[k].0 && t[k].cells == rows[k].1 && t[k].risk == ScoreEsgRisk(rows[k].1)
  {
    seq(|rows|, k requires 0 <= k < |rows| => Supplier(rows[k].0, rows[k].1, ScoreEsgRisk(rows[k].1)))
  }
}
