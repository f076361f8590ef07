/** `recommend_alternative_supplier`: among the low-risk rows, one whose
    country-sector average is closest to the selected row's. */
module Recommend {
  import opened Options
  import opened Risk

  const AVERAGE_COLUMN := "COUNTRY_SECTOR_AVERAGE"
  const NO_ALTERNATIVE_MESSAGE := "No low-risk alternative suppliers found."

  /** The outcome: the fixed message, or the recommended row. */
  datatype Recommendation = NoAlternative | Alternative(best: Supplier)

  /** pandas' `KeyError` for a column the row does not have. */
  datatype KeyError = KeyError(column: string)

  /** `row[column]`: the value of the first cell with that header. */
  function Lookup(cells: seq<Cell>, column: string): (r: Option<real>)
    ensures r.None? <==> forall k :: 0 <= k < |cells| ==> cells[k].column != column
    ensures r.Some? ==> exists k :: 0 <= k < |cells| && cells[k].column == column && cells[k].value == r.value
  {
    if cells == [] then None
    else if cells[0].column == column then Some(cells[0].value)
    else
      var r := Lookup(cells[1..], column);
      assert r.Some? ==> exists k :: 0 <= k < |cells| && cells[k].column == column && cells[k].value == r.value by {
        if r.Some? {
          var k :| 0 <= k < |cells[1..]| && cells[1..][k].column == column && cells[1..][k].value == r.value;
          assert cells[k + 1] == cells[1..][k];
        }
      }
      assert r.None? ==> forall k :: 0 <= k < |cells| ==> cells[k].column != column by {
        if r.None? {
          forall k | 0 <= k < |cells| ensures cells[k].column != column {
            if k > 0 {
              assert cells[k] == cells[1..][k - 1];
            }
          }
        }
      }
      r
  }

  /** `row['COUNTRY_SECTOR_AVERAGE']`. */
  function Average(s: Supplier): Option<real> {
    Lookup(s.cells, AVERAGE_COLUMN)
  }

  /** `df[df['Predicted_Risk'] == 'low_risk']`: the low-risk rows in table order. */
  function LowRiskRows(table: seq<Supplier>): (safe: seq<Supplier>)
    ensures |safe| <= |table|
    ensures forall s :: s in safe <==> s in table && s.risk == LowRisk
  {
    if table == [] then []
    else (if table[0].risk == LowRisk then [table[0]] else []) + LowRiskRows(table[1..])
  }

  /** `(a - b).abs()`. */
  function Distance(a: real, b: real): (d: real)
    ensures d >= 0.0
    ensures d == a - b || d == b - a
  {
    if a >= b then a - b else b - a
  }

  predicate HasAverage(rows: seq<Supplier>) {
    forall k :: 0 <= k < |rows| ==> Average(rows[k]).Some?
  }

  /** A row of `rows` at the least distance from `target` (the first such row;
      the contract promises only some minimiser). */
  function Closest(rows: seq<Supplier>, target: real): (best: Supplier)
    requires rows != [] && HasAverage(rows)
    ensures best in rows
    ensures forall s :: s in rows ==> Distance(Average(best).value, target) <= Distance(Average(s).value, target)
  {
    if |rows| == 1 then rows[0]
    else
      var rest := Closest(rows[1..], target);
      assert forall s :: s in rows[1..] ==> Average(s).Some? by {
        forall s | s in rows[1..] ensures Average(s).Some? {
          var k :| 0 <= k < |rows[1..]| && rows[1..][k] == s;
          assert rows[k + 1] == s;
        }
      }
      assert Average(rows[0]).Some?;
      if Distance(Average(rows[0]).value, target) <= Distance(Average(rest).value, target) then rows[0] else rest
  }

  /** `recommend_alternative_supplier(df, selected_row)`. The low-risk filter
      comes first, so an empty filter returns the message whatever the
      columns; otherwise a missing average column raises `KeyError`. */
  function RecommendAlternativeSupplier(table: seq<Supplier>, selected: Supplier): (r: Result<Recommendation, KeyError>)
    ensures r == Success(NoAlternative) <==> forall s :: s in table ==> s.risk != LowRisk
    ensures r.Failure? <==>
              (exists s :: s in table && s.risk == LowRisk) &&
              (Average(selected).None? || exists s :: s in table && s.risk == LowRisk && Average(s).None?)
    ensures r.Failure? ==> r.error == KeyError(AVERAGE_COLUMN)
    ensures r.Success? && r.value.Alternative? ==>
              var best := r.value.best;
              && best in table && best.risk == LowRisk
              && Average(selected).Some? && Average(best).Some?
              && forall s :: s in table && s.risk == LowRisk ==>
                   Average(s).Some? &&
                   Distance(Average(best).value, Average(selected).value) <= Distance(Average(s).value, Average(selected).value)
  {
    var safe := LowRiskRows(table);
    if safe == [] then
      assert forall s :: s in table ==> s.risk != LowRisk;
      Success(NoAlternative)
    else
      assert safe[0] in table && safe[0].risk == LowRisk;
      if !HasAverage(safe) || Average(selected).None? then
        assert !HasAverage(safe) ==> exists s :: s in table && s.risk == LowRisk && Average(s).None? by {
          if !HasAverage(safe) {
            var k :| 0 <= k < |safe| && Average(safe[k]).None?;
            assert safe[k] in safe;
          }
        }
        Failure(KeyError(AVERAGE_COLUMN))
      else
        assert forall s :: s in table && s.risk == LowRisk ==> Average(s).Some? by {
          forall s | s in table && s.risk == LowRisk ensures Average(s).Some? {
            assert s in safe;
            var k :| 0 <= k < |safe| && safe[k] == s;
          }
        }
        Success(Alternative(Closest(safe, Average(selected).value)))
  }

  /** The selected row itself may come back: a low-risk selected row in the
      table is at distance zero, so whatever is recommended is just as
      close. */
  lemma SelectedIsClosest(table: seq<Supplier>, selected: Supplier)
    requires selected in table && selected.risk == LowRisk && Average(selected).Some?
    requires forall s :: s in table && s.risk == LowRisk ==> Average(s).Some?
    ensures var r := RecommendAlternativeSupplier(table, selected);
            r.Success? && r.value.Alternative? &&
            Average(r.value.best).value == Average(selected).value
  {
    var r := RecommendAlternativeSupplier(table, selected);
    assert Distance(Average(selected).value, Average(selected).value) == 0.0;
  }

  /** The message the recommender returns. */
  function Message(rec: Recommendation): (m: string)
    ensures rec.NoAlternative? <==> m == NO_ALTERNATIVE_MESSAGE
  {
    match rec
    case NoAlternative => NO_ALTERNATIVE_MESSAGE
    case Alternative(best) =>
      "Recommended alternative: Supplier ID " + best.id + " (Risk: " + RiskName(best.risk) + ")"
  }

  /** Different labels are spelled differently, so the message names the
      recommended row's label unambiguously. */
  lemma RiskNameInjective(a: RiskLabel, b: RiskLabel)
    ensures RiskName(a) == RiskName(b) <==> a == b
  {
    if RiskName(a) == RiskName(b) {
      assert RiskName(a)[0] == RiskName(b)[0];
    }
  }

  /** The label as the `Predicted_Risk` column spells it. */
  function RiskName(r: RiskLabel): string {
    match r
    case LowRisk => "low_risk"
    case ModerateRisk => "moderate_risk"
    case HighRisk => "high_risk"
    case DangerousRisk => "dangerous_risk"
  }
}
