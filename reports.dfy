/** The content of `generate_compliance_report_pdf`: a title and one section
    per supplier row, in table order. */
module Reports {
  import opened Risk

  const TITLE := "ESC-M Compliance Report"
  const HEADING_PREFIX := "Supplier: "
  const NO_REPORT := "No AI report available."

  /** One supplier's part of the report: its bold heading line and the
      narrative printed under it. */
  datatype Section = Section(heading: string, body: string)

  /** The document before FPDF lays it out. */
  datatype Report = Report(title: string, sections: seq<Section>)

  function Heading(id: string): (h: string)
    ensures |h| == |HEADING_PREFIX| + |id|
    ensures h[..|HEADING_PREFIX|] == HEADING_PREFIX && h[|HEADING_PREFIX|..] == id
  {
    HEADING_PREFIX + id
  }

  /** `ai_reports.get(str(row['id']), 'No AI report available.')`. */
  function Narrative(aiReports: map<string, string>, id: string): (body: string)
    ensures id in aiReports ==> body == aiReports[id]
    ensures id !in aiReports ==> body == NO_REPORT
  {
    if id in aiReports then aiReports[id] else NO_REPORT
  }

  /** The loop over the table: one section per row, in table order. */
  method GenerateComplianceReport(table: seq<Supplier>, aiReports: map<string, string>) returns (report: Report)
    ensures report.title == TITLE
    ensures |report.sections| == |table|
    ensures forall k :: 0 <= k < |table| ==>
              report.sections[k] == Section(Heading(table[k].id), Narrative(aiReports, table[k].id))
  {
    var sections: seq<Section> := [];
    for i := 0 to |table|
      invariant |sections| == i
      invariant forall k :: 0 <= k < i ==>
                  sections[k] == Section(Heading(table[k].id), Narrative(aiReports, table[k].id))
    {
      var id := table[i].id;
      var report := if id in aiReports then aiReports[id] else NO_REPORT;
      sections := sections + [Section(HEADING_PREFIX + id, report)];
    }
    report := Report(TITLE, sections);
  }

  /** The heading names the supplier: different ids give different
      headings, and the id can be read back from the heading. */
  lemma HeadingInjective(a: string, b: string)
    ensures Heading(a) == Heading(b) <==> a == b
  {
    if Heading(a) == Heading(b) {
      assert a == Heading(a)[|HEADING_PREFIX|..];
    }
  }

  /** The body is the placeholder exactly when no narrative is stored for
      the id, or the stored one is that very text. */
  lemma PlaceholderExactly(aiReports: map<string, string>, id: string)
    ensures Narrative(aiReports, id) == NO_REPORT <==> id !in aiReports || aiReports[id] == NO_REPORT
  {
  }
}
