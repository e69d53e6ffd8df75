/**
 * The HTML report: the colour of an impact level, the order the summaries
 * are listed in, and the table row each summary becomes. The page's markup,
 * styles and script are text around these rows and are not modelled.
 */
module Webpage {
  import opened Wrappers
  import opened Strings
  import opened Sorting
  import Preprocess
  import OllamaFunctions

  // ---------------------------------------------------------------------
  // impact_color
  // ---------------------------------------------------------------------

  const Red := "#FF0000"
  const Orange := "#FFA500"
  const Green := "#00FF00"
  const Grey := "#CCCCCC"

  /** The badge colour of an impact level, compared case-insensitively; anything else is grey. */
  function ImpactColor(impact: string): (color: string)
    ensures color in {Red, Orange, Green, Grey}
  {
    var level := Lower(impact);
    if level == "high" then Red
    else if level == "medium" then Orange
    else if level == "low" then Green
    else Grey
  }

  /** The rank the report sorts by: high 3, medium 2, low 1, anything else 0, compared case-insensitively. */
  function Rank(impact: string): (r: nat)
    ensures r <= 3
  {
    var level := Lower(impact);
    if level == "high" then 3
    else if level == "medium" then 2
    else if level == "low" then 1
    else 0
  }

  /** The colour and the rank read an impact level the same way. */
  lemma ColorFollowsRank(impact: string)
    ensures ImpactColor(impact) == Red <==> Rank(impact) == 3
    ensures ImpactColor(impact) == Orange <==> Rank(impact) == 2
    ensures ImpactColor(impact) == Green <==> Rank(impact) == 1
    ensures ImpactColor(impact) == Grey <==> Rank(impact) == 0
  {
  }

  /** The label shown in the badge is the title-cased level, and it gets the same colour and rank. */
  lemma LabelKeepsColorAndRank(impact: string)
    ensures ImpactColor(Title(impact)) == ImpactColor(impact)
    ensures Rank(Title(impact)) == Rank(impact)
  {
    LowerOfTitle(impact, false);
  }

  // ---------------------------------------------------------------------
  // The summaries and their order
  // ---------------------------------------------------------------------

  /**
   * One summary as the page reads it: the component name, which must be
   * there, and the other fields as `s.get(key)` gives them, `None` when the
   * key is missing.
   */
  datatype Entry = Entry(
    component: string,
    summary: Option<string>,
    devRecs: Option<string>,
    testRecs: Option<string>,
    impactDesc: Option<string>,
    impact: Option<string>)

  /** The sort key: the rank of the entry's impact, a missing impact counting as "". */
  function ImpactRank(e: Entry): Key {
    IntKey(Rank(e.impact.GetOr("")))
  }

  /** `sorted(summaries, key=rank, reverse=True)`. */
  function SortedSummaries(summaries: seq<Entry>): seq<Entry> {
    SortBy(summaries, ImpactRank, true)
  }

  /** The report lists every summary exactly as often as it was given. */
  lemma SortedIsPermutation(summaries: seq<Entry>)
    ensures multiset(SortedSummaries(summaries)) == multiset(summaries)
  {
  }

  /** High impacts come first, then medium, then low, then everything else. */
  lemma SortedByImpact(summaries: seq<Entry>, i: nat, j: nat)
    requires i <= j < |summaries|
    ensures Rank(SortedSummaries(summaries)[i].impact.GetOr("")) >= Rank(SortedSummaries(summaries)[j].impact.GetOr(""))
  {
    var s := SortedSummaries(summaries);
    if i < j {
      assert InOrder(ImpactRank(s[i]), ImpactRank(s[j]), true);
    }
  }

  /** Summaries of equal rank stay in the order they were given. */
  lemma SortedIsStable(summaries: seq<Entry>, rank: nat)
    ensures WithKey(SortedSummaries(summaries), ImpactRank, IntKey(rank)) == WithKey(summaries, ImpactRank, IntKey(rank))
  {
    SortByStable(summaries, ImpactRank, true, IntKey(rank));
  }

  // ---------------------------------------------------------------------
  // Table rows
  // ---------------------------------------------------------------------

  /** The text of the row that replaces a missing summary. */
  const FallbackMessage := "Summary unavailable, there are too many or too varied bug reports under this component for a concise overview. Consider using more specific labels."

  /** The number of columns the fallback message spans. */
  const FallbackSpan := 5

  /** A row of the report table; both kinds link the component name to its CSV file. */
  datatype ReportRow =
    | FallbackRow(component: string, csvPath: string, span: nat, message: string)
    | FullRow(component: string, csvPath: string, summary: string, devRecs: string,
              testRecs: string, impactDesc: string, color: string, badge: string)

  /** The page: the overall summary above the table, and the rows in order. */
  datatype Page = Page(overall: string, rows: seq<ReportRow>)

  /** The summary is missing, empty or only whitespace. */
  predicate IsBlankSummary(e: Entry) {
    e.summary.None? || Strip(e.summary.value) == ""
  }

  /** The link target: the directory, "/", the component's safe file name and ".csv". */
  function CsvLink(componentsDir: string, component: string): string {
    componentsDir + "/" + Preprocess.SafeFileName(component) + ".csv"
  }

  /** The row one summary becomes. */
  function RowFor(e: Entry, componentsDir: string): (row: ReportRow)
    ensures row.component == e.component
    ensures row.csvPath == CsvLink(componentsDir, e.component)
    ensures row.FallbackRow? <==> IsBlankSummary(e)
    ensures row.FallbackRow? ==> row.span == FallbackSpan
    ensures row.FullRow? ==> row.summary == e.summary.value && Lower(row.badge) == Lower(e.impact.GetOr(""))
  {
    var csvPath := CsvLink(componentsDir, e.component);
    if IsBlankSummary(e) then
      FallbackRow(e.component, csvPath, FallbackSpan, FallbackMessage)
    else
      var impact := e.impact.GetOr("");
      LowerOfTitle(impact, false);
      FullRow(e.component, csvPath, e.summary.value, e.devRecs.GetOr(""), e.testRecs.GetOr(""),
              e.impactDesc.GetOr(""), ImpactColor(impact), Title(impact))
  }

  /**
   * `build_html_report`: one row per summary, in the sorted order, under the
   * overall summary.
   */
  method BuildHtmlReport(overallSummary: string, summaries: seq<Entry>, componentsDir: string)
    returns (page: Page)
    ensures page.overall == overallSummary
    ensures |page.rows| == |summaries|
    ensures forall k :: 0 <= k < |page.rows| ==> page.rows[k] == RowFor(SortedSummaries(summaries)[k], componentsDir)
  {
    var sorted := SortedSummaries(summaries);
    var rows: seq<ReportRow> := [];
    for i := 0 to |sorted|
      invariant |rows| == i
      invariant RowsMatch(rows, sorted, componentsDir)
    {
      var s := sorted[i];
      var csvPath := CsvLink(componentsDir, s.component);
      var row: ReportRow;
      if s.summary.None? || Strip(s.summary.value) == "" {
        row := FallbackRow(s.component, csvPath, FallbackSpan, FallbackMessage);
      } else {
        var impact := s.impact.GetOr("");
        row := FullRow(s.component, csvPath, s.summary.value, s.devRecs.GetOr(""), s.testRecs.GetOr(""),
                       s.impactDesc.GetOr(""), ImpactColor(impact), Title(impact));
        RowForFull(s, componentsDir);
      }
      RowsMatchSnoc(rows, sorted, componentsDir, row);
      rows := rows + [row];
    }
    page := Page(overallSummary, rows);
  }

  /** The rows built so far are the rows of the first summaries. */
  ghost predicate RowsMatch(rows: seq<ReportRow>, sorted: seq<Entry>, componentsDir: string) {
    |rows| <= |sorted| && forall k :: 0 <= k < |rows| ==> rows[k] == RowFor(sorted[k], componentsDir)
  }

  lemma RowsMatchSnoc(rows: seq<ReportRow>, sorted: seq<Entry>, componentsDir: string, row: ReportRow)
    requires RowsMatch(rows, sorted, componentsDir) && |rows| < |sorted|
    requires row == RowFor(sorted[|rows|], componentsDir)
    ensures RowsMatch(rows + [row], sorted, componentsDir)
  {
    var more := rows + [row];
    forall k | 0 <= k < |more| ensures more[k] == RowFor(sorted[k], componentsDir) {
      if k < |rows| {
        assert more[k] == rows[k];
      }
    }
  }

  lemma RowForFull(e: Entry, componentsDir: string)
    requires !IsBlankSummary(e)
    ensures RowFor(e, componentsDir) ==
              FullRow(e.component, CsvLink(componentsDir, e.component), e.summary.value, e.devRecs.GetOr(""),
                      e.testRecs.GetOr(""), e.impactDesc.GetOr(""), ImpactColor(e.impact.GetOr("")), Title(e.impact.GetOr("")))
  {
  }

  // ---------------------------------------------------------------------
  // Links and the files written
  // ---------------------------------------------------------------------

  /** The directory the report links into when none is given. */
  const DefaultComponentsDir := "/component_csvs"

  /** Given the directory the CSV files were written to (without a trailing "/"), every link names the file written. */
  lemma LinkNamesWrittenFile(dir: string, component: string)
    requires dir != "" && dir[|dir| - 1] != '/'
    ensures CsvLink(dir, component) == Preprocess.CsvPath(dir, component)
  {
  }

  /** The two defaults disagree: the report's links are absolute, the files are written under the working directory. */
  lemma DefaultLinkMissesDefaultFile(component: string)
    ensures CsvLink(DefaultComponentsDir, component) != Preprocess.CsvPath(Preprocess.DefaultOutputDir, component)
  {
    var link := CsvLink(DefaultComponentsDir, component);
    var path := Preprocess.CsvPath(Preprocess.DefaultOutputDir, component);
    assert link[0] == '/';
    assert path[0] == '.';
  }

  // ---------------------------------------------------------------------
  // The summaries the model produces
  // ---------------------------------------------------------------------

  /** A summary from the summary table, as the page reads it: every key is present. */
  function EntryOf(cs: OllamaFunctions.ComponentSummary): Entry {
    Entry(cs.component, Some(cs.summary), Some(cs.devRecs), Some(cs.testRecs), Some(cs.impactDesc), Some(cs.impact))
  }

  /** The three ratings the parser produces get ranks 3, 2 and 1 and the red, orange and green badges. */
  lemma RatedImpactColors(rating: string)
    requires rating in OllamaFunctions.RatingWords
    ensures rating == "HIGH" ==> Rank(rating) == 3 && ImpactColor(rating) == Red
    ensures rating == "MEDIUM" ==> Rank(rating) == 2 && ImpactColor(rating) == Orange
    ensures rating == "LOW" ==> Rank(rating) == 1 && ImpactColor(rating) == Green
  {
    assert Lower("HIGH") == "high";
    assert Lower("MEDIUM") == "medium";
    assert Lower("LOW") == "low";
  }

  /** A generated summary is never shown with the grey badge and never sorts below a rated one. */
  lemma GeneratedSummaryIsRated(cs: OllamaFunctions.ComponentSummary)
    requires cs.impact in OllamaFunctions.RatingWords
    ensures 1 <= Rank(EntryOf(cs).impact.GetOr(""))
    ensures ImpactColor(EntryOf(cs).impact.GetOr("")) != Grey
  {
    RatedImpactColors(cs.impact);
  }
}
