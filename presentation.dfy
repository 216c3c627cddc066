/** What the page shows for a result: the main panel after a submission, the
    chart drawn from the chosen controls, and the sidebar transcript. */
module Presentation {
  import opened Exchanges

  /** What is shown under the result table. */
  datatype Extra = ChartControls | NotEnoughData | NoExtra

  /** The main panel: the error, the table of rows (with its extra), or the
      "no results" notice. */
  datatype View = ErrorView(message: string) | TableView(rows: seq<Row>, extra: Extra) | NoResultsView

  predicate ShowsChart(v: View)
  {
    v.TableView? && v.extra == ChartControls
  }

  predicate ShowsNotEnough(v: View)
  {
    v.TableView? && v.extra == NotEnoughData
  }

  /** The main panel, given the error and rows `run_sql` returned and the
      number of result columns pandas reports as numeric. */
  function SelectView(error: Option<string>, results: Option<seq<Row>>, numericColumns: nat): (v: View)
    ensures v.ErrorView? <==> Truthy(error)
    ensures v.ErrorView? ==> v.message == error.value
    ensures v.TableView? <==> !Truthy(error) && Truthy(results)
    ensures v.TableView? ==> v.rows == results.value
    ensures ShowsChart(v) <==> !Truthy(error) && results.Some? && numericColumns >= 1 && |results.value| > 1
    ensures ShowsNotEnough(v) <==> !Truthy(error) && results.Some? && |results.value| == 1
    ensures v.NoResultsView? <==> !Truthy(error) && (results.None? || |results.value| == 0)
    ensures !Truthy(error) && results.Some? && |results.value| > 1 && numericColumns == 0 ==>
              v == TableView(results.value, NoExtra)
  {
    if Truthy(error) then ErrorView(error.value)
    else if Truthy(results) then
      var rows := results.value;
      if numericColumns >= 1 && |rows| > 1 then TableView(rows, ChartControls)
      else if |rows| == 1 then TableView(rows, NotEnoughData)
      else TableView(rows, NoExtra)
    else NoResultsView
  }

  // ---------------------------------------------------------------------------
  // The chart

  datatype ChartKind = Bar | Line | Area

  /** The options of the chart-type selector, in the order it lists them. */
  const ChartLabels: seq<string> := ["Bar Chart", "Line Chart", "Area Chart"]

  /** The selector option that stands for a chart type. */
  function Label(k: ChartKind): (r: string)
    ensures r in ChartLabels
  {
    match k
    case Bar => ChartLabels[0]
    case Line => ChartLabels[1]
    case Area => ChartLabels[2]
  }

  /** The chart called for a selector value; other text draws nothing. */
  function KindOf(choice: string): (k: Option<ChartKind>)
    ensures k.Some? <==> choice in ChartLabels
  {
    if choice == "Bar Chart" then Some(Bar)
    else if choice == "Line Chart" then Some(Line)
    else if choice == "Area Chart" then Some(Area)
    else None
  }

  /** Each selector option draws its own chart. */
  lemma KindOfLabel(k: ChartKind)
    ensures Label(k) in ChartLabels && KindOf(Label(k)) == Some(k)
  {
  }

  /** The data handed to the chart: one column as a series, or the Y column
      indexed by the X column. */
  datatype PlotData = Series(column: string) | Indexed(index: string, column: string)

  function PlotOf(x: string, y: string): (d: PlotData)
    ensures d.column == y
    ensures d.Series? <==> x == y
    ensures d.Indexed? ==> d.index == x
  {
    if x == y then Series(y) else Indexed(x, y)
  }

  datatype Chart = Chart(kind: ChartKind, data: PlotData)

  /** The chart drawn for the chosen type and axes. */
  function ChartFor(choice: string, x: string, y: string): (c: Option<Chart>)
    ensures c.Some? <==> choice in ChartLabels
    ensures c.Some? ==> Label(c.value.kind) == choice && c.value.data == PlotOf(x, y)
  {
    match KindOf(choice)
    case None => None
    case Some(k) => Some(Chart(k, PlotOf(x, y)))
  }

  // ---------------------------------------------------------------------------
  // The sidebar

  /** What the sidebar shows under one exchange's SQL. */
  datatype Status = SidebarError(message: string) | SidebarRows(rows: seq<Row>) | SidebarNoResults

  function SidebarStatus(e: Exchange): (s: Status)
    ensures s.SidebarError? <==> Truthy(e.error)
    ensures s.SidebarError? ==> s.message == e.error.value
    ensures s.SidebarRows? <==> !Truthy(e.error) && Truthy(e.results)
    ensures s.SidebarRows? ==> s.rows == e.results.value
    ensures s == SidebarNoResults <==> !Truthy(e.error) && !Truthy(e.results)
  {
    if Truthy(e.error) then SidebarError(e.error.value)
    else if Truthy(e.results) then SidebarRows(e.results.value)
    else SidebarNoResults
  }

  /** One numbered sidebar entry. */
  datatype Item = Item(number: nat, question: string, sql: string, status: Status)

  /** The sidebar: every exchange of the session, numbered from 1, in order. */
  function Transcript(h: seq<Exchange>): (t: seq<Item>)
    ensures |t| == |h|
    ensures forall i :: 0 <= i < |h| ==>
              t[i] == Item(i + 1, h[i].user, h[i].sql, SidebarStatus(h[i]))
  {
    if h == [] then []
    else
      var n := |h| - 1;
      Transcript(h[..n]) + [Item(n + 1, h[n].user, h[n].sql, SidebarStatus(h[n]))]
  }

  /** A new exchange adds one sidebar entry at the end and leaves the others. */
  lemma TranscriptAfterAppend(h: seq<Exchange>, e: Exchange)
    ensures Transcript(h + [e]) == Transcript(h) + [Item(|h| + 1, e.user, e.sql, SidebarStatus(e))]
  {
    assert (h + [e])[..|h|] == h;
  }

  /** The sidebar's entry for an exchange agrees with the main panel shown
      for it: the same error, the same rows, or "no results" in both. */
  lemma SidebarAgreesWithMain(e: Exchange, numericColumns: nat)
    ensures var v := SelectView(e.error, e.results, numericColumns);
      (v.ErrorView? <==> SidebarStatus(e).SidebarError?) &&
      (v.TableView? <==> SidebarStatus(e).SidebarRows?) &&
      (v.NoResultsView? <==> SidebarStatus(e) == SidebarNoResults) &&
      (v.ErrorView? ==> v.message == SidebarStatus(e).message) &&
      (v.TableView? ==> v.rows == SidebarStatus(e).rows)
  {
  }
}
