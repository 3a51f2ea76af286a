/**
 * The analysis of one uploaded table, as `upload_file` runs it between
 * parsing and replying (eda-backend/app.py, lines 47-132 and 138-140):
 * normalise the names, summarise, choose the charts, compose the text.
 */
module Eda {
  import opened Wrappers
  import opened Text
  import opened Tables
  import opened Counting
  import opened Dicts
  import opened Charts
  import opened Narrative

  /** The reply `{data_summary, summary_text, plots}`, without `describe()`'s summary. */
  datatype Payload = Payload(
    columns: seq<string>,
    shape: (nat, nat),
    valueCounts: seq<(string, seq<Entry<Value>>)>,
    summaryText: string,
    plots: seq<Chart>)

  function Names(cols: seq<Column>): (r: seq<string>)
    ensures |r| == |cols|
    ensures forall i :: 0 <= i < |cols| ==> r[i] == cols[i].name
  {
    seq(|cols|, i requires 0 <= i < |cols| => cols[i].name)
  }

  /** `data_summary['value_counts']` (lines 54-58): the frequency table of every eligible categorical column. */
  function ValueCountSummary(cols: seq<Column>): seq<(string, seq<Entry<Value>>)> {
    if cols == [] then []
    else
      var last := cols[|cols| - 1];
      var d := ValueCountSummary(cols[..|cols| - 1]);
      if IsCategoricalEligible(last) then Put(d, last.name, FrequencyTable(NonMissing(last.cells))) else d
  }

  /** Each key of the value-count summary names an eligible categorical column, and its table is that column's top five. */
  lemma {:induction false} ValueCountSummaryContents(cols: seq<Column>, k: string)
    ensures k in DictKeys(ValueCountSummary(cols)) <==> exists c :: c in cols && IsCategoricalEligible(c) && c.name == k
    ensures k in DictKeys(ValueCountSummary(cols)) ==>
              exists c :: c in cols && IsCategoricalEligible(c) && c.name == k
                          && Get(ValueCountSummary(cols), k) == Some(FrequencyTable(NonMissing(c.cells)))
  {
    if cols != [] {
      var init := cols[..|cols| - 1];
      var last := cols[|cols| - 1];
      assert cols == init + [last];
      ValueCountSummaryContents(init, k);
    }
  }

  /** What the handler replies for a parsed table. */
  function Analysis(raw: Table): Result<Payload, Error> {
    var cols := NormaliseColumns(raw.columns);
    match TopFrequentSpec(cols)
    case Failure(e) => Failure(e)
    case Success(topFreq) =>
      var text := SummaryText(raw.rows, Names(cols), FreqText(topFreq), NullsText(TopNulls(cols)));
      Success(Payload(Names(cols), (raw.rows, |cols|), ValueCountSummary(cols), text, PlotList(cols)))
  }

  /** Lines 47-132: the steps in the handler's order; an error while building `top_freq` replaces the whole reply. */
  method Upload(raw: Table) returns (r: Result<Payload, Error>)
    ensures r == Analysis(raw)
  {
    var cols := NormaliseColumns(raw.columns);
    var names := Names(cols);
    var valueCounts := ValueCountSummary(cols);
    var plots := SelectCharts(cols);
    var nullsText := NullsText(TopNulls(cols));
    var topFreq := TopFrequent(cols);
    if topFreq.Failure? {
      assert Analysis(raw) == Failure(topFreq.error);
      return Failure(topFreq.error);
    }
    var freqText := FreqText(topFreq.value);
    var text := SummaryText(raw.rows, names, freqText, nullsText);
    r := Success(Payload(names, (raw.rows, |cols|), valueCounts, text, plots));
    assert Analysis(raw) == r;
  }

  // ---- what the reply promises ----

  /** The reply is an error exactly when an eligible categorical column (after renaming) has no present value. */
  lemma AnalysisFails(raw: Table)
    ensures Analysis(raw).Failure? <==>
              exists c :: c in NormaliseColumns(raw.columns) && IsCategoricalEligible(c) && NonMissing(c.cells) == []
  {
    TopFrequentFails(NormaliseColumns(raw.columns));
  }

  /** A successful reply lists the renamed columns, which hold no space and are fixed by renaming again, and the table's shape. */
  lemma AnalysisColumns(raw: Table)
    requires Analysis(raw).Success?
    ensures |Analysis(raw).value.columns| == |raw.columns|
    ensures forall i :: 0 <= i < |raw.columns| ==> Analysis(raw).value.columns[i] == Normalise(raw.columns[i].name)
    ensures forall i :: 0 <= i < |raw.columns| ==> ' ' !in Analysis(raw).value.columns[i]
    ensures forall i :: 0 <= i < |raw.columns| ==> Normalise(Analysis(raw).value.columns[i]) == Analysis(raw).value.columns[i]
    ensures Analysis(raw).value.shape == (raw.rows, |raw.columns|)
  {
    forall i | 0 <= i < |raw.columns| ensures Normalise(Normalise(raw.columns[i].name)) == Normalise(raw.columns[i].name) {
      NormaliseIdempotent(raw.columns[i].name);
    }
  }

  /** A successful reply's charts: categorical ones first, at most one per eligible column, each under the plot directory. */
  lemma AnalysisPlots(raw: Table)
    requires Analysis(raw).Success?
    ensures var cols := NormaliseColumns(raw.columns);
            var plots := Analysis(raw).value.plots;
            && plots == PlotList(cols)
            && |plots| <= |CategoricalColumns(cols)| + |NumericColumns(cols)|
            && (forall ch :: ch in plots ==> IsPlotFileUrl(ch.url))
            && (forall i, j :: 0 <= i < j < |plots| && plots[i].kind.Histogram? ==> plots[j].kind == Histogram(20))
  {
    var cols := NormaliseColumns(raw.columns);
    PlotListLength(cols);
    PlotListUrls(cols);
    PlotListOrder(cols);
  }

  /** A successful reply's text opens with the table's row and column counts. */
  lemma AnalysisShapeLine(raw: Table)
    requires Analysis(raw).Success?
    ensures StartsWith(Analysis(raw).value.summaryText, ShapeLine(raw.rows, |raw.columns|))
  {
    var cols := NormaliseColumns(raw.columns);
    SummaryShape(raw.rows, Names(cols), FreqText(TopFrequentSpec(cols).value), NullsText(TopNulls(cols)));
  }

  /** A successful reply's text ends with "... missing values: None." exactly when no renamed column has a missing value. */
  lemma AnalysisMissingLine(raw: Table)
    requires Analysis(raw).Success?
    ensures EndsWith(Analysis(raw).value.summaryText, MissingLine("None")) <==>
              forall c :: c in NormaliseColumns(raw.columns) ==> None !in c.cells
  {
    var cols := NormaliseColumns(raw.columns);
    SummaryMissingNone(raw.rows, Names(cols), FreqText(TopFrequentSpec(cols).value), TopNulls(cols));
    TopNullsEmpty(cols);
  }
}
