/**
 * The chart selector of `upload_file` (eda-backend/app.py, lines 61-112):
 * which eligible column gets which chart, under which title and which
 * URL. Drawing and saving the image are left to the renderer; a `Chart`
 * records the decision the source hands to it.
 */
module Charts {
  import opened Wrappers
  import opened Text
  import opened Sanitizer
  import opened Tables
  import opened Counting

  /** The chart kind; a histogram carries its bin count. */
  datatype ChartKind = Pie | Bar | Histogram(bins: nat)

  /** One entry of `plot_paths`: its title and URL, with the kind of chart drawn for it. */
  datatype Chart = Chart(kind: ChartKind, title: string, url: string)

  const PlotDirectory: string := "/media/plots/"
  const HistogramBins: nat := 20
  /** Up to this many distinct values a categorical column is drawn as a pie. */
  const PieLimit: nat := 5

  function PieChart(column: string): Chart {
    Chart(Pie, "Pie: " + column, PlotDirectory + Sanitize(column) + "_pie.png")
  }

  function BarChart(column: string): Chart {
    Chart(Bar, "Bar: " + column, PlotDirectory + Sanitize(column) + "_bar.png")
  }

  function HistogramChart(column: string): Chart {
    Chart(Histogram(HistogramBins), "Histogram: " + column, PlotDirectory + Sanitize(column) + "_hist.png")
  }

  /** The decision of lines 66-93 for one eligible categorical column. */
  function CategoricalChart(c: Column): Option<Chart> {
    var distinct := |DistinctValues(NonMissing(c.cells))|;
    if distinct == 0 then None
    else if distinct <= PieLimit then Some(PieChart(c.name))
    else Some(BarChart(c.name))
  }

  /** The decision of lines 98-112 for one eligible numeric column. */
  function NumericChart(c: Column): Option<Chart> {
    if |DistinctValues(NonMissing(c.cells))| < 2 then None
    else Some(HistogramChart(c.name))
  }

  function AsSeq(o: Option<Chart>): (r: seq<Chart>)
    ensures |r| <= 1
  {
    if o.Some? then [o.value] else []
  }

  /** The charts of the first loop, one or none per column, in column order. */
  function CategoricalCharts(cols: seq<Column>): (r: seq<Chart>)
    ensures |r| <= |cols|
  {
    if cols == [] then []
    else
      var init := cols[..|cols| - 1];
      assert cols == init + [cols[|cols| - 1]];
      CategoricalCharts(init) + AsSeq(CategoricalChart(cols[|cols| - 1]))
  }

  /** The histograms of the second loop, one or none per column, in column order. */
  function Histograms(cols: seq<Column>): (r: seq<Chart>)
    ensures |r| <= |cols|
  {
    if cols == [] then []
    else
      var init := cols[..|cols| - 1];
      assert cols == init + [cols[|cols| - 1]];
      Histograms(init) + AsSeq(NumericChart(cols[|cols| - 1]))
  }

  /** `plot_paths` as the two loops leave it. */
  function PlotList(cols: seq<Column>): seq<Chart> {
    CategoricalCharts(CategoricalColumns(cols)) + Histograms(NumericColumns(cols))
  }

  /** One step of the first loop: the chart of column `i`, if any, goes at the end. */
  lemma CategoricalChartsStep(plots0: seq<Chart>, cols: seq<Column>, i: nat, add: seq<Chart>)
    requires i < |cols| && add == AsSeq(CategoricalChart(cols[i]))
    ensures plots0 + CategoricalCharts(cols[..i]) + add == plots0 + CategoricalCharts(cols[..i + 1])
  {
    assert cols[..i + 1][..i] == cols[..i];
  }

  /** One step of the second loop: the histogram of column `i`, if any, goes at the end. */
  lemma HistogramsStep(plots0: seq<Chart>, cols: seq<Column>, i: nat, add: seq<Chart>)
    requires i < |cols| && add == AsSeq(NumericChart(cols[i]))
    ensures plots0 + Histograms(cols[..i]) + add == plots0 + Histograms(cols[..i + 1])
  {
    assert cols[..i + 1][..i] == cols[..i];
  }

  lemma UrlParts(clean: string, suffix: string)
    ensures PlotDirectory + (clean + suffix) == PlotDirectory + clean + suffix
  {
  }

  /** The body of the first loop, lines 66-93: the chart one categorical column gets, if any. */
  method ChooseCategoricalChart(col: Column) returns (chart: Option<Chart>)
    ensures chart == CategoricalChart(col)
  {
    var counts := ValueCounts(NonMissing(col.cells));
    if counts == [] {
      return None;
    }
    var clean := Sanitize(col.name);
    if |counts| <= PieLimit {
      var fname := clean + "_pie.png";
      UrlParts(clean, "_pie.png");
      chart := Some(Chart(Pie, "Pie: " + col.name, PlotDirectory + fname));
    } else {
      var fname := clean + "_bar.png";
      UrlParts(clean, "_bar.png");
      chart := Some(Chart(Bar, "Bar: " + col.name, PlotDirectory + fname));
    }
  }

  /** The first loop, lines 65-93: a pie or a bar for each categorical column with a present value. */
  method AppendCategoricalCharts(plots0: seq<Chart>, catCols: seq<Column>) returns (plots: seq<Chart>)
    ensures plots == plots0 + CategoricalCharts(catCols)
  {
    plots := plots0;
    for i := 0 to |catCols|
      invariant plots == plots0 + CategoricalCharts(catCols[..i])
    {
      var chart := ChooseCategoricalChart(catCols[i]);
      CategoricalChartsStep(plots0, catCols, i, AsSeq(chart));
      if chart.Some? {
        plots := plots + [chart.value];
      }
    }
    assert catCols[..|catCols|] == catCols;
  }

  /** The body of the second loop, lines 98-112: the histogram one numeric column gets, if any. */
  method ChooseHistogram(col: Column) returns (chart: Option<Chart>)
    ensures chart == NumericChart(col)
  {
    var series := NonMissing(col.cells);
    if |DistinctValues(series)| < 2 {
      return None;
    }
    var clean := Sanitize(col.name);
    var fname := clean + "_hist.png";
    UrlParts(clean, "_hist.png");
    chart := Some(Chart(Histogram(HistogramBins), "Histogram: " + col.name, PlotDirectory + fname));
  }

  /** The second loop, lines 97-112: a histogram for each numeric column with two distinct present values. */
  method AppendHistograms(plots0: seq<Chart>, numCols: seq<Column>) returns (plots: seq<Chart>)
    ensures plots == plots0 + Histograms(numCols)
  {
    plots := plots0;
    for i := 0 to |numCols|
      invariant plots == plots0 + Histograms(numCols[..i])
    {
      var chart := ChooseHistogram(numCols[i]);
      HistogramsStep(plots0, numCols, i, AsSeq(chart));
      if chart.Some? {
        plots := plots + [chart.value];
      }
    }
    assert numCols[..|numCols|] == numCols;
  }

  /** `plot_paths`, lines 61-112: the categorical charts, then the histograms. */
  method SelectCharts(cols: seq<Column>) returns (plots: seq<Chart>)
    ensures plots == PlotList(cols)
  {
    var catCols := CategoricalColumns(cols);
    plots := AppendCategoricalCharts([], catCols);
    var numCols := NumericColumns(cols);
    plots := AppendHistograms(plots, numCols);
  }

  // ---- what the selection promises ----

  /**
   * An eligible categorical column with no present value gets no chart;
   * with one to five distinct present values a pie, with more a bar.
   */
  lemma CategoricalChartDecision(c: Column)
    ensures CategoricalChart(c).None? <==> forall v :: Some(v) !in c.cells
    ensures CategoricalChart(c) == Some(PieChart(c.name)) <==> 1 <= |DistinctValues(NonMissing(c.cells))| <= 5
    ensures CategoricalChart(c) == Some(BarChart(c.name)) <==> |DistinctValues(NonMissing(c.cells))| > 5
  {
    var vals := NonMissing(c.cells);
    NonMissingMembers(c.cells);
    if vals != [] {
      assert vals[0] in DistinctValues(vals);
    }
  }

  /** An eligible numeric column gets a 20-bin histogram exactly when it holds two distinct present values. */
  lemma NumericChartDecision(c: Column)
    ensures NumericChart(c).None? <==> |DistinctValues(NonMissing(c.cells))| < 2
    ensures NumericChart(c).Some? ==> NumericChart(c).value.kind == Histogram(20)
    ensures NumericChart(c).Some? ==> NumericChart(c).value.title == "Histogram: " + c.name
    ensures NumericChart(c).Some? ==> NumericChart(c).value == HistogramChart(c.name)
  {
  }

  lemma {:induction false} CategoricalChartsMembers(cols: seq<Column>, ch: Chart)
    ensures ch in CategoricalCharts(cols) <==> exists c :: c in cols && CategoricalChart(c) == Some(ch)
  {
    if cols != [] {
      var init := cols[..|cols| - 1];
      assert cols == init + [cols[|cols| - 1]];
      CategoricalChartsMembers(init, ch);
    }
  }

  lemma {:induction false} HistogramsMembers(cols: seq<Column>, ch: Chart)
    ensures ch in Histograms(cols) <==> exists c :: c in cols && NumericChart(c) == Some(ch)
  {
    if cols != [] {
      var init := cols[..|cols| - 1];
      assert cols == init + [cols[|cols| - 1]];
      HistogramsMembers(init, ch);
    }
  }

  lemma {:induction false} CategoricalChartsArePiesOrBars(cols: seq<Column>)
    ensures forall ch :: ch in CategoricalCharts(cols) ==> ch.kind == Pie || ch.kind == Bar
  {
    forall ch | ch in CategoricalCharts(cols) ensures ch.kind == Pie || ch.kind == Bar {
      CategoricalChartsMembers(cols, ch);
    }
  }

  lemma {:induction false} HistogramsAreHistograms(cols: seq<Column>)
    ensures forall ch :: ch in Histograms(cols) ==> ch.kind == Histogram(HistogramBins)
  {
    forall ch | ch in Histograms(cols) ensures ch.kind == Histogram(HistogramBins) {
      HistogramsMembers(cols, ch);
    }
  }

  /** Every categorical chart comes before every histogram. */
  lemma PlotListOrder(cols: seq<Column>)
    ensures forall i, j :: 0 <= i < j < |PlotList(cols)| && PlotList(cols)[i].kind.Histogram?
                           ==> PlotList(cols)[j].kind == Histogram(HistogramBins)
    ensures forall i, j :: 0 <= i < j < |PlotList(cols)| && !PlotList(cols)[j].kind.Histogram?
                           ==> PlotList(cols)[i].kind == Pie || PlotList(cols)[i].kind == Bar
  {
    var cat := CategoricalCharts(CategoricalColumns(cols));
    var hist := Histograms(NumericColumns(cols));
    CategoricalChartsArePiesOrBars(CategoricalColumns(cols));
    HistogramsAreHistograms(NumericColumns(cols));
    var r := PlotList(cols);
    forall i | 0 <= i < |r| ensures (i < |cat| ==> r[i] in cat) && (i >= |cat| ==> r[i] in hist) {
      if i >= |cat| { assert r[i] == hist[i - |cat|]; }
    }
  }

  /** At most one chart per eligible column. */
  lemma PlotListLength(cols: seq<Column>)
    ensures |PlotList(cols)| <= |CategoricalColumns(cols)| + |NumericColumns(cols)|
  {
  }

  /** A chart is in the list exactly when an eligible column of the table decides for it. */
  lemma PlotListMembers(cols: seq<Column>, ch: Chart)
    ensures ch in PlotList(cols) <==>
              (exists c :: c in cols && IsCategoricalEligible(c) && CategoricalChart(c) == Some(ch))
              || (exists c :: c in cols && IsNumericEligible(c) && NumericChart(c) == Some(ch))
  {
    CategoricalColumnsMembers(cols);
    NumericColumnsMembers(cols);
    CategoricalChartsMembers(CategoricalColumns(cols), ch);
    HistogramsMembers(NumericColumns(cols), ch);
  }

  /** The URL names a `.png` file directly inside the plot directory. */
  predicate IsPlotFileUrl(url: string) {
    && StartsWith(url, PlotDirectory)
    && '/' !in url[|PlotDirectory|..]
    && |url| >= |PlotDirectory| + 4
    && url[|url| - 4..] == ".png"
  }

  lemma FileUrl(column: string, suffix: string)
    requires '/' !in suffix && |suffix| >= 4 && suffix[|suffix| - 4..] == ".png"
    ensures IsPlotFileUrl(PlotDirectory + Sanitize(column) + suffix)
  {
    var clean := Sanitize(column);
    var file := clean + suffix;
    var url := PlotDirectory + clean + suffix;
    assert url == PlotDirectory + file;
    assert url[..|PlotDirectory|] == PlotDirectory;
    assert url[|PlotDirectory|..] == file;
    SanitizeIsSafe(column);
    assert '/' !in clean by {
      assert IsUnsafe('/');
    }
    forall i | 0 <= i < |file|
      ensures file[i] != '/'
    {
      if i < |clean| {
        assert file[i] == clean[i];
      } else {
        assert file[i] == suffix[i - |clean|];
      }
    }
    assert url[|url| - 4..] == suffix[|suffix| - 4..] by {
      assert url == (PlotDirectory + clean) + suffix;
    }
  }

  lemma SuffixFacts()
    ensures '/' !in "_pie.png" && "_pie.png"[|"_pie.png"| - 4..] == ".png"
    ensures '/' !in "_bar.png" && "_bar.png"[|"_bar.png"| - 4..] == ".png"
    ensures '/' !in "_hist.png" && "_hist.png"[|"_hist.png"| - 4..] == ".png"
  {
  }

  lemma ChartUrls(c: Column)
    ensures CategoricalChart(c).Some? ==> IsPlotFileUrl(CategoricalChart(c).value.url)
    ensures NumericChart(c).Some? ==> IsPlotFileUrl(NumericChart(c).value.url)
  {
    SuffixFacts();
    FileUrl(c.name, "_pie.png");
    FileUrl(c.name, "_bar.png");
    FileUrl(c.name, "_hist.png");
  }

  /** Every chart's URL names a `.png` file directly inside the plot directory. */
  lemma PlotListUrls(cols: seq<Column>)
    ensures forall ch :: ch in PlotList(cols) ==> IsPlotFileUrl(ch.url)
  {
    forall ch | ch in PlotList(cols) ensures IsPlotFileUrl(ch.url) {
      PlotListMembers(cols, ch);
      var c :| c in cols && (CategoricalChart(c) == Some(ch) || NumericChart(c) == Some(ch));
      ChartUrls(c);
    }
  }

  lemma SanitizeAroundOne(c: char)
    requires IsUnsafe(c)
    ensures Sanitize(['a', c, 'b']) == "a_b"
  {
    SanitizeMaximalRun("a", [c], "b");
    assert "a" + [c] + "b" == ['a', c, 'b'];
    SanitizeKeeps('a');
    SanitizeKeeps('b');
  }

  /** Two different column names can share a file name: the later chart overwrites the earlier image. */
  lemma UrlsCanCollide()
    ensures "a:b" != "a?b" && PieChart("a:b").url == PieChart("a?b").url
  {
    SanitizeAroundOne(':');
    SanitizeAroundOne('?');
    assert "a:b" == ['a', ':', 'b'];
    assert "a?b" == ['a', '?', 'b'];
  }
}
