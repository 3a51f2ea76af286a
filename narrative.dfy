/**
 * The narrative of `upload_file` (eda-backend/app.py, lines 115-132):
 * the most frequent value of every eligible categorical column, the
 * columns with the most missing values, the first column names, and the
 * four-line text assembled from them.
 */
module Narrative {
  import opened Wrappers
  import opened Text
  import opened Tables
  import opened Counting
  import opened Dicts

  /** `idxmax()` on an empty value count raises; the handler turns that into its error reply (lines 138-140). */
  datatype Error = ArgmaxOfEmpty(column: string)

  /** `top_freq` (lines 119-123) as the loop leaves it: the first column whose count is empty aborts it. */
  function TopFrequentSpec(cols: seq<Column>): Result<seq<(string, Value)>, Error> {
    if cols == [] then Success([])
    else
      var last := cols[|cols| - 1];
      match TopFrequentSpec(cols[..|cols| - 1])
      case Failure(e) => Failure(e)
      case Success(d) =>
        if !IsCategoricalEligible(last) then Success(d)
        else match Mode(NonMissing(last.cells))
          case None => Failure(ArgmaxOfEmpty(last.name))
          case Some(v) => Success(Put(d, last.name, v))
  }

  lemma TopFrequentPrefixFails(cols: seq<Column>, i: nat)
    requires i <= |cols| && TopFrequentSpec(cols[..i]).Failure?
    ensures TopFrequentSpec(cols) == TopFrequentSpec(cols[..i])
    decreases |cols| - i
  {
    if i < |cols| {
      var pre := cols[..i + 1];
      assert pre[..|pre| - 1] == cols[..i];
      assert TopFrequentSpec(pre) == TopFrequentSpec(cols[..i]);
      TopFrequentPrefixFails(cols, i + 1);
    } else {
      assert cols[..i] == cols;
    }
  }

  /** The loop of lines 119-123. */
  method TopFrequent(cols: seq<Column>) returns (r: Result<seq<(string, Value)>, Error>)
    ensures r == TopFrequentSpec(cols)
  {
    var topFreq: seq<(string, Value)> := [];
    for i := 0 to |cols|
      invariant TopFrequentSpec(cols[..i]) == Success(topFreq)
    {
      var col := cols[i];
      assert cols[..i + 1][..i] == cols[..i];
      if col.kind == Categorical {
        if col.name != "name" && !Contains(col.name, "name") {
          var counts := ValueCounts(NonMissing(col.cells));
          ValueCountsHeadIsMax(NonMissing(col.cells));
          if counts == [] {
            r := Failure(ArgmaxOfEmpty(col.name));
            TopFrequentPrefixFails(cols, i + 1);
            return;
          }
          var mostCommon := counts[0].key;
          topFreq := Put(topFreq, col.name, mostCommon);
        }
      }
    }
    assert cols[..|cols|] == cols;
    r := Success(topFreq);
  }

  /** Building `top_freq` fails exactly when some eligible categorical column has no present value. */
  lemma {:induction false} TopFrequentFails(cols: seq<Column>)
    ensures TopFrequentSpec(cols).Failure? <==>
              exists c :: c in cols && IsCategoricalEligible(c) && NonMissing(c.cells) == []
  {
    if cols != [] {
      var init := cols[..|cols| - 1];
      assert cols == init + [cols[|cols| - 1]];
      TopFrequentFails(init);
    }
  }

  /** On success `top_freq` has one key per name of an eligible categorical column, each once. */
  lemma {:induction false} TopFrequentKeys(cols: seq<Column>)
    requires TopFrequentSpec(cols).Success?
    ensures DistinctKeys(TopFrequentSpec(cols).value)
    ensures forall k :: k in DictKeys(TopFrequentSpec(cols).value) <==>
              exists c :: c in cols && IsCategoricalEligible(c) && c.name == k
  {
    if cols != [] {
      var init := cols[..|cols| - 1];
      var last := cols[|cols| - 1];
      assert cols == init + [last];
      TopFrequentKeys(init);
      var d := TopFrequentSpec(init).value;
      var r := TopFrequentSpec(cols).value;
      if IsCategoricalEligible(last) {
        var m := Mode(NonMissing(last.cells));
        assert r == Put(d, last.name, m.value);
        assert DictKeys(r) == if last.name in DictKeys(d) then DictKeys(d) else DictKeys(d) + [last.name];
      } else {
        assert r == d;
      }
    }
  }

  /** On success `top_freq` maps each key to a most frequent value of an eligible categorical column of that name. */
  lemma {:induction false} TopFrequentValues(cols: seq<Column>, k: string)
    requires TopFrequentSpec(cols).Success? && k in DictKeys(TopFrequentSpec(cols).value)
    ensures exists c :: c in cols && IsCategoricalEligible(c) && c.name == k
                        && IsMostFrequent(Get(TopFrequentSpec(cols).value, k).value, NonMissing(c.cells))
  {
    var init := cols[..|cols| - 1];
    var last := cols[|cols| - 1];
    assert cols == init + [last];
    var d := TopFrequentSpec(init).value;
    if IsCategoricalEligible(last) && last.name == k {
      var m := Mode(NonMissing(last.cells));
      assert Get(TopFrequentSpec(cols).value, k) == m;
    } else {
      assert Get(TopFrequentSpec(cols).value, k) == Get(d, k);
      TopFrequentValues(init, k);
    }
  }

  /** `v` is present and no value occurs more often. */
  predicate IsMostFrequent(v: Value, vals: seq<Value>) {
    v in vals && forall w :: w in vals ==> Occurrences(vals, w) <= Occurrences(vals, v)
  }

  // ---- the text ----

  /** `x or "None"` for a joined string: an empty join falls back to the literal. */
  function OrNone(s: string): string {
    if s == "" then "None" else s
  }

  function FreqItems(d: seq<(string, Value)>): (r: seq<string>)
    ensures |r| == |d|
    ensures forall i :: 0 <= i < |d| ==> ':' in r[i]
  {
    seq(|d|, i requires 0 <= i < |d| => d[i].0 + ": " + d[i].1)
  }

  /** `freq_text` (line 125). */
  function FreqText(d: seq<(string, Value)>): string {
    OrNone(Join(FreqItems(d), ", "))
  }

  function NullItems(top: seq<Entry<string>>): (r: seq<string>)
    ensures |r| == |top|
    ensures forall i :: 0 <= i < |top| ==> '(' in r[i]
  {
    seq(|top|, i requires 0 <= i < |top| => top[i].key + " (" + NatToString(top[i].count) + " nulls)")
  }

  /** `top_nulls_text` (line 117). */
  function NullsText(top: seq<Entry<string>>): string {
    OrNone(Join(NullItems(top), ", "))
  }

  /** The literal "None" is shown exactly when there is nothing to list. */
  lemma FreqTextNone(d: seq<(string, Value)>)
    ensures FreqText(d) == "None" <==> d == []
  {
    if d != [] {
      JoinContains(FreqItems(d), ", ", 0, ':');
    }
  }

  /** The literal "None" is shown exactly when no entry is ranked. */
  lemma NullsTextNone(top: seq<Entry<string>>)
    ensures NullsText(top) == "None" <==> top == []
  {
    if top != [] {
      JoinContains(NullItems(top), ", ", 0, '(');
    }
  }

  /** A non-empty ranking is listed as items that each end in "nulls)". */
  lemma NullsTextEnd(top: seq<Entry<string>>)
    requires top != []
    ensures NullsText(top) != [] && NullsText(top)[|NullsText(top)| - 1] == ')'
  {
    var items := NullItems(top);
    var last := items[|items| - 1];
    assert last[|last| - 1] == ')';
    JoinLastChar(items, ", ");
  }

  /** The missing-values line reads "None" exactly when no column has a missing value. */
  lemma NullsLineNone(cols: seq<Column>)
    ensures NullsText(TopNulls(cols)) == "None" <==> forall c :: c in cols ==> None !in c.cells
  {
    NullsTextNone(TopNulls(cols));
    TopNullsEmpty(cols);
  }

  /** The frequent-values line reads "None" exactly when there is no eligible categorical column. */
  lemma FreqLineNone(cols: seq<Column>)
    requires TopFrequentSpec(cols).Success?
    ensures FreqText(TopFrequentSpec(cols).value) == "None" <==> forall c :: c in cols ==> !IsCategoricalEligible(c)
  {
    var d := TopFrequentSpec(cols).value;
    FreqTextNone(d);
    TopFrequentKeys(cols);
    if d != [] {
      assert d[0].0 in DictKeys(d);
    }
  }

  /** The column line of line 129: the first five names, then "..." only when there are more. */
  function ColumnsLine(names: seq<string>): (r: string)
    ensures |names| <= 5 ==> r == Join(names, ", ")
    ensures |names| > 5 ==> r == Join(names[..5], ", ") + "..."
  {
    Join(Take(names, 5), ", ") + (if |names| > 5 then "..." else "")
  }

  /** The first line of the summary (line 128): the shape. */
  function ShapeLine(rows: nat, columns: nat): string {
    "\U{1F4CA} Dataset contains " + NatToString(rows) + " rows and " + NatToString(columns) + " columns.\n"
  }

  /** The last line of the summary (line 131). */
  function MissingLine(nullsText: string): string {
    "\U{2757} Columns with most missing values: " + nullsText + "."
  }

  /** `summary_text` (lines 127-132). */
  function SummaryText(rows: nat, names: seq<string>, freqText: string, nullsText: string): string {
    ShapeLine(rows, |names|)
    + "\U{1F9F1} Columns: " + ColumnsLine(names) + ".\n"
    + "\U{1F50D} Top frequent values: " + freqText + ".\n"
    + MissingLine(nullsText)
  }

  /** The text opens with the row and column counts, in decimal. */
  lemma SummaryShape(rows: nat, names: seq<string>, freqText: string, nullsText: string)
    ensures StartsWith(SummaryText(rows, names, freqText, nullsText), ShapeLine(rows, |names|))
  {
    var head := ShapeLine(rows, |names|);
    var rest := "\U{1F9F1} Columns: " + ColumnsLine(names) + ".\n"
                + "\U{1F50D} Top frequent values: " + freqText + ".\n"
                + MissingLine(nullsText);
    assert SummaryText(rows, names, freqText, nullsText) == head + rest;
  }

  /** The text ends with the line "... missing values: None." exactly when the null ranking is empty. */
  lemma SummaryMissingNone(rows: nat, names: seq<string>, freqText: string, top: seq<Entry<string>>)
    ensures EndsWith(SummaryText(rows, names, freqText, NullsText(top)), MissingLine("None")) <==> top == []
  {
    var nt := NullsText(top);
    var t := SummaryText(rows, names, freqText, nt);
    var head := ShapeLine(rows, |names|)
                + "\U{1F9F1} Columns: " + ColumnsLine(names) + ".\n"
                + "\U{1F50D} Top frequent values: " + freqText + ".\n";
    var none := MissingLine("None");
    assert t == head + MissingLine(nt);
    if top == [] {
      NullsTextNone(top);
      assert t[|t| - |none|..] == none;
    } else {
      NullsTextEnd(top);
      var line := MissingLine(nt);
      assert line[|line| - 2] == ')';
      assert t[|t| - 2] == ')';
      assert none[|none| - 2] == 'e';
    }
  }
}
