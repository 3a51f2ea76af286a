/**
 * The abstract table the analysis works on, the column-name
 * normalisation applied right after parsing (eda-backend/app.py,
 * line 48) and the column classifier (lines 57, 63-64, 95-96, 121).
 */
module Tables {
  import opened Wrappers
  import opened Text

  /** The dtype group a column falls in: `object`/`category`, `number`, or anything else. */
  datatype Kind = Categorical | Numeric | Other

  /** A cell as the ingestion collaborator renders it. */
  type Value = string

  /** A column: its name, its dtype group and its cells, `None` standing for a missing value. */
  datatype Column = Column(name: string, kind: Kind, cells: seq<Option<Value>>)

  /** A parsed data frame: its row count and its columns in order. */
  datatype Table = Table(rows: nat, columns: seq<Column>)

  /** A data frame: every column holds one cell per row. */
  predicate ValidTable(t: Table) {
    forall c :: c in t.columns ==> |c.cells| == t.rows
  }

  /** One column-name normalisation: `col.strip().lower().replace(' ', '_')`. */
  function Normalise(name: string): (r: string)
    ensures forall i :: 0 <= i < |r| ==> r[i] != ' '
    ensures forall i :: 0 <= i < |r| ==> !IsUpper(r[i])
    ensures r == [] || (!IsWhitespace(r[0]) && !IsWhitespace(r[|r| - 1]))
  {
    ReplaceSpaces(Lower(Strip(name)))
  }

  lemma StripKeeps(s: string)
    requires s == [] || (!IsWhitespace(s[0]) && !IsWhitespace(s[|s| - 1]))
    ensures Strip(s) == s
  {
  }

  /** Normalising an already normalised name changes nothing. */
  lemma NormaliseIdempotent(name: string)
    ensures Normalise(Normalise(name)) == Normalise(name)
  {
    var n := Normalise(name);
    StripKeeps(n);
    LowerKeeps(n);
    ReplaceSpacesKeeps(n);
    calc {
      Normalise(n);
      ReplaceSpaces(Lower(Strip(n)));
      ReplaceSpaces(Lower(n));
      ReplaceSpaces(n);
      n;
    }
  }

  /** The renaming of line 48, applied to every column in order. */
  function NormaliseColumns(cols: seq<Column>): (r: seq<Column>)
    ensures |r| == |cols|
    ensures forall i :: 0 <= i < |r| ==> r[i] == cols[i].(name := Normalise(cols[i].name))
  {
    seq(|cols|, i requires 0 <= i < |cols| => cols[i].(name := Normalise(cols[i].name)))
  }

  /** The names after normalisation hold no space, and normalising again leaves them alone. */
  lemma NormalisedNamesAreFixed(cols: seq<Column>)
    ensures forall i :: 0 <= i < |cols| ==> ' ' !in NormaliseColumns(cols)[i].name
    ensures NormaliseColumns(NormaliseColumns(cols)) == NormaliseColumns(cols)
  {
    var n := NormaliseColumns(cols);
    forall i | 0 <= i < |cols| ensures n[i].(name := Normalise(n[i].name)) == n[i] {
      NormaliseIdempotent(cols[i].name);
    }
  }

  // ---- the classifier ----

  /** The filter `col != 'name' and 'name' not in col` over the categorical columns. */
  predicate IsCategoricalEligible(c: Column) {
    c.kind == Categorical && c.name != "name" && !Contains(c.name, "name")
  }

  /** The filter `not c.startswith('unnamed')` over the numeric columns. */
  predicate IsNumericEligible(c: Column) {
    c.kind == Numeric && !StartsWith(c.name, "unnamed")
  }

  /** The equality test is subsumed by the substring test: eligibility is exactly "categorical and no `name` inside". */
  lemma CategoricalEligibleExactly(c: Column)
    ensures IsCategoricalEligible(c) <==> c.kind == Categorical && !Contains(c.name, "name")
  {
    if c.name == "name" {
      assert OccursAt(c.name, "name", 0);
    }
  }

  /** The two eligible groups are disjoint. */
  lemma EligibleGroupsDisjoint(c: Column)
    ensures !(IsCategoricalEligible(c) && IsNumericEligible(c))
  {
  }

  /** `cat_cols`, lines 63-64: the eligible categorical columns in column order. */
  function CategoricalColumns(cols: seq<Column>): (r: seq<Column>)
    ensures |r| <= |cols|
  {
    if cols == [] then []
    else
      var init := CategoricalColumns(cols[..|cols| - 1]);
      var last := cols[|cols| - 1];
      if IsCategoricalEligible(last) then init + [last] else init
  }

  /** `cat_cols` holds exactly the eligible categorical columns. */
  lemma {:induction false} CategoricalColumnsMembers(cols: seq<Column>)
    ensures forall c :: c in CategoricalColumns(cols) <==> c in cols && IsCategoricalEligible(c)
  {
    if cols != [] {
      assert cols == cols[..|cols| - 1] + [cols[|cols| - 1]];
      CategoricalColumnsMembers(cols[..|cols| - 1]);
    }
  }

  /** `num_cols`, lines 95-96: the eligible numeric columns in column order. */
  function NumericColumns(cols: seq<Column>): (r: seq<Column>)
    ensures |r| <= |cols|
  {
    if cols == [] then []
    else
      var init := NumericColumns(cols[..|cols| - 1]);
      var last := cols[|cols| - 1];
      if IsNumericEligible(last) then init + [last] else init
  }

  /** `num_cols` holds exactly the eligible numeric columns. */
  lemma {:induction false} NumericColumnsMembers(cols: seq<Column>)
    ensures forall c :: c in NumericColumns(cols) <==> c in cols && IsNumericEligible(c)
  {
    if cols != [] {
      assert cols == cols[..|cols| - 1] + [cols[|cols| - 1]];
      NumericColumnsMembers(cols[..|cols| - 1]);
    }
  }

  // ---- cells ----

  /** `dropna()`: the present values in order. */
  function NonMissing(cells: seq<Option<Value>>): (r: seq<Value>)
    ensures |r| <= |cells|
  {
    if cells == [] then []
    else
      var init := NonMissing(cells[..|cells| - 1]);
      var last := cells[|cells| - 1];
      if last.Some? then init + [last.value] else init
  }

  /** `dropna()` keeps exactly the present values. */
  lemma {:induction false} NonMissingMembers(cells: seq<Option<Value>>)
    ensures forall v :: v in NonMissing(cells) <==> Some(v) in cells
  {
    if cells != [] {
      assert cells == cells[..|cells| - 1] + [cells[|cells| - 1]];
      NonMissingMembers(cells[..|cells| - 1]);
    }
  }

  /** `dropna()` keeps every present value as often as it occurs. */
  lemma {:induction false} NonMissingCounts(cells: seq<Option<Value>>)
    ensures forall v :: multiset(NonMissing(cells))[v] == multiset(cells)[Some(v)]
  {
    if cells != [] {
      var init := cells[..|cells| - 1];
      var last := cells[|cells| - 1];
      assert cells == init + [last];
      NonMissingCounts(init);
      if last.Some? {
        assert NonMissing(cells) == NonMissing(init) + [last.value];
      }
    }
  }

  /** `isnull().sum()` for one column. */
  function NullCount(cells: seq<Option<Value>>): (n: nat)
    ensures n + |NonMissing(cells)| == |cells|
    ensures n == 0 <==> None !in cells
  {
    if cells == [] then 0
    else
      var init := NullCount(cells[..|cells| - 1]);
      assert cells == cells[..|cells| - 1] + [cells[|cells| - 1]];
      if cells[|cells| - 1].None? then init + 1 else init
  }

  /** How often `v` occurs in `vals`. */
  function Occurrences(vals: seq<Value>, v: Value): (n: nat)
    ensures n <= |vals|
    ensures n > 0 <==> v in vals
  {
    if vals == [] then 0
    else
      var init := Occurrences(vals[..|vals| - 1], v);
      assert vals == vals[..|vals| - 1] + [vals[|vals| - 1]];
      if vals[|vals| - 1] == v then init + 1 else init
  }

  /** The count is the number of times the value occurs, repeats included. */
  lemma {:induction false} OccurrencesCounts(vals: seq<Value>, v: Value)
    ensures Occurrences(vals, v) == multiset(vals)[v]
  {
    if vals != [] {
      var init := vals[..|vals| - 1];
      assert vals == init + [vals[|vals| - 1]];
      OccurrencesCounts(init, v);
    }
  }

  /** The set of distinct values, the quantity `nunique()` and `value_counts().size` measure. */
  function DistinctValues(vals: seq<Value>): set<Value> {
    set v | v in vals
  }
}
