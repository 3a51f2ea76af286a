/**
 * The counting the analysis delegates to pandas, stated over the
 * abstract table: `value_counts()` (a count-descending list of the
 * distinct present values), `.head(k)`, `idxmax()` on a value count,
 * and the null ranking `null_counts[null_counts > 0]
 * .sort_values(ascending=False).head(3)` (eda-backend/app.py, lines 55,
 * 66, 115-116, 122).
 *
 * pandas fixes no order among equal counts; the model sorts stably
 * (values in order of first appearance, columns in column order), and
 * every property proved below holds whatever the order among ties.
 */
module Counting {
  import opened Wrappers
  import opened Tables

  /** One row of a count: a key and how often it was counted. */
  datatype Entry<K> = Entry(key: K, count: nat)

  function Keys<K>(s: seq<Entry<K>>): (r: seq<K>)
    ensures |r| == |s|
    ensures forall i :: 0 <= i < |s| ==> r[i] == s[i].key
  {
    seq(|s|, i requires 0 <= i < |s| => s[i].key)
  }

  /** Counts never increase along the list. */
  predicate Descending<K>(s: seq<Entry<K>>) {
    forall i, j :: 0 <= i < j < |s| ==> s[i].count >= s[j].count
  }

  predicate NoDuplicates<K(==)>(s: seq<K>) {
    forall i, j :: 0 <= i < j < |s| ==> s[i] != s[j]
  }

  // ---- a stable sort by descending count ----

  lemma DescendingCons<K>(x: Entry<K>, t: seq<Entry<K>>)
    requires Descending(t) && (t == [] || x.count >= t[0].count)
    ensures Descending([x] + t)
  {
    var u := [x] + t;
    forall i, j | 0 <= i < j < |u| ensures u[i].count >= u[j].count {
      if i == 0 {
        assert u[j] == t[j - 1];
        assert t[0].count >= t[j - 1].count;
      } else {
        assert u[i] == t[i - 1] && u[j] == t[j - 1];
      }
    }
  }

  /**
   * Puts `e` before the first entry that counts no more than it. The sort is
   * stable because it inserts the earlier entries last.
   */
  function Insert<K>(e: Entry<K>, s: seq<Entry<K>>): (r: seq<Entry<K>>)
    ensures |r| == |s| + 1
  {
    if s == [] || e.count >= s[0].count then [e] + s
    else [s[0]] + Insert(e, s[1..])
  }

  /** Inserting into a descending list keeps it descending. */
  lemma {:induction false} InsertSorted<K>(e: Entry<K>, s: seq<Entry<K>>)
    requires Descending(s)
    ensures Descending(Insert(e, s))
    ensures Insert(e, s)[0] == e || (s != [] && Insert(e, s)[0] == s[0])
  {
    if s == [] || e.count >= s[0].count {
      DescendingCons(e, s);
    } else {
      var tail := s[1..];
      DescendingTail(s);
      var rest := Insert(e, tail);
      InsertSorted(e, tail);
      assert tail != [] ==> s[0].count >= tail[0].count;
      DescendingCons(s[0], rest);
    }
  }

  /** Inserting adds exactly the one entry. */
  lemma {:induction false} InsertPermutes<K>(e: Entry<K>, s: seq<Entry<K>>)
    ensures multiset(Insert(e, s)) == multiset(s) + multiset{e}
  {
    if s != [] && e.count < s[0].count {
      var tail := s[1..];
      InsertPermutes(e, tail);
      assert s == [s[0]] + tail;
      assert multiset([s[0]] + Insert(e, tail)) == multiset{s[0]} + multiset(Insert(e, tail));
    }
  }

  /** Sorts by descending count; among equal counts the earlier entry stays first. */
  function SortDescending<K>(s: seq<Entry<K>>): (r: seq<Entry<K>>)
    ensures |r| == |s|
  {
    if s == [] then []
    else Insert(s[0], SortDescending(s[1..]))
  }

  /** The sort yields a descending permutation of its input. */
  lemma {:induction false} SortSorts<K>(s: seq<Entry<K>>)
    ensures Descending(SortDescending(s))
    ensures multiset(SortDescending(s)) == multiset(s)
  {
    if s != [] {
      SortSorts(s[1..]);
      InsertSorted(s[0], SortDescending(s[1..]));
      InsertPermutes(s[0], SortDescending(s[1..]));
      assert s == [s[0]] + s[1..];
    }
  }

  lemma KeysCons<K>(x: Entry<K>, t: seq<Entry<K>>)
    ensures Keys([x] + t) == [x.key] + Keys(t)
  {
    var u := [x] + t;
    forall i | 0 <= i < |u| ensures Keys(u)[i] == ([x.key] + Keys(t))[i] {
      if i > 0 { assert u[i] == t[i - 1]; }
    }
  }

  /** Inserting an entry adds its key to the keys and nothing else. */
  lemma {:induction false} InsertKeys<K>(e: Entry<K>, s: seq<Entry<K>>)
    ensures forall k :: k in Keys(Insert(e, s)) <==> k == e.key || k in Keys(s)
  {
    if s == [] || e.count >= s[0].count {
      KeysCons(e, s);
    } else {
      var tail := s[1..];
      var rest := Insert(e, tail);
      assert Insert(e, s) == [s[0]] + rest;
      InsertKeys(e, tail);
      KeysCons(s[0], rest);
      KeysCons(s[0], tail);
      assert s == [s[0]] + tail;
    }
  }

  lemma DescendingTail<K>(s: seq<Entry<K>>)
    requires s != [] && Descending(s)
    ensures Descending(s[1..])
  {
    assert forall i :: 0 <= i < |s[1..]| ==> s[1..][i] == s[i + 1];
  }

  /** Inserting an entry with a fresh key keeps the keys distinct. */
  lemma {:induction false} InsertKeysDistinct<K>(e: Entry<K>, s: seq<Entry<K>>)
    requires NoDuplicates(Keys(s)) && e.key !in Keys(s)
    ensures NoDuplicates(Keys(Insert(e, s)))
  {
    if s == [] || e.count >= s[0].count {
      KeysCons(e, s);
      NoDuplicatesCons(e.key, Keys(s));
    } else {
      var tail := s[1..];
      var rest := Insert(e, tail);
      assert Insert(e, s) == [s[0]] + rest;
      assert s == [s[0]] + tail;
      KeysCons(s[0], tail);
      NoDuplicatesTail(Keys(s));
      assert Keys(s)[1..] == Keys(tail);
      InsertKeysDistinct(e, tail);
      InsertKeys(e, tail);
      KeysCons(s[0], rest);
      NoDuplicatesCons(s[0].key, Keys(rest));
    }
  }

  lemma NoDuplicatesTail<K>(t: seq<K>)
    requires t != [] && NoDuplicates(t)
    ensures NoDuplicates(t[1..]) && t[0] !in t[1..]
  {
    assert forall i :: 0 <= i < |t[1..]| ==> t[1..][i] == t[i + 1];
  }

  lemma NoDuplicatesCons<K>(x: K, t: seq<K>)
    requires x !in t && NoDuplicates(t)
    ensures NoDuplicates([x] + t)
  {
    var u := [x] + t;
    forall i, j | 0 <= i < j < |u| ensures u[i] != u[j] {
      if i == 0 { assert u[j] == t[j - 1]; } else { assert u[i] == t[i - 1] && u[j] == t[j - 1]; }
    }
  }

  /** Sorting keeps the keys, and keeps them distinct. */
  lemma {:induction false} SortKeys<K>(s: seq<Entry<K>>)
    ensures forall k :: k in Keys(SortDescending(s)) <==> k in Keys(s)
    ensures NoDuplicates(Keys(s)) ==> NoDuplicates(Keys(SortDescending(s)))
  {
    if s != [] {
      var sorted := SortDescending(s[1..]);
      SortKeys(s[1..]);
      InsertKeys(s[0], sorted);
      KeysCons(s[0], s[1..]);
      assert s == [s[0]] + s[1..];
      if NoDuplicates(Keys(s)) {
        NoDuplicatesTail(Keys(s));
        InsertKeysDistinct(s[0], sorted);
      }
    }
  }

  // ---- distinct values ----

  /** The distinct values in order of first appearance. */
  function Dedup(vals: seq<Value>): (r: seq<Value>)
    ensures NoDuplicates(r)
    ensures forall v :: v in r <==> v in vals
  {
    if vals == [] then []
    else
      var init := Dedup(vals[..|vals| - 1]);
      var last := vals[|vals| - 1];
      assert vals == vals[..|vals| - 1] + [last];
      if last in init then init else init + [last]
  }

  lemma {:induction false} NoDuplicatesCard(s: seq<Value>)
    requires NoDuplicates(s)
    ensures |set v | v in s| == |s|
  {
    if s != [] {
      var init := s[..|s| - 1];
      NoDuplicatesCard(init);
      assert (set v | v in s) == (set v | v in init) + {s[|s| - 1]};
    }
  }

  /** As many distinct values are counted as there are. */
  lemma DedupCard(vals: seq<Value>)
    ensures |Dedup(vals)| == |DistinctValues(vals)|
  {
    NoDuplicatesCard(Dedup(vals));
    assert (set v | v in Dedup(vals)) == DistinctValues(vals);
  }

  // ---- value_counts ----

  function Tally(vals: seq<Value>, d: seq<Value>): (u: seq<Entry<Value>>)
    ensures Keys(u) == d
    ensures forall e :: e in u ==> e.count == Occurrences(vals, e.key)
  {
    seq(|d|, i requires 0 <= i < |d| => Entry(d[i], Occurrences(vals, d[i])))
  }

  /** `value_counts()` of the present values: each distinct value once, with its count, most frequent first. */
  function ValueCounts(vals: seq<Value>): (r: seq<Entry<Value>>)
    ensures |r| == |DistinctValues(vals)|
  {
    var d := Dedup(vals);
    DedupCard(vals);
    SortDescending(Tally(vals, d))
  }

  /** `value_counts()` lists each present value once with its true count, most frequent first. */
  lemma ValueCountsSpec(vals: seq<Value>)
    ensures Descending(ValueCounts(vals))
    ensures forall e :: e in ValueCounts(vals) ==> e.key in vals && e.count == Occurrences(vals, e.key)
    ensures forall v :: v in vals <==> v in Keys(ValueCounts(vals))
    ensures NoDuplicates(Keys(ValueCounts(vals)))
  {
    var u := Tally(vals, Dedup(vals));
    var r := ValueCounts(vals);
    SortSorts(u);
    SortKeys(u);
    assert forall e :: e in r ==> e in u by {
      forall e | e in r ensures e in u { assert e in multiset(r); }
    }
  }

  function Take<T>(s: seq<T>, k: nat): (r: seq<T>)
    ensures |r| == if |s| < k then |s| else k
    ensures r == s[..|r|]
  {
    if |s| <= k then s else s[..k]
  }

  /** In a descending list, whatever the first `k` entries leave out counts no more than any of them. */
  lemma TakeIsTop<K>(s: seq<Entry<K>>, k: nat, x: Entry<K>)
    requires Descending(s) && x in s && x !in Take(s, k)
    ensures forall e :: e in Take(s, k) ==> x.count <= e.count
  {
    var t := Take(s, k);
    var j :| 0 <= j < |s| && s[j] == x;
    assert j >= |t|;
    forall e | e in t ensures x.count <= e.count {
      var i :| 0 <= i < |t| && t[i] == e;
      assert s[i] == e;
    }
  }

  /** `value_counts().head(5)` (line 55): the at most five most frequent values with their counts. */
  function FrequencyTable(vals: seq<Value>): (r: seq<Entry<Value>>)
    ensures |r| <= 5
    ensures |r| == if |DistinctValues(vals)| < 5 then |DistinctValues(vals)| else 5
    ensures Descending(r)
    ensures NoDuplicates(Keys(r))
    ensures forall e :: e in r ==> e.key in vals && e.count == Occurrences(vals, e.key)
    ensures forall v, e :: v in vals && v !in Keys(r) && e in r ==> Occurrences(vals, v) <= e.count
  {
    var all := ValueCounts(vals);
    ValueCountsSpec(vals);
    var r := Take(all, 5);
    assert Keys(r) == Keys(all)[..|r|];
    forall v, e | v in vals && v !in Keys(r) && e in r ensures Occurrences(vals, v) <= e.count {
      var j :| 0 <= j < |all| && all[j].key == v;
      assert all[j] !in r;
      TakeIsTop(all, 5, all[j]);
    }
    r
  }

  /** The first entry of a value count holds the highest count. */
  lemma ValueCountsHeadIsMax(vals: seq<Value>)
    ensures ValueCounts(vals) == [] <==> vals == []
    ensures vals != [] ==> forall w :: w in vals ==> Occurrences(vals, w) <= Occurrences(vals, ValueCounts(vals)[0].key)
  {
    var counts := ValueCounts(vals);
    ValueCountsSpec(vals);
    if vals == [] { return; }
    assert vals[0] in Keys(counts);
    assert counts[0] in counts;
    forall w | w in vals ensures Occurrences(vals, w) <= Occurrences(vals, counts[0].key) {
      var j :| 0 <= j < |counts| && counts[j].key == w;
      assert counts[j] in counts;
    }
  }

  /** `value_counts().idxmax()` (line 122): a most frequent value; `None` where pandas raises on an empty count. */
  function Mode(vals: seq<Value>): (r: Option<Value>)
    ensures r.None? <==> vals == []
    ensures r.Some? ==> r.value in vals
    ensures r.Some? ==> forall w :: w in vals ==> Occurrences(vals, w) <= Occurrences(vals, r.value)
  {
    var counts := ValueCounts(vals);
    ValueCountsHeadIsMax(vals);
    if counts == [] then None
    else
      assert counts[0] in counts;
      Some(counts[0].key)
  }

  // ---- the null ranking ----

  /** `null_counts[null_counts > 0]`: the columns with a missing value and their null counts, in column order. */
  function PositiveNulls(cols: seq<Column>): (r: seq<Entry<string>>)
    ensures |r| <= |cols|
  {
    if cols == [] then []
    else
      var init := PositiveNulls(cols[..|cols| - 1]);
      var last := cols[|cols| - 1];
      var n := NullCount(last.cells);
      if n > 0 then init + [Entry(last.name, n)] else init
  }

  /** The filter keeps exactly the columns with a missing value, each with its null count. */
  lemma {:induction false} PositiveNullsMembers(cols: seq<Column>)
    ensures forall e :: e in PositiveNulls(cols) <==> e.count > 0 && exists c :: c in cols && e == Entry(c.name, NullCount(c.cells))
  {
    if cols != [] {
      assert cols == cols[..|cols| - 1] + [cols[|cols| - 1]];
      PositiveNullsMembers(cols[..|cols| - 1]);
    }
  }

  /** The ranking of line 116 before its cut to three: every column with a missing value, most nulls first. */
  function RankedNulls(cols: seq<Column>): (r: seq<Entry<string>>)
    ensures |r| == |PositiveNulls(cols)|
  {
    SortDescending(PositiveNulls(cols))
  }

  /** Ranking reorders the filtered counts and drops or adds none. */
  lemma RankedNullsMembers(cols: seq<Column>)
    ensures Descending(RankedNulls(cols))
    ensures forall e :: e in RankedNulls(cols) <==> e.count > 0 && exists c :: c in cols && e == Entry(c.name, NullCount(c.cells))
  {
    var positive := PositiveNulls(cols);
    var r := RankedNulls(cols);
    SortSorts(positive);
    PositiveNullsMembers(cols);
    forall e ensures e in r <==> e in positive { assert e in r <==> e in multiset(r); }
  }

  /** `top_nulls` (line 116): the at most three columns with the most missing values, most first. */
  function TopNulls(cols: seq<Column>): (r: seq<Entry<string>>)
    ensures |r| <= 3
  {
    Take(RankedNulls(cols), 3)
  }

  /** The cut keeps the order and lists only columns with missing values. */
  lemma TopNullsSpec(cols: seq<Column>)
    ensures Descending(TopNulls(cols))
    ensures forall e :: e in TopNulls(cols) ==> e.count > 0 && exists c :: c in cols && e == Entry(c.name, NullCount(c.cells))
  {
    var ranked := RankedNulls(cols);
    var r := TopNulls(cols);
    RankedNullsMembers(cols);
    assert forall e :: e in r ==> e in ranked;
  }

  /** The ranking is empty exactly when no column has a missing value. */
  lemma TopNullsEmpty(cols: seq<Column>)
    ensures TopNulls(cols) == [] <==> forall c :: c in cols ==> NullCount(c.cells) == 0
  {
    var ranked := RankedNulls(cols);
    RankedNullsMembers(cols);
    TopNullsSpec(cols);
    if c :| c in cols && NullCount(c.cells) > 0 {
      assert Entry(c.name, NullCount(c.cells)) in ranked;
    }
  }

  /** A column with missing values that is left out of the ranking has no more nulls than any listed entry, and nothing is left out when fewer than three are listed. */
  lemma TopNullsAreTop(cols: seq<Column>)
    ensures forall c, e ::
              c in cols && NullCount(c.cells) > 0 && Entry(c.name, NullCount(c.cells)) !in TopNulls(cols) && e in TopNulls(cols)
              ==> NullCount(c.cells) <= e.count
    ensures |TopNulls(cols)| < 3 ==> forall c :: c in cols && NullCount(c.cells) > 0 ==> Entry(c.name, NullCount(c.cells)) in TopNulls(cols)
  {
    var ranked := RankedNulls(cols);
    var r := TopNulls(cols);
    RankedNullsMembers(cols);
    assert |r| < 3 ==> r == ranked;
    forall c, e | c in cols && NullCount(c.cells) > 0 && Entry(c.name, NullCount(c.cells)) !in r && e in r
      ensures NullCount(c.cells) <= e.count
    {
      assert Entry(c.name, NullCount(c.cells)) in ranked;
      TakeIsTop(ranked, 3, Entry(c.name, NullCount(c.cells)));
    }
  }

  /** In a data frame no column has more nulls than rows, so neither does any ranked entry. */
  lemma TopNullsBounded(t: Table)
    requires ValidTable(t)
    ensures forall e :: e in TopNulls(t.columns) ==> e.count <= t.rows
  {
    TopNullsSpec(t.columns);
  }
}
