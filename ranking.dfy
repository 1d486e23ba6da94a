/** The report loop of book_rec.py (lines 81-91): for each canonical volume take its row of
    the correlation table, join in the per-title averages and keep the ten candidates with
    the largest correlation. The Pearson coefficients themselves are an input. */
module Ranking {
  import opened Records
  import opened Cohort

  /** One candidate after the merge: title, correlation with the target (None where the
      coefficient is NaN), and mean rating. */
  datatype Entry = Entry(title: string, corr: Option<real>, avg: real)

  /** The result of `DataFrame.corr()` on the rating matrix: its column (and index) order,
      and the defined coefficients; a pair that is absent has a NaN coefficient. */
  datatype CorrTable = CorrTable(columns: seq<string>, value: map<(string, string), real>)

  function Correlation(table: CorrTable, a: string, b: string): Option<real> {
    if (a, b) in table.value then Some(table.value[(a, b)]) else None
  }

  /** Lines 83-85: `corr[corr.index == target].transpose().merge(avg_rating, on="Book-Title")`,
      an inner join that follows the column order. */
  function Merge(target: string, columns: seq<string>, table: CorrTable, avg: map<string, real>): seq<Entry> {
    if columns == [] then []
    else
      var c := columns[0];
      (if c in avg then [Entry(c, Correlation(table, target, c), avg[c])] else [])
        + Merge(target, columns[1..], table, avg)
  }

  /** The join holds exactly one entry per column that has an average: that column's
      coefficient with the target (None where NaN) and its average. The target's own
      column is not excluded. */
  lemma {:induction false} MergeSound(target: string, columns: seq<string>, table: CorrTable, avg: map<string, real>)
    ensures |Merge(target, columns, table, avg)| <= |columns|
    ensures forall e :: e in Merge(target, columns, table, avg) <==>
      exists c :: c in columns && c in avg && e == Entry(c, Correlation(table, target, c), avg[c])
  {
    if columns != [] {
      MergeSound(target, columns[1..], table, avg);
      assert columns == [columns[0]] + columns[1..];
    }
  }

  predicate IsDefined(e: Entry) {
    e.corr.Some?
  }

  /** The sort key of a defined entry. */
  function Score(e: Entry): real {
    if e.corr.Some? then e.corr.value else 0.0
  }

  predicate SortedDesc(s: seq<Entry>) {
    forall i, j :: 0 <= i < j < |s| ==> Score(s[i]) >= Score(s[j])
  }

  /** Insert `x` before the first entry that does not score higher. */
  function InsertDesc(x: Entry, l: seq<Entry>): (r: seq<Entry>)
    ensures |r| == |l| + 1
    ensures multiset(r) == multiset(l) + multiset{x}
  {
    if l == [] || Score(x) >= Score(l[0]) then [x] + l
    else
      assert l == [l[0]] + l[1..];
      [l[0]] + InsertDesc(x, l[1..])
  }

  /** Insertion keeps a descending sequence descending. */
  lemma {:induction false} InsertDescSorted(x: Entry, l: seq<Entry>)
    requires SortedDesc(l)
    ensures SortedDesc(InsertDesc(x, l))
  {
    if l != [] && Score(x) < Score(l[0]) {
      var rest := InsertDesc(x, l[1..]);
      InsertDescSorted(x, l[1..]);
      forall y | y in rest
        ensures Score(y) <= Score(l[0])
      {
        assert y in multiset(l[1..]) + multiset{x};
        if y != x {
          var k :| 0 <= k < |l[1..]| && l[1..][k] == y;
          assert l[k + 1] == y;
        }
      }
      assert InsertDesc(x, l) == [l[0]] + rest;
    }
  }

  /** Insertion sort by decreasing score. */
  function SortDesc(s: seq<Entry>): (r: seq<Entry>)
    ensures |r| == |s|
    ensures multiset(r) == multiset(s)
  {
    if s == [] then []
    else
      assert s == [s[0]] + s[1..];
      InsertDesc(s[0], SortDesc(s[1..]))
  }

  lemma {:induction false} SortDescSorted(s: seq<Entry>)
    ensures SortedDesc(SortDesc(s))
  {
    if s != [] {
      SortDescSorted(s[1..]);
      InsertDescSorted(s[0], SortDesc(s[1..]));
    }
  }

  function MinNat(a: nat, b: nat): nat {
    if a < b then a else b
  }

  predicate IsUndefined(e: Entry) {
    e.corr.None?
  }

  /** `nlargest(n, column)`: the entries with a defined coefficient by decreasing
      coefficient, then the entries whose coefficient is NaN in input order, and the first
      `n` of these kept. */
  function NLargest(entries: seq<Entry>, n: nat): seq<Entry> {
    var ranked := SortDesc(Filter(entries, IsDefined)) + Filter(entries, IsUndefined);
    ranked[..MinNat(n, |ranked|)]
  }

  /** Every entry is either defined or undefined, so the two filters split the input. */
  lemma FilterSplit(entries: seq<Entry>)
    ensures multiset(Filter(entries, IsDefined)) + multiset(Filter(entries, IsUndefined)) == multiset(entries)
  {
    FilterCounts(entries, IsDefined);
    FilterCounts(entries, IsUndefined);
    assert forall e :: IsUndefined(e) <==> !IsDefined(e);
  }

  /** `min(n, |entries|)` entries taken from the input; the defined ones come first, in
      decreasing order; a NaN entry is kept only once every defined entry is kept. */
  lemma NLargestShape(entries: seq<Entry>, n: nat)
    ensures |NLargest(entries, n)| == MinNat(n, |entries|)
    ensures multiset(NLargest(entries, n)) <= multiset(entries)
    ensures forall i :: 0 <= i < |NLargest(entries, n)| ==>
      (IsDefined(NLargest(entries, n)[i]) <==> i < |Filter(entries, IsDefined)|)
    ensures forall i, j :: 0 <= i < j < |NLargest(entries, n)| && IsDefined(NLargest(entries, n)[j]) ==>
      Score(NLargest(entries, n)[i]) >= Score(NLargest(entries, n)[j])
    ensures |NLargest(entries, n)| > |Filter(entries, IsDefined)| ==>
      multiset(Filter(entries, IsDefined)) <= multiset(NLargest(entries, n))
  {
    NLargestSize(entries, n);
    NLargestOrder(entries, n);
  }

  lemma NLargestSize(entries: seq<Entry>, n: nat)
    ensures |NLargest(entries, n)| == MinNat(n, |entries|)
    ensures multiset(NLargest(entries, n)) <= multiset(entries)
  {
    var ranked := SortDesc(Filter(entries, IsDefined)) + Filter(entries, IsUndefined);
    RankedWhole(entries);
    assert NLargest(entries, n) == ranked[..MinNat(n, |entries|)];
    PrefixSubMultiset(ranked, MinNat(n, |entries|));
  }

  lemma NLargestOrder(entries: seq<Entry>, n: nat)
    ensures forall i :: 0 <= i < |NLargest(entries, n)| ==>
      (IsDefined(NLargest(entries, n)[i]) <==> i < |Filter(entries, IsDefined)|)
    ensures forall i, j :: 0 <= i < j < |NLargest(entries, n)| && IsDefined(NLargest(entries, n)[j]) ==>
      Score(NLargest(entries, n)[i]) >= Score(NLargest(entries, n)[j])
    ensures |NLargest(entries, n)| > |Filter(entries, IsDefined)| ==>
      multiset(Filter(entries, IsDefined)) <= multiset(NLargest(entries, n))
  {
    var defined := Filter(entries, IsDefined);
    var sorted := SortDesc(defined);
    var undefined := Filter(entries, IsUndefined);
    var top := NLargest(entries, n);
    assert top == (sorted + undefined)[..|top|];
    RankedParts(entries, sorted, undefined);
    SortDescSorted(defined);
    TopOrder(sorted, undefined, top);
  }

  /** The ranking behind `nlargest` is a permutation of its input. */
  lemma RankedWhole(entries: seq<Entry>)
    ensures multiset(SortDesc(Filter(entries, IsDefined)) + Filter(entries, IsUndefined)) == multiset(entries)
    ensures |SortDesc(Filter(entries, IsDefined)) + Filter(entries, IsUndefined)| == |entries|
  {
    var ranked := SortDesc(Filter(entries, IsDefined)) + Filter(entries, IsUndefined);
    FilterSplit(entries);
    assert |multiset(ranked)| == |multiset(entries)|;
  }

  /** A prefix of sorted defined entries followed by undefined ones: defined exactly
      within the sorted part, descending there, and holding the whole sorted part once it
      reaches beyond it. */
  lemma TopOrder(sorted: seq<Entry>, undefined: seq<Entry>, top: seq<Entry>)
    requires SortedDesc(sorted) && |top| <= |sorted| + |undefined|
    requires top == (sorted + undefined)[..|top|]
    requires forall i :: 0 <= i < |sorted| ==> IsDefined(sorted[i])
    requires forall i :: 0 <= i < |undefined| ==> IsUndefined(undefined[i])
    ensures forall i :: 0 <= i < |top| ==> (IsDefined(top[i]) <==> i < |sorted|)
    ensures forall i, j :: 0 <= i < j < |top| && IsDefined(top[j]) ==> Score(top[i]) >= Score(top[j])
    ensures |top| > |sorted| ==> multiset(sorted) <= multiset(top)
  {
    forall i | 0 <= i < |top|
      ensures IsDefined(top[i]) <==> i < |sorted|
    {
      if i >= |sorted| {
        assert top[i] == undefined[i - |sorted|];
      } else {
        assert top[i] == sorted[i];
      }
    }
    forall i, j | 0 <= i < j < |top| && IsDefined(top[j])
      ensures Score(top[i]) >= Score(top[j])
    {
      assert top[i] == sorted[i] && top[j] == sorted[j];
    }
    if |top| > |sorted| {
      assert top[..|sorted|] == sorted;
      PrefixSubMultiset(top, |sorted|);
    }
  }

  /** The sorted defined entries are all defined, the rest all undefined. */
  lemma RankedParts(entries: seq<Entry>, sorted: seq<Entry>, undefined: seq<Entry>)
    requires sorted == SortDesc(Filter(entries, IsDefined))
    requires undefined == Filter(entries, IsUndefined)
    ensures forall i :: 0 <= i < |sorted| ==> IsDefined(sorted[i])
    ensures forall i :: 0 <= i < |undefined| ==> IsUndefined(undefined[i])
  {
    FilterMembers(entries, IsDefined);
    FilterMembers(entries, IsUndefined);
    forall i | 0 <= i < |sorted|
      ensures IsDefined(sorted[i])
    {
      assert sorted[i] in multiset(Filter(entries, IsDefined));
    }
    forall i | 0 <= i < |undefined|
      ensures IsUndefined(undefined[i])
    {
      assert undefined[i] in undefined;
    }
  }

  lemma PrefixSubMultiset(s: seq<Entry>, m: nat)
    requires m <= |s|
    ensures multiset(s) == multiset(s[..m]) + multiset(s[m..])
  {
    assert s == s[..m] + s[m..];
  }

  /** In a descending sequence, an element with more copies than the first `m` positions
      hold scores no higher than any of them. */
  lemma SortedPrefixTop(s: seq<Entry>, m: nat, e: Entry, i: int)
    requires SortedDesc(s) && m <= |s|
    requires multiset(s[..m])[e] < multiset(s)[e]
    requires 0 <= i < m
    ensures Score(e) <= Score(s[i])
  {
    PrefixSubMultiset(s, m);
    assert e in multiset(s[m..]);
    var j :| 0 <= j < |s[m..]| && s[m..][j] == e;
    assert s[m + j] == e;
  }

  /** When a defined entry is left out, every entry kept is defined and scores at least
      as high. */
  lemma NLargestTop(entries: seq<Entry>, n: nat, e: Entry, i: int)
    requires e in entries && IsDefined(e)
    requires multiset(NLargest(entries, n))[e] < multiset(entries)[e]
    requires 0 <= i < |NLargest(entries, n)|
    ensures IsDefined(NLargest(entries, n)[i])
    ensures Score(e) <= Score(NLargest(entries, n)[i])
  {
    var defined := Filter(entries, IsDefined);
    var sorted := SortDesc(defined);
    var top := NLargest(entries, n);
    KeptWithinSorted(entries, n, e);
    SortDescSorted(defined);
    SortedPrefixTop(sorted, |top|, e, i);
    RankedParts(entries, sorted, Filter(entries, IsUndefined));
    assert top[i] == sorted[i];
  }

  /** When a defined entry is left out, `nlargest` kept only a prefix of the sorted
      defined entries. */
  lemma KeptWithinSorted(entries: seq<Entry>, n: nat, e: Entry)
    requires IsDefined(e)
    requires multiset(NLargest(entries, n))[e] < multiset(entries)[e]
    ensures |NLargest(entries, n)| <= |Filter(entries, IsDefined)|
    ensures NLargest(entries, n) == SortDesc(Filter(entries, IsDefined))[..|NLargest(entries, n)|]
    ensures multiset(SortDesc(Filter(entries, IsDefined)))[e] == multiset(entries)[e]
  {
    var defined := Filter(entries, IsDefined);
    var sorted := SortDesc(defined);
    var top := NLargest(entries, n);
    DroppedMeansShort(entries, n, e);
    assert top == (sorted + Filter(entries, IsUndefined))[..|top|];
    PrefixOfConcat(sorted, Filter(entries, IsUndefined), |top|);
  }

  /** A defined entry is left out only when fewer than all defined entries are kept. */
  lemma DroppedMeansShort(entries: seq<Entry>, n: nat, e: Entry)
    requires IsDefined(e)
    requires multiset(NLargest(entries, n))[e] < multiset(entries)[e]
    ensures |NLargest(entries, n)| <= |Filter(entries, IsDefined)|
    ensures multiset(Filter(entries, IsDefined))[e] == multiset(entries)[e]
  {
    assert multiset(Filter(entries, IsDefined))[e] == multiset(entries)[e] by {
      FilterCounts(entries, IsDefined);
    }
    NLargestOrder(entries, n);
  }

  lemma PrefixOfConcat(a: seq<Entry>, b: seq<Entry>, k: nat)
    requires k <= |a|
    ensures (a + b)[..k] == a[..k]
  {
  }

  /** Lines 82-87 for one target: a target with no row in the correlation table makes
      `nlargest` fail on the missing column, modelled as None. */
  function Report(target: string, table: CorrTable, avg: map<string, real>): Option<seq<Entry>> {
    if target in table.columns then Some(NLargest(Merge(target, table.columns, table, avg), TopCount))
    else None
  }

  /** Every candidate of a report carries its own title's coefficient with the target
      (None where NaN) and its own title's average. */
  lemma ReportEntries(target: string, table: CorrTable, avg: map<string, real>)
    requires Report(target, table, avg).Some?
    ensures forall e :: e in Report(target, table, avg).value ==>
      e.title in avg && e.avg == avg[e.title] && e.corr == Correlation(table, target, e.title)
  {
    var merged := Merge(target, table.columns, table, avg);
    NLargestShape(merged, TopCount);
    MergeSound(target, table.columns, table, avg);
    forall e | e in NLargest(merged, TopCount)
      ensures e in merged
    {
      assert e in multiset(NLargest(merged, TopCount));
    }
  }

  /** The report computation of one target, as a function of the target. */
  function ReportFor(table: CorrTable, avg: map<string, real>): string -> Option<seq<Entry>> {
    (target: string) => Report(target, table, avg)
  }

  /** Every candidate of the i-th report printed carries its title's coefficient with the
      i-th target and the average of its own title. */
  lemma RunReportsEntry(targets: seq<string>, table: CorrTable, avg: map<string, real>, i: int, e: Entry)
    requires 0 <= i < |RunReports(targets, ReportFor(table, avg)).0|
    requires e in RunReports(targets, ReportFor(table, avg)).0[i]
    ensures i < |targets| && e.corr == Correlation(table, targets[i], e.title)
    ensures e.title in avg && e.avg == avg[e.title]
  {
    RunReportsAt(targets, ReportFor(table, avg), i);
    ReportEntries(targets[i], table, avg);
  }

  /** Lines 81-93: the reports in target order; the loop stops at the first target whose
      report fails, and `main` then returns no status. */
  function RunReports(targets: seq<string>, report: string -> Option<seq<Entry>>): (seq<seq<Entry>>, bool) {
    if targets == [] then ([], true)
    else if report(targets[0]).None? then ([], false)
    else
      var rest := RunReports(targets[1..], report);
      ([report(targets[0]).value] + rest.0, rest.1)
  }

  /** The run succeeds exactly when every target's report succeeds, and then prints one
      report per target. */
  lemma {:induction false} RunReportsStatus(targets: seq<string>, report: string -> Option<seq<Entry>>)
    ensures RunReports(targets, report).1 <==> forall t :: t in targets ==> report(t).Some?
    ensures RunReports(targets, report).1 ==> |RunReports(targets, report).0| == |targets|
  {
    if targets != [] && report(targets[0]).Some? {
      RunReportsStatus(targets[1..], report);
      assert targets == [targets[0]] + targets[1..];
    }
  }

  /** A failed run stops at the first target whose report fails. */
  lemma {:induction false} RunReportsStops(targets: seq<string>, report: string -> Option<seq<Entry>>)
    requires !RunReports(targets, report).1
    ensures |RunReports(targets, report).0| < |targets|
    ensures report(targets[|RunReports(targets, report).0|]).None?
  {
    if report(targets[0]).Some? {
      RunReportsStops(targets[1..], report);
    }
  }

  /** The i-th report printed is the i-th target's report. */
  lemma {:induction false} RunReportsAt(targets: seq<string>, report: string -> Option<seq<Entry>>, i: int)
    requires 0 <= i < |RunReports(targets, report).0|
    ensures i < |targets| && report(targets[i]) == Some(RunReports(targets, report).0[i])
  {
    if i > 0 {
      RunReportsAt(targets[1..], report, i - 1);
    }
  }
}
