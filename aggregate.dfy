/** The rating matrix and per-title average of book_rec.py (lines 63-79): group the
    relevant cohort rows by a key and take the arithmetic mean of the ratings. */
module Aggregate {
  import opened Records
  import opened Text
  import opened Cohort
  import opened Relevance

  function Sum(xs: seq<int>): int {
    if xs == [] then 0 else xs[0] + Sum(xs[1..])
  }

  function Min(xs: seq<int>): (m: int)
    requires |xs| > 0
    ensures m in xs && forall i :: 0 <= i < |xs| ==> m <= xs[i]
  {
    if |xs| == 1 then xs[0]
    else
      var rest := Min(xs[1..]);
      if xs[0] <= rest then xs[0] else rest
  }

  function Max(xs: seq<int>): (m: int)
    requires |xs| > 0
    ensures m in xs && forall i :: 0 <= i < |xs| ==> xs[i] <= m
  {
    if |xs| == 1 then xs[0]
    else
      var rest := Max(xs[1..]);
      if xs[0] >= rest then xs[0] else rest
  }

  /** The arithmetic mean of integer ratings, exactly. */
  function Mean(xs: seq<int>): real
    requires |xs| > 0
  {
    Sum(xs) as real / |xs| as real
  }

  lemma {:induction false} SumBounds(xs: seq<int>, lo: int, hi: int)
    requires forall i :: 0 <= i < |xs| ==> lo <= xs[i] <= hi
    ensures |xs| as real * lo as real <= Sum(xs) as real <= |xs| as real * hi as real
  {
    if xs != [] {
      var n := |xs[1..]| as real;
      SumBounds(xs[1..], lo, hi);
      assert (n + 1.0) * lo as real == n * lo as real + lo as real;
      assert (n + 1.0) * hi as real == n * hi as real + hi as real;
    }
  }

  /** A mean lies between the smallest and the largest value it averages. */
  lemma MeanBetween(xs: seq<int>)
    requires |xs| > 0
    ensures Min(xs) as real <= Mean(xs) <= Max(xs) as real
  {
    MeanWithin(xs, Min(xs), Max(xs));
  }

  /** Bounds on every value bound the mean. */
  lemma MeanWithin(xs: seq<int>, lo: int, hi: int)
    requires |xs| > 0
    requires forall i :: 0 <= i < |xs| ==> lo <= xs[i] <= hi
    ensures lo as real <= Mean(xs) <= hi as real
  {
    SumBounds(xs, lo, hi);
    QuotientBounds(Sum(xs), |xs|, lo, hi);
  }

  lemma QuotientBounds(s: int, n: int, lo: int, hi: int)
    requires n > 0 && n as real * lo as real <= s as real <= n as real * hi as real
    ensures lo as real <= s as real / n as real <= hi as real
  {
    var sr, nr, lr, hr := s as real, n as real, lo as real, hi as real;
    assert sr / nr - lr == (sr - nr * lr) / nr;
    assert hr - sr / nr == (nr * hr - sr) / nr;
  }

  /** Running sum and row count of one group. */
  datatype Totals = Totals(sum: int, count: nat)

  function MeanOf(t: Totals): real
    requires t.count > 0
  {
    t.sum as real / t.count as real
  }

  /** The ratings of the rows whose key is `k`, in row order. */
  function RatingsWhere<K(==)>(rows: seq<Rating>, key: Rating -> K, k: K): (r: seq<int>)
    ensures |r| <= |rows|
    ensures forall v :: v in r <==> exists x :: x in rows && key(x) == k && x.rating == v
    ensures r == [] <==> forall x :: x in rows ==> key(x) != k
  {
    if rows == [] then []
    else
      assert rows == [rows[0]] + rows[1..];
      (if key(rows[0]) == k then [rows[0].rating] else []) + RatingsWhere(rows[1..], key, k)
  }

  /** `groupby(key).agg({"Book-Rating": "mean"})` before the division: sum and count
      of the ratings per key. */
  function GroupTotals<K(==)>(rows: seq<Rating>, key: Rating -> K): (m: map<K, Totals>)
    ensures forall k :: k in m ==> m[k].count > 0
  {
    if rows == [] then map[]
    else
      var rest := GroupTotals(rows[1..], key);
      var k := key(rows[0]);
      var before := if k in rest then rest[k] else Totals(0, 0);
      rest[k := Totals(before.sum + rows[0].rating, before.count + 1)]
  }

  /** The grouping has a key for exactly the keys of the rows, and its totals are the sum
      and the number of the ratings with that key. */
  lemma {:induction false} GroupTotalsSound<K>(rows: seq<Rating>, key: Rating -> K)
    ensures forall k :: k in GroupTotals(rows, key) <==> exists x :: x in rows && key(x) == k
    ensures forall k :: k in GroupTotals(rows, key) ==>
      GroupTotals(rows, key)[k] == Totals(Sum(RatingsWhere(rows, key, k)), |RatingsWhere(rows, key, k)|)
  {
    if rows != [] {
      GroupTotalsSound(rows[1..], key);
      assert rows == [rows[0]] + rows[1..];
      var k0 := key(rows[0]);
      forall k | k in GroupTotals(rows, key)
        ensures GroupTotals(rows, key)[k] == Totals(Sum(RatingsWhere(rows, key, k)), |RatingsWhere(rows, key, k)|)
      {
        var tail := RatingsWhere(rows[1..], key, k);
        if k == k0 {
          assert RatingsWhere(rows, key, k) == [rows[0].rating] + tail;
          assert ([rows[0].rating] + tail)[1..] == tail;
        } else {
          assert RatingsWhere(rows, key, k) == tail;
        }
      }
    }
  }

  /** Dropping rows whose key is not `k` does not change the ratings with key `k`. */
  lemma {:induction false} RatingsWhereFilter<K>(s: seq<Rating>, keep: Rating -> bool, key: Rating -> K, k: K)
    requires forall x :: key(x) == k ==> keep(x)
    ensures RatingsWhere(Filter(s, keep), key, k) == RatingsWhere(s, key, k)
  {
    if s != [] {
      RatingsWhereFilter(s[1..], keep, key, k);
      var f := Filter(s, keep);
      if keep(s[0]) {
        assert f == [s[0]] + Filter(s[1..], keep);
        assert f[1..] == Filter(s[1..], keep);
      } else {
        assert f == Filter(s[1..], keep);
      }
    }
  }

  function PairKey(x: Rating): (int, string) {
    (x.user, x.title)
  }

  function TitleKey(x: Rating): string {
    x.title
  }

  /** The mask `isin(relevant_books)`. */
  function TitleIn(titles: set<string>): Rating -> bool {
    (x: Rating) => x.title in titles
  }

  /** Lines 64-66 and 74-76: the cohort rows with a relevant title. */
  function RelevantRows(cohort: seq<Rating>): seq<Rating> {
    Filter(cohort, TitleIn(RelevantTitles(cohort)))
  }

  /** Lines 63-70: (user, title) -> mean rating, the pivot as a partial map. */
  function RatingMatrix(relevantRows: seq<Rating>): map<(int, string), real> {
    var groups := GroupTotals(relevantRows, PairKey);
    map k | k in groups :: MeanOf(groups[k])
  }

  /** Lines 73-79: title -> mean rating over all its relevant cohort rows. */
  function AverageRatings(relevantRows: seq<Rating>): map<string, real> {
    var groups := GroupTotals(relevantRows, TitleKey);
    map t | t in groups :: MeanOf(groups[t])
  }

  /** A group of the filtered rows averages exactly the unfiltered ratings of its key
      when the filter keeps every row with that key. */
  lemma GroupMean<K>(s: seq<Rating>, keep: Rating -> bool, key: Rating -> K, k: K)
    requires forall x :: key(x) == k ==> keep(x)
    requires k in GroupTotals(Filter(s, keep), key)
    ensures |RatingsWhere(s, key, k)| > 0
    ensures MeanOf(GroupTotals(Filter(s, keep), key)[k]) == Mean(RatingsWhere(s, key, k))
  {
    GroupTotalsSound(Filter(s, keep), key);
    RatingsWhereFilter(s, keep, key, k);
  }

  /** A matrix cell exists exactly for a relevant title and a user who rated it in the
      cohort. */
  lemma MatrixKeys(cohort: seq<Rating>)
    ensures forall k :: k in RatingMatrix(RelevantRows(cohort)) <==>
      k.1 in RelevantTitles(cohort) && exists x :: x in cohort && PairKey(x) == k
  {
    var rel := RelevantTitles(cohort);
    var rows := RelevantRows(cohort);
    GroupTotalsSound(rows, PairKey);
    FilterMembers(cohort, TitleIn(rel));
    forall k
      ensures k in RatingMatrix(rows) <==> exists x :: x in rows && PairKey(x) == k
    {
    }
  }

  /** A matrix cell holds the mean of that user's cohort ratings of that title, so it lies
      between their minimum and maximum. */
  lemma MatrixValues(cohort: seq<Rating>, k: (int, string))
    requires k in RatingMatrix(RelevantRows(cohort))
    ensures |RatingsWhere(cohort, PairKey, k)| > 0
    ensures RatingMatrix(RelevantRows(cohort))[k] == Mean(RatingsWhere(cohort, PairKey, k))
    ensures Min(RatingsWhere(cohort, PairKey, k)) as real <= RatingMatrix(RelevantRows(cohort))[k]
    ensures RatingMatrix(RelevantRows(cohort))[k] <= Max(RatingsWhere(cohort, PairKey, k)) as real
  {
    MatrixKeys(cohort);
    GroupMean(cohort, TitleIn(RelevantTitles(cohort)), PairKey, k);
    MeanBetween(RatingsWhere(cohort, PairKey, k));
  }

  /** The per-title average has a key for exactly the relevant titles. */
  lemma AverageKeys(cohort: seq<Rating>)
    ensures forall t :: t in AverageRatings(RelevantRows(cohort)) <==> t in RelevantTitles(cohort)
  {
    var rel := RelevantTitles(cohort);
    var rows := RelevantRows(cohort);
    GroupTotalsSound(rows, TitleKey);
    FilterMembers(cohort, TitleIn(rel));
    RelevantIff(cohort);
    forall t | t in rel
      ensures exists x :: x in rows && TitleKey(x) == t
    {
      assert |DistinctRaters(cohort, t)| >= MinRaters;
      var u :| u in DistinctRaters(cohort, t);
      var x :| x in cohort && x.title == t && x.user == u;
      assert x in rows && TitleKey(x) == t;
    }
  }

  /** The per-title average of a relevant title is the mean of all its cohort ratings. */
  lemma AverageValues(cohort: seq<Rating>, t: string)
    requires t in AverageRatings(RelevantRows(cohort))
    ensures |RatingsWhere(cohort, TitleKey, t)| > 0
    ensures AverageRatings(RelevantRows(cohort))[t] == Mean(RatingsWhere(cohort, TitleKey, t))
  {
    AverageKeys(cohort);
    GroupMean(cohort, TitleIn(RelevantTitles(cohort)), TitleKey, t);
  }

  /** Column labels in strictly increasing order: sorted and free of duplicates. */
  predicate StrictlyAscending(s: seq<string>) {
    forall i, j :: 0 <= i < j < |s| ==> LexLeq(s[i], s[j]) && s[i] != s[j]
  }

  /** Add one label to sorted, duplicate-free labels. */
  function InsertColumn(c: string, columns: seq<string>): (r: seq<string>)
    ensures |r| <= |columns| + 1
  {
    if columns == [] then [c]
    else if c == columns[0] then columns
    else if LexLeq(c, columns[0]) then [c] + columns
    else [columns[0]] + InsertColumn(c, columns[1..])
  }

  lemma {:induction false} InsertColumnSound(c: string, columns: seq<string>)
    requires StrictlyAscending(columns)
    ensures forall d :: d in InsertColumn(c, columns) <==> d == c || d in columns
    ensures StrictlyAscending(InsertColumn(c, columns))
  {
    if columns != [] && c != columns[0] && !LexLeq(c, columns[0]) {
      var rest := InsertColumn(c, columns[1..]);
      InsertColumnSound(c, columns[1..]);
      assert columns == [columns[0]] + columns[1..];
      LexLeqTotal(c, columns[0]);
      forall d | d in rest
        ensures LexLeq(columns[0], d) && columns[0] != d
      {
        if d != c {
          var j :| 0 <= j < |columns[1..]| && columns[1..][j] == d;
          assert columns[j + 1] == d;
        }
      }
      var r := [columns[0]] + rest;
      forall i, j | 0 <= i < j < |r|
        ensures LexLeq(r[i], r[j]) && r[i] != r[j]
      {
        if i == 0 {
          assert r[j] == rest[j - 1];
          assert r[j] in rest;
        } else {
          assert r[i] == rest[i - 1] && r[j] == rest[j - 1];
        }
      }
    } else if columns != [] && c != columns[0] {
      var r := [c] + columns;
      forall i, j | 0 <= i < j < |r|
        ensures LexLeq(r[i], r[j]) && r[i] != r[j]
      {
        if i == 0 && j > 1 {
          var d := columns[j - 1];
          assert LexLeq(columns[0], d) && columns[0] != d;
          LexLeqTrans(c, columns[0], d);
          if c == d {
            LexLeqAntisym(d, columns[0]);
          }
        }
      }
    }
  }

  /** Lines 63-70: the pivot's columns, the distinct titles of the rows in sorted order. */
  function PivotColumns(rows: seq<Rating>): seq<string> {
    if rows == [] then [] else InsertColumn(rows[0].title, PivotColumns(rows[1..]))
  }

  /** The pivot's columns are sorted, free of duplicates, and are exactly the titles of
      the rows. */
  lemma {:induction false} PivotColumnsSound(rows: seq<Rating>)
    ensures StrictlyAscending(PivotColumns(rows))
    ensures forall c :: c in PivotColumns(rows) <==> exists x :: x in rows && x.title == c
  {
    if rows != [] {
      PivotColumnsSound(rows[1..]);
      InsertColumnSound(rows[0].title, PivotColumns(rows[1..]));
      assert rows == [rows[0]] + rows[1..];
    }
  }

  /** The matrix built from the cohort has a column for exactly the relevant titles. */
  lemma PivotColumnsRelevant(cohort: seq<Rating>)
    ensures StrictlyAscending(PivotColumns(RelevantRows(cohort)))
    ensures forall c :: c in PivotColumns(RelevantRows(cohort)) <==> c in RelevantTitles(cohort)
  {
    var rows := RelevantRows(cohort);
    PivotColumnsSound(rows);
    AverageKeys(cohort);
    GroupTotalsSound(rows, TitleKey);
    forall c | c in RelevantTitles(cohort)
      ensures exists x :: x in rows && x.title == c
    {
      assert c in AverageRatings(rows);
      var x :| x in rows && TitleKey(x) == c;
    }
    FilterMembers(cohort, TitleIn(RelevantTitles(cohort)));
  }
}
