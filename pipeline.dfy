/** `main` of book_rec.py (lines 23-93): canonicalize the titles in place, then derive
    the cohort, the relevant titles, the rating matrix, the averages and the reports. */
module Pipeline {
  import opened Records
  import opened Canonical
  import opened Cohort
  import opened Relevance
  import opened Aggregate
  import opened Ranking

  /** The Pearson coefficients `DataFrame.corr()` computes from the matrix, a partial map
      from (user, title) to mean rating: a pair of titles is absent where its coefficient
      is NaN. */
  type Pearson = map<(int, string), real> -> map<(string, string), real>

  /** Line 72: the correlation table has the pivot's columns, in the pivot's order, and
      the coefficients of the matrix. */
  function CorrelationTable(rows: seq<Rating>, pearson: Pearson): CorrTable {
    var relevantRows := RelevantRows(CohortRows(rows));
    CorrTable(PivotColumns(relevantRows), pearson(RatingMatrix(relevantRows)))
  }

  /** Lines 51-93 on the canonicalized table. */
  function Recommend(rows: seq<Rating>, pearson: Pearson): (seq<seq<Entry>>, bool) {
    var relevantRows := RelevantRows(CohortRows(rows));
    RunReports(LotrBookNames, ReportFor(CorrelationTable(rows, pearson), AverageRatings(relevantRows)))
  }

  /** `main`: lines 29-49 in place, then the derived reports; `ok` is false when `main`
      fails and returns no status. */
  method RecommendBooks(table: array<Rating>, pearson: Pearson) returns (reports: seq<seq<Entry>>, ok: bool)
    modifies table
    ensures table[..] == Canonicalize(old(table[..]))
    ensures (reports, ok) == Recommend(table[..], pearson)
  {
    var _ := CanonicalizeTitles(table);
    var result := Recommend(table[..], pearson);
    reports, ok := result.0, result.1;
  }

  /** Every candidate of the i-th report has at least MinRaters distinct cohort raters,
      carries its coefficient with the i-th volume (None where NaN) and that title's mean
      cohort rating. */
  lemma ReportedTitleRelevant(rows: seq<Rating>, pearson: Pearson, i: int, e: Entry)
    ensures 0 <= i < |Recommend(rows, pearson).0| && e in Recommend(rows, pearson).0[i] ==>
      && |DistinctRaters(CohortRows(rows), e.title)| >= MinRaters
      && i < |LotrBookNames|
      && e.corr == Correlation(CorrelationTable(rows, pearson), LotrBookNames[i], e.title)
      && e.title in AverageRatings(RelevantRows(CohortRows(rows)))
      && e.avg == AverageRatings(RelevantRows(CohortRows(rows)))[e.title]
  {
    var cohort := CohortRows(rows);
    var avg := AverageRatings(RelevantRows(cohort));
    var table := CorrelationTable(rows, pearson);
    var reports := RunReports(LotrBookNames, ReportFor(table, avg)).0;
    if 0 <= i < |reports| && e in reports[i] {
      RunReportsEntry(LotrBookNames, table, avg, i, e);
      AverageKeys(cohort);
      RelevantIff(cohort);
    }
  }

  /** `main` succeeds exactly when each of the three canonical volumes is a relevant
      title, and then prints one report per volume. */
  lemma ReportsSucceedIff(rows: seq<Rating>, pearson: Pearson)
    ensures Recommend(rows, pearson).1 <==>
      forall name :: name in LotrBookNames ==> name in RelevantTitles(CohortRows(rows))
    ensures Recommend(rows, pearson).1 ==> |Recommend(rows, pearson).0| == |LotrBookNames|
  {
    var cohort := CohortRows(rows);
    var table := CorrelationTable(rows, pearson);
    RunReportsStatus(LotrBookNames, ReportFor(table, AverageRatings(RelevantRows(cohort))));
    PivotColumnsRelevant(cohort);
  }

  /** An empty table has no cohort, so `main` fails on the first report. */
  lemma EmptyTableFails(pearson: Pearson)
    ensures Recommend([], pearson) == ([], false)
  {
    PivotColumnsRelevant([]);
    assert LotrBookNames[0] !in CorrelationTable([], pearson).columns;
  }
}
