# Book recommendations for the three trilogy volumes — a Dafny model

`book_rec.py` reads the Book-Crossing ratings table, a list of rows of the form
(ISBN, Book-Title, Book-Author, User-ID, Book-Rating). From it, `main` builds a
report for each of the three volumes "fellowship of the ring", "two towers" and
"return of the king". Each report lists the books whose ratings correlate best
with that volume's ratings. This project models `main` step by step and proves
what each step guarantees:

- **Title canonicalizer** (`canonical.dfy`, `text.dfy`). Lines 29-49 work in place
  on an `array<Rating>`. Every title is ASCII-lowercased. Next comes the set of
  distinct "trilogy" titles. A title is in that set when some row has it, the
  row's author contains "tolkien" in any case (a missing author never matches),
  and the title contains one of the three volume names. Each trilogy title maps
  to the first volume name it contains. Last, every row whose title is a key of
  that map is rewritten.
- **Cohort selector** (`cohort.dfy`). The cohort users are those with a row whose
  title is a volume name. The cohort is every row of those users.
- **Relevance filter** (`relevance.dfy`). Cohort rows are grouped by title. A
  title is kept when it has at least 8 distinct raters.
- **Rating matrix and averages** (`aggregate.dfy`). The matrix is a partial map
  from (user, relevant title) to the exact mean of that pair's ratings. The
  averages map each relevant title to the mean of all its cohort ratings.
- **Reports** (`ranking.dfy`). For each volume, in list order, the volume's row
  of the correlation table is inner-joined with the averages, following the
  table's column order. `nlargest(10)` then keeps the first 10 entries of this
  ranking: the entries with a defined coefficient by decreasing coefficient,
  then the entries whose coefficient is NaN. So NaN entries fill a report that
  has fewer than 10 defined ones. A volume with no row in the table makes
  `nlargest` fail on the missing column. `main` then stops and returns no
  status.
- **`main`** (`pipeline.dfy`). `RecommendBooks` runs the in-place steps and then
  the derived computation `Recommend`. The correlation table's columns are the
  pivot's columns: the relevant titles, sorted as Python sorts strings. The
  Pearson coefficients are a function parameter (`Pearson`) applied to the
  matrix the model builds.

Some behaviour of the code is easy to miss:

- Zero ratings are not dropped.
- A volume's own entry, and the other volumes, stay among its candidates. The
  self-correlation entry is kept.
- The joined averages carry only the mean rating, not a rating count.
- A volume that is not a relevant title makes `main` fail; it does not give an
  empty report. So an empty table fails (`EmptyTableFails`), and `main` succeeds
  exactly when all three volumes are relevant (`ReportsSucceedIff`).

## Model

| member | source | states |
|---|---|---|
| `Text.Lower` | book_rec.py:29 | the result has the input's length, each character is the ASCII-lowercase of the input's, and no upper-case letter is left |
| `Text.LowerFixesLower` | book_rec.py:29 | lowercasing leaves a lower-case string unchanged |
| `Text.LowerOfLower` | book_rec.py:29 | lowercasing twice equals lowercasing once |
| `Text.ContainsIff` | book_rec.py:44 | `Contains`, Python's `name in book`, holds exactly when the fragment occurs at some position of the title |
| `Text.LexLeqTotal` | book_rec.py:63-69 | `LexLeq`, Python's `<=` on strings, orders any two titles one way or the other |
| `Text.LexLeqTrans` | book_rec.py:63-69 | `LexLeq` is transitive |
| `Text.LexLeqAntisym` | book_rec.py:63-69 | two titles each `LexLeq` the other are equal |
| `Canonical.AuthorMatchesIff` | book_rec.py:34-36 | `AuthorMatches` holds exactly when the author is present and "tolkien" occurs in its lowercased form; a missing author (`fillna(False)`) never matches |
| `Canonical.LowercaseTitles` | book_rec.py:29 | after the in-place loop the array is `LowerTitles` of the input: every title lowercased and all other fields unchanged |
| `Canonical.LowerTitlesSound` | book_rec.py:29 | `LowerTitles` keeps the row count, makes every title lower case, changes only titles, and applying it again changes nothing |
| `Canonical.TrilogyTitles` | book_rec.py:32-39 | the titles are pairwise distinct, and a title is listed exactly when some row with it has a "tolkien" author (`AuthorMatches`) and contains one of the three volume names |
| `Canonical.FirstMatch` | book_rec.py:43-45 | the result is None exactly when the title contains no name; otherwise it is the earliest name in list order that the title contains |
| `Canonical.ConversionMapSound` | book_rec.py:32-47 | in `ConversionMap` of the trilogy titles every key comes from a matching row with a present author; its value is never None, lies in the volume list and is the first name the key contains; every matching row's title is a key |
| `Canonical.ReplaceTitles` | book_rec.py:49 | after the in-place loop the array is `RewriteRows` of the input: each row whose title is a key with a name carries that name (`RewriteTitle`), every other row is unchanged |
| `Canonical.RewriteRowsFrame` | book_rec.py:49 | `RewriteRows` keeps the row count, changes only titles, and leaves every row whose title is not a key unchanged |
| `Canonical.CanonicalNamesFixed` | book_rec.py:16-20 | each volume name is lower case and is its own first match, so the map sends a canonical name to itself |
| `Canonical.CanonicalizeTitles` | book_rec.py:28-49 | the array ends as `Canonicalize` of the input, and the returned map is the one built from the lowercased table |
| `Canonical.CanonicalizeIdempotent` | book_rec.py:29-49 | `Canonicalize` (lowercase, selection, map building and rewrite) applied a second time gives the same table as once |
| `Cohort.FilterMembers` | book_rec.py:54 | a row is in the masked table (`Filter`) exactly when it is in the input and satisfies the mask |
| `Cohort.FilterCounts` | book_rec.py:54 | `Filter` keeps each row satisfying the mask as often as in the input and drops every other row |
| `Cohort.CohortExact` | book_rec.py:51-54 | `CohortRows` (every row of a `LotrUsers` user) is a sub-multiset of the table and holds exactly the rows whose user has some row titled with a volume name |
| `Relevance.GroupRatersSound` | book_rec.py:57-58 | `GroupRaters` has a key for exactly the titles present, each holding exactly that title's distinct raters |
| `Relevance.RelevantIff` | book_rec.py:56-61 | a title is in `RelevantTitles` exactly when it has at least 8 distinct cohort raters; titles below the threshold are absent |
| `Aggregate.MeanBetween` | book_rec.py:68 | the mean of a non-empty group of integer ratings lies between their minimum and maximum |
| `Aggregate.GroupTotalsSound` | book_rec.py:67-68 | `GroupTotals` has an entry for exactly the keys present, holding the sum and the count of the ratings with that key |
| `Aggregate.RatingsWhereFilter` | book_rec.py:64-66 | restricting the cohort to relevant titles (`RelevantRows`) does not change the ratings of a group whose key has a relevant title |
| `Aggregate.MatrixKeys` | book_rec.py:63-70 | a cell (user, title) of `RatingMatrix` exists exactly when the title is relevant and the user rated it in the cohort; a missing cell means "not rated" |
| `Aggregate.MatrixValues` | book_rec.py:63-70 | a cell of `RatingMatrix` holds the arithmetic mean of that user's cohort ratings of that title, so it lies between their minimum and maximum |
| `Aggregate.AverageKeys` | book_rec.py:73-79 | `AverageRatings` has an entry for exactly the relevant titles |
| `Aggregate.AverageValues` | book_rec.py:73-79 | a title's entry in `AverageRatings` is the mean of all cohort ratings of that title |
| `Aggregate.InsertColumnSound` | book_rec.py:63-70 | `InsertColumn` adds one label to sorted, duplicate-free labels and keeps them sorted and duplicate-free |
| `Aggregate.PivotColumnsSound` | book_rec.py:63-70 | `PivotColumns` (the pivot's columns) are strictly increasing in Python's string order and are exactly the titles of the rows |
| `Aggregate.PivotColumnsRelevant` | book_rec.py:63-72 | the pivot of the relevant cohort rows, and so the correlation table, has a column for exactly the relevant titles |
| `Ranking.MergeSound` | book_rec.py:83-85 | `Merge`, the inner join, holds exactly the table columns that have an average, each with the target's coefficient for that column (None where NaN) and its average; the target itself is not excluded |
| `Ranking.InsertDesc` | book_rec.py:87 | insertion adds exactly one entry and keeps all others |
| `Ranking.InsertDescSorted` | book_rec.py:87 | inserting into a descending sequence keeps it descending |
| `Ranking.SortDesc` | book_rec.py:87 | the sort keeps the length and the multiset of entries |
| `Ranking.SortDescSorted` | book_rec.py:87 | `SortDesc` yields a descending sequence |
| `Ranking.FilterSplit` | book_rec.py:87 | the defined and the NaN entries together are the whole input |
| `Ranking.NLargestShape` | book_rec.py:87 | `NLargest` (`nlargest(10)`) returns min(10, number of entries) entries taken from the input; the defined entries come first, in decreasing order; a NaN entry is kept only when every defined entry is kept |
| `Ranking.NLargestTop` | book_rec.py:87 | when a defined entry is left out of `NLargest`, every entry kept is defined and scores at least as high |
| `Ranking.ReportEntries` | book_rec.py:82-87 | every candidate of a `Report` carries its own title's coefficient with the target (None where NaN) and its own title's average |
| `Ranking.RunReportsStatus` | book_rec.py:81-93 | `RunReports` succeeds exactly when every volume's report succeeds, and then prints one report per volume |
| `Ranking.RunReportsStops` | book_rec.py:81-93 | a failed run stops at the first volume whose report fails, after printing the reports of the volumes before it |
| `Ranking.RunReportsAt` | book_rec.py:81-87 | the i-th report printed is the report of the i-th volume in list order |
| `Ranking.RunReportsEntry` | book_rec.py:81-87 | every candidate of the i-th printed report carries its title's coefficient with the i-th volume and its own title's average |
| `Pipeline.RecommendBooks` | book_rec.py:23-93 | the table ends canonicalized in place and the reports and status are `Recommend` of it |
| `Pipeline.ReportedTitleRelevant` | book_rec.py:56-87 | every candidate `Recommend` reports for a volume has at least 8 distinct cohort raters, carries its coefficient with that volume (None where NaN) in the correlation table and its title's mean cohort rating |
| `Pipeline.ReportsSucceedIff` | book_rec.py:51-93 | `Recommend` succeeds exactly when all three volumes are relevant titles, and then prints three reports |
| `Pipeline.EmptyTableFails` | book_rec.py:81-96 | on an empty table, `Recommend` prints no report and fails |

## Left out

- Loading the table (`get_books_df` in common.py): the HTTP download, HTML scraping, zip extraction and CSV parsing. The table is given as an array of rows.
- The Pearson coefficients of `relevant_ratings.corr()` (line 72): floating point with pairwise-complete NaN rules. They are the `Pearson` parameter; the table's columns and their order are computed by the model.
- Report formatting and printing (`rename`, `to_string`, `print`, lines 86-91). Reports are returned as values.
- Logging set-up, the catch-all `except` and `sys.exit` (lines 10-14, 95-101). The only failure modelled is the one the data can cause: `nlargest` on a missing column. It appears as the `false` status.
- Floating-point means: means are exact `real` quotients of integer sums.
- Unicode case rules of `str.lower` and of case-insensitive matching. Only ASCII letters are lowered.
- Missing titles (NaN in Book-Title). Every row has a title string.
- A None-valued entry of the conversion map would make pandas write a missing title. The model leaves such a title unchanged instead. `Canonical.ConversionMapSound` proves that no value is None.
- Ranking.NLargestShape: does not state that equal coefficients keep their input order (`keep="first"`), nor that NaN entries keep their input order. The model's insertion sort does place earlier entries first among equal scores, and its NaN entries follow the input order.
