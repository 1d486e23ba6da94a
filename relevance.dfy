/** The relevance filter of book_rec.py (lines 56-61): titles rated by at least
    MinRaters distinct cohort users. */
module Relevance {
  import opened Records

  /** The distinct users who rated `title` in `rows`. */
  ghost function DistinctRaters(rows: seq<Rating>, title: string): set<int> {
    set x | x in rows && x.title == title :: x.user
  }

  /** `groupby("Book-Title").agg({"User-ID": ...})`: each title with the set of its raters. */
  function GroupRaters(rows: seq<Rating>): map<string, set<int>> {
    if rows == [] then map[]
    else
      var rest := GroupRaters(rows[1..]);
      var t := rows[0].title;
      rest[t := (if t in rest then rest[t] else {}) + {rows[0].user}]
  }

  /** Lines 56-61: `nunique` per title, then `query("`User-ID`>=8")`. */
  function RelevantTitles(cohort: seq<Rating>): set<string> {
    var groups := GroupRaters(cohort);
    set t | t in groups && |groups[t]| >= MinRaters
  }

  /** The grouping has a key for exactly the titles of the rows, and each key holds
      exactly the distinct raters of that title. */
  lemma {:induction false} GroupRatersSound(rows: seq<Rating>)
    ensures forall t :: t in GroupRaters(rows) <==> exists x :: x in rows && x.title == t
    ensures forall t :: t in GroupRaters(rows) ==> GroupRaters(rows)[t] == DistinctRaters(rows, t)
  {
    if rows != [] {
      GroupRatersSound(rows[1..]);
      assert rows == [rows[0]] + rows[1..];
      forall t
        ensures DistinctRaters(rows, t) ==
          DistinctRaters(rows[1..], t) + (if rows[0].title == t then {rows[0].user} else {})
      {
      }
    }
  }

  /** A title is relevant exactly when it has at least MinRaters distinct cohort raters;
      titles below the threshold are absent. */
  lemma RelevantIff(cohort: seq<Rating>)
    ensures forall t :: t in RelevantTitles(cohort) <==> |DistinctRaters(cohort, t)| >= MinRaters
  {
    GroupRatersSound(cohort);
    forall t | |DistinctRaters(cohort, t)| >= MinRaters
      ensures t in GroupRaters(cohort)
    {
      var u :| u in DistinctRaters(cohort, t);
    }
  }
}
