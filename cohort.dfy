/** The cohort selector of book_rec.py (lines 51-54): the users who rated a canonical
    volume, and every row of those users. */
module Cohort {
  import opened Records

  /** Boolean-mask indexing `df[mask]`: the rows that satisfy `keep`, in their order,
      each kept as many times as it occurs. */
  function Filter<T(!new)>(s: seq<T>, keep: T -> bool): (r: seq<T>)
    ensures |r| <= |s|
  {
    if s == [] then []
    else
      assert s == [s[0]] + s[1..];
      (if keep(s[0]) then [s[0]] else []) + Filter(s[1..], keep)
  }

  /** The mask keeps exactly the rows that satisfy it. */
  lemma {:induction false} FilterMembers<T(!new)>(s: seq<T>, keep: T -> bool)
    ensures forall x :: x in Filter(s, keep) <==> x in s && keep(x)
  {
    if s != [] {
      FilterMembers(s[1..], keep);
      assert s == [s[0]] + s[1..];
    }
  }

  /** Each row the mask keeps occurs as often as in the input. */
  lemma {:induction false} FilterCounts<T(!new)>(s: seq<T>, keep: T -> bool)
    ensures forall x :: multiset(Filter(s, keep))[x] == if keep(x) then multiset(s)[x] else 0
  {
    if s != [] {
      FilterCounts(s[1..], keep);
      assert s == [s[0]] + s[1..];
    }
  }

  /** Line 51-53: the users with a row whose title is a canonical name. */
  function LotrUsers(rows: seq<Rating>): set<int> {
    set x | x in rows && x.title in LotrBookNames :: x.user
  }

  /** The mask `df["User-ID"].isin(users)`. */
  function UserIn(users: set<int>): Rating -> bool {
    (x: Rating) => x.user in users
  }

  /** Line 54: every row of a cohort user. */
  function CohortRows(rows: seq<Rating>): seq<Rating> {
    Filter(rows, UserIn(LotrUsers(rows)))
  }

  /** The cohort is a sub-multiset of the table holding exactly the rows whose user has
      some row titled with a canonical name. */
  lemma CohortExact(rows: seq<Rating>)
    ensures |CohortRows(rows)| <= |rows|
    ensures multiset(CohortRows(rows)) <= multiset(rows)
    ensures forall x :: x in CohortRows(rows) <==>
      x in rows && exists y :: y in rows && y.user == x.user && y.title in LotrBookNames
  {
    var users := LotrUsers(rows);
    var cohort := CohortRows(rows);
    FilterCounts(rows, UserIn(users));
    FilterMembers(rows, UserIn(users));
    forall x
      ensures multiset(cohort)[x] <= multiset(rows)[x]
      ensures x in cohort <==> x in rows && x.user in users
    {
    }
  }
}
