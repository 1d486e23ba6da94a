/** The rating table the recommender works on, and the fixed constants of book_rec.py. */
module Records {

  datatype Option<+T> = None | Some(value: T)

  /** One row of the merged books/ratings table: ISBN, Book-Title, Book-Author (missing
      for some books), User-ID and Book-Rating. */
  datatype Rating = Rating(isbn: string, title: string, author: Option<string>, user: int, rating: int)

  /** The three canonical volume names, in the order that decides the first match. */
  const LotrBookNames: seq<string> := ["fellowship of the ring", "two towers", "return of the king"]

  /** The author filter, matched case-insensitively. */
  const AuthorFragment: string := "tolkien"

  /** A title is relevant when at least this many distinct cohort users rated it. */
  const MinRaters: nat := 8

  /** How many candidates each report keeps. */
  const TopCount: nat := 10
}
