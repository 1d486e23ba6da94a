/** The title canonicalizer of book_rec.py (lines 28-49): lowercase every title in place,
    pick the distinct trilogy titles, map each to the first canonical volume name it
    contains, and rewrite those titles in place. */
module Canonical {
  import opened Records
  import opened Text

  /** `str.contains("tolkien", case=False)` followed by `fillna(False)`: a missing
      author never matches. */
  predicate AuthorMatches(author: Option<string>) {
    match author
    case None => false
    case Some(a) => Contains(Lower(a), AuthorFragment)
  }

  /** A present author matches exactly when "tolkien" occurs somewhere in its lowercased
      form; a missing author never matches. */
  lemma AuthorMatchesIff(author: Option<string>)
    ensures AuthorMatches(author) <==> author.Some? && exists i :: OccursAt(Lower(author.value), AuthorFragment, i)
  {
    if author.Some? {
      var a := author.value;
      ContainsIff(Lower(a), AuthorFragment);
      assert AuthorMatches(author) == Contains(Lower(a), AuthorFragment);
    }
  }

  /** The title matches the alternation of the canonical names, i.e. contains one of them. */
  predicate ContainsAnyName(title: string) {
    exists i :: 0 <= i < |LotrBookNames| && Contains(title, LotrBookNames[i])
  }

  /** A row that passes both filters of the trilogy selection. */
  predicate IsTrilogyRow(row: Rating) {
    AuthorMatches(row.author) && ContainsAnyName(row.title)
  }

  /** The distinct titles of the trilogy rows, in order of first appearance (`unique()`). */
  function TrilogyTitles(rows: seq<Rating>): (r: seq<string>)
    ensures forall i, j :: 0 <= i < j < |r| ==> r[i] != r[j]
    ensures forall t :: t in r <==> exists k :: 0 <= k < |rows| && IsTrilogyRow(rows[k]) && rows[k].title == t
  {
    if rows == [] then []
    else
      var prev := TrilogyTitles(rows[..|rows| - 1]);
      var last := rows[|rows| - 1];
      if IsTrilogyRow(last) && last.title !in prev then prev + [last.title] else prev
  }

  /** `names[i]` is the first of `names` that `title` contains. */
  predicate IsFirstMatch(title: string, names: seq<string>, i: int) {
    0 <= i < |names| && Contains(title, names[i]) &&
    forall j :: 0 <= j < i ==> !Contains(title, names[j])
  }

  /** `next((name for name in names if name in title), None)`. */
  function FirstMatch(title: string, names: seq<string>): (r: Option<string>)
    ensures r.None? <==> forall i :: 0 <= i < |names| ==> !Contains(title, names[i])
    ensures r.Some? ==> exists i :: IsFirstMatch(title, names, i) && names[i] == r.value
  {
    if names == [] then None
    else if Contains(title, names[0]) then
      assert IsFirstMatch(title, names, 0);
      Some(names[0])
    else
      var r := FirstMatch(title, names[1..]);
      if r.Some? then
        var i :| IsFirstMatch(title, names[1..], i) && names[1..][i] == r.value;
        assert IsFirstMatch(title, names, i + 1);
        r
      else
        r
  }

  /** The dict comprehension of lines 42-47. */
  function ConversionMap(titles: seq<string>): map<string, Option<string>> {
    map t | t in titles :: FirstMatch(t, LotrBookNames)
  }

  /** `Series.replace(conversion)` on one title: a key with a name is replaced by it. */
  function RewriteTitle(title: string, conversion: map<string, Option<string>>): string {
    if title in conversion && conversion[title].Some? then conversion[title].value else title
  }

  /** The table after line 29. */
  function LowerTitles(rows: seq<Rating>): seq<Rating> {
    seq(|rows|, i requires 0 <= i < |rows| => rows[i].(title := Lower(rows[i].title)))
  }

  /** The table after line 49. */
  function RewriteRows(rows: seq<Rating>, conversion: map<string, Option<string>>): seq<Rating> {
    seq(|rows|, i requires 0 <= i < |rows| => rows[i].(title := RewriteTitle(rows[i].title, conversion)))
  }

  /** The whole of lines 29-49 on a table value. */
  function Canonicalize(rows: seq<Rating>): seq<Rating> {
    var lowered := LowerTitles(rows);
    RewriteRows(lowered, ConversionMap(TrilogyTitles(lowered)))
  }

  /** Line 29: `df["Book-Title"] = df["Book-Title"].str.lower()`. */
  method LowercaseTitles(table: array<Rating>)
    modifies table
    ensures table[..] == LowerTitles(old(table[..]))
  {
    for i := 0 to table.Length
      invariant forall k :: 0 <= k < i ==> table[k] == old(table[k]).(title := Lower(old(table[k]).title))
      invariant forall k :: i <= k < table.Length ==> table[k] == old(table[k])
    {
      table[i] := table[i].(title := Lower(table[i].title));
    }
  }

  /** Line 49: `df["Book-Title"].replace(conversion, inplace=True)`. */
  method ReplaceTitles(table: array<Rating>, conversion: map<string, Option<string>>)
    modifies table
    ensures table[..] == RewriteRows(old(table[..]), conversion)
  {
    for i := 0 to table.Length
      invariant forall k :: 0 <= k < i ==> table[k] == old(table[k]).(title := RewriteTitle(old(table[k]).title, conversion))
      invariant forall k :: i <= k < table.Length ==> table[k] == old(table[k])
    {
      table[i] := table[i].(title := RewriteTitle(table[i].title, conversion));
    }
  }

  /** Lines 29-49 in place; returns the conversion map that was applied. */
  method CanonicalizeTitles(table: array<Rating>) returns (conversion: map<string, Option<string>>)
    modifies table
    ensures conversion == ConversionMap(TrilogyTitles(LowerTitles(old(table[..]))))
    ensures table[..] == Canonicalize(old(table[..]))
  {
    LowercaseTitles(table);
    conversion := ConversionMap(TrilogyTitles(table[..]));
    ReplaceTitles(table, conversion);
  }

  /** After line 29 every title is lower case, only titles changed, and lowering again
      changes nothing. */
  lemma LowerTitlesSound(rows: seq<Rating>)
    ensures |LowerTitles(rows)| == |rows|
    ensures forall i :: 0 <= i < |rows| ==>
      IsLower(LowerTitles(rows)[i].title) && LowerTitles(rows)[i] == rows[i].(title := LowerTitles(rows)[i].title)
    ensures LowerTitles(LowerTitles(rows)) == LowerTitles(rows)
  {
    var once := LowerTitles(rows);
    forall i | 0 <= i < |rows|
      ensures LowerTitles(once)[i] == once[i]
    {
      LowerOfLower(rows[i].title);
    }
  }

  /** Every key of the conversion map comes from a trilogy row (so never from a row with a
      missing author) and maps to the first canonical name it contains; no value is None. */
  lemma ConversionMapSound(rows: seq<Rating>)
    ensures forall t :: t in ConversionMap(TrilogyTitles(rows)) ==>
      && (exists k :: 0 <= k < |rows| && rows[k].title == t && rows[k].author.Some? && IsTrilogyRow(rows[k]))
      && ConversionMap(TrilogyTitles(rows))[t].Some?
      && ConversionMap(TrilogyTitles(rows))[t].value in LotrBookNames
      && exists i :: IsFirstMatch(t, LotrBookNames, i) && LotrBookNames[i] == ConversionMap(TrilogyTitles(rows))[t].value
    ensures forall k :: 0 <= k < |rows| && IsTrilogyRow(rows[k]) ==> rows[k].title in ConversionMap(TrilogyTitles(rows))
  {
  }

  /** The rewrite keeps the row count, touches only titles, and leaves every row whose
      title is not a key unchanged. */
  lemma RewriteRowsFrame(rows: seq<Rating>, conversion: map<string, Option<string>>)
    ensures |RewriteRows(rows, conversion)| == |rows|
    ensures forall i :: 0 <= i < |rows| && rows[i].title !in conversion ==> RewriteRows(rows, conversion)[i] == rows[i]
    ensures forall i :: 0 <= i < |rows| ==>
      RewriteRows(rows, conversion)[i] == rows[i].(title := RewriteRows(rows, conversion)[i].title)
  {
  }

  /** Each canonical name is lower case and is its own first match. */
  lemma CanonicalNamesFixed()
    ensures forall c :: c in LotrBookNames ==> IsLower(c) && FirstMatch(c, LotrBookNames) == Some(c)
  {
    forall c | c in LotrBookNames
      ensures IsLower(c) && FirstMatch(c, LotrBookNames) == Some(c)
    {
      if c == LotrBookNames[0] {
        FellowshipFixed();
      } else if c == LotrBookNames[1] {
        TowersFixed();
      } else {
        KingFixed();
      }
    }
  }

  lemma FellowshipFixed()
    ensures IsLower(LotrBookNames[0]) && FirstMatch(LotrBookNames[0], LotrBookNames) == Some(LotrBookNames[0])
  {
    assert Contains(LotrBookNames[0], LotrBookNames[0]);
  }

  lemma TowersFixed()
    ensures IsLower(LotrBookNames[1]) && FirstMatch(LotrBookNames[1], LotrBookNames) == Some(LotrBookNames[1])
  {
    assert IsLower(LotrBookNames[1]);
    TowersFirstMatch();
  }

  lemma TowersFirstMatch()
    ensures FirstMatch(LotrBookNames[1], LotrBookNames) == Some(LotrBookNames[1])
  {
    var towers := LotrBookNames[1];
    if Contains(towers, LotrBookNames[0]) {
      ContainsShorter(towers, LotrBookNames[0]);
    }
    assert Contains(towers, towers);
    assert LotrBookNames[1..][0] == towers;
  }

  lemma KingFixed()
    ensures IsLower(LotrBookNames[2]) && FirstMatch(LotrBookNames[2], LotrBookNames) == Some(LotrBookNames[2])
  {
    assert IsLower(LotrBookNames[2]);
    KingFirstMatch();
  }

  lemma KingFirstMatch()
    ensures FirstMatch(LotrBookNames[2], LotrBookNames) == Some(LotrBookNames[2])
  {
    if Contains(LotrBookNames[2], LotrBookNames[0]) {
      ContainsShorter(LotrBookNames[2], LotrBookNames[0]);
    }
    KingLacksTowers();
    assert Contains(LotrBookNames[2], LotrBookNames[2]);
    assert LotrBookNames[1..][1..][0] == LotrBookNames[2];
  }

  /** "return of the king" has no 'w', so it cannot contain "two towers". */
  lemma KingLacksTowers()
    ensures !Contains(LotrBookNames[2], LotrBookNames[1])
  {
    assert 'w' !in LotrBookNames[2];
    assert LotrBookNames[1][1] == 'w';
    if Contains(LotrBookNames[2], LotrBookNames[1]) {
      ContainsChar(LotrBookNames[2], LotrBookNames[1], 'w');
    }
  }

  /** Running lines 29-49 a second time changes nothing. */
  lemma CanonicalizeIdempotent(rows: seq<Rating>)
    ensures Canonicalize(Canonicalize(rows)) == Canonicalize(rows)
  {
    var lowered := LowerTitles(rows);
    var first := ConversionMap(TrilogyTitles(lowered));
    var once := RewriteRows(lowered, first);
    CanonicalNamesFixed();
    ConversionMapSound(lowered);
    LowerTitlesSound(rows);
    // every title of `once` is lower case, so lowering it again is the identity
    forall i | 0 <= i < |once|
      ensures LowerTitles(once)[i] == once[i]
    {
      LowerOfLower(once[i].title);
    }
    assert LowerTitles(once) == once;
    // every trilogy row of `once` already carries a canonical name
    forall k | 0 <= k < |once| && IsTrilogyRow(once[k])
      ensures once[k].title in LotrBookNames
    {
      if lowered[k].title !in first {
        assert IsTrilogyRow(lowered[k]);
      }
    }
    var second := ConversionMap(TrilogyTitles(once));
    forall t | t in second
      ensures second[t] == Some(t)
    {
    }
    forall i | 0 <= i < |once|
      ensures RewriteRows(once, second)[i] == once[i]
    {
    }
  }
}
