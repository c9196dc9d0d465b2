/**
 * The read-only queries of `MovieDatabase` over its movies in listing order:
 * by year, by director, by genre, and whole-word title search.
 */
module Queries {
  import opened Json
  import Text

  /**
   * Outcome of a scan that lower-cases a field of every movie: the matches, or
   * the key whose value is present but not a string, on which `.lower()` raises.
   */
  datatype Scan = Matches(records: seq<Record>) | NotText(key: string)

  /**
   * The records of `rs` that satisfy `p`, in order (a list comprehension with
   * a condition): each match is kept as often as it occurs, nothing else is.
   */
  function Filter(rs: seq<Record>, p: Record -> bool): (r: seq<Record>)
    ensures |r| <= |rs|
    ensures forall x :: x in r <==> x in rs && p(x)
    ensures forall x :: multiset(r)[x] == if p(x) then multiset(rs)[x] else 0
    decreases |rs|
  {
    if rs == [] then []
    else
      var init := Filter(rs[..|rs| - 1], p);
      var last := rs[|rs| - 1];
      assert rs == rs[..|rs| - 1] + [last];
      assert forall x :: x in rs <==> x in rs[..|rs| - 1] || x == last;
      if p(last) then init + [last] else init
  }

  /**
   * One more step of the `search_movies` loop: a movie whose title is a
   * string keeps the scan going and is kept exactly when it has the query
   * as a title word.
   */
  lemma SearchStep(rs: seq<Record>, i: nat, query: string)
    requires i < |rs| && AllText(rs[..i], "title") && TextOf(rs[i], "title").Some?
    ensures AllText(rs[..i + 1], "title")
    ensures Filter(rs[..i + 1], x => HasTitleWord(x, query)) ==
      Filter(rs[..i], x => HasTitleWord(x, query)) + (if HasTitleWord(rs[i], query) then [rs[i]] else [])
  {
    assert rs[..i + 1][..i] == rs[..i];
  }

  /** `movie.get(key, "")` as a string; `None` when the value is there but is not a string. */
  function TextOf(r: Record, key: string): Option<string> {
    if key !in r then Some("")
    else if r[key].Str? then Some(r[key].s)
    else None
  }

  /** Every movie's `key` field can be lower-cased. */
  ghost predicate AllText(rs: seq<Record>, key: string) {
    forall i :: 0 <= i < |rs| ==> TextOf(rs[i], key).Some?
  }

  /** `movie.get("year") == year`; a Python float equal to the year also matches. */
  predicate YearIs(r: Record, year: int) {
    "year" in r && (r["year"] == Int(year) || r["year"] == Num(year as real))
  }

  /** `movie.get(key, "").lower() == arg.lower()` */
  predicate TextMatches(r: Record, key: string, arg: string) {
    TextOf(r, key).Some? && Text.Lower(TextOf(r, key).value) == Text.Lower(arg)
  }

  /** The lower-cased query is one of the whitespace-separated words of the lower-cased title. */
  predicate HasTitleWord(r: Record, query: string) {
    TextOf(r, "title").Some? && Text.Lower(query) in Text.Words(Text.Lower(TextOf(r, "title").value))
  }

  /** `get_movie_by_year`: the movies of that year, in listing order. */
  function ByYear(rs: seq<Record>, year: int): (r: seq<Record>)
    ensures |r| <= |rs|
    ensures forall x :: x in r <==> x in rs && YearIs(x, year)
    ensures forall x :: multiset(r)[x] == if YearIs(x, year) then multiset(rs)[x] else 0
  {
    Filter(rs, x => YearIs(x, year))
  }

  /**
   * A case-insensitive comparison of field `key` with `arg` over all movies:
   * it raises unless every movie's field is a string or missing (missing reads
   * as ""); otherwise it yields the movies whose field equals `arg` ignoring case.
   */
  function ByText(rs: seq<Record>, key: string, arg: string): (r: Scan)
    ensures r.Matches? <==> AllText(rs, key)
    ensures r.NotText? ==> r.key == key
    ensures r.Matches? ==> |r.records| <= |rs|
    ensures r.Matches? ==> forall x :: x in r.records <==>
      x in rs && Text.Lower(TextOf(x, key).value) == Text.Lower(arg)
    ensures r.Matches? ==>
      forall x :: multiset(r.records)[x] == if TextMatches(x, key, arg) then multiset(rs)[x] else 0
  {
    if forall i :: 0 <= i < |rs| ==> TextOf(rs[i], key).Some? then
      Matches(Filter(rs, x => TextMatches(x, key, arg)))
    else NotText(key)
  }

  /** `get_movie_by_director` */
  function ByDirector(rs: seq<Record>, director: string): (r: Scan)
    ensures r.Matches? <==> AllText(rs, "director")
    ensures r.NotText? ==> r.key == "director"
    ensures r.Matches? ==>
      forall x :: multiset(r.records)[x] == if TextMatches(x, "director", director) then multiset(rs)[x] else 0
  {
    ByText(rs, "director", director)
  }

  /** `get_movies_by_genre` */
  function ByGenre(rs: seq<Record>, genre: string): (r: Scan)
    ensures r.Matches? <==> AllText(rs, "genre")
    ensures r.NotText? ==> r.key == "genre"
    ensures r.Matches? ==>
      forall x :: multiset(r.records)[x] == if TextMatches(x, "genre", genre) then multiset(rs)[x] else 0
  {
    ByText(rs, "genre", genre)
  }

  /**
   * `search_movies`: raises unless every title is a string or missing;
   * otherwise the movies one of whose title words is the query, ignoring case.
   */
  function Search(rs: seq<Record>, query: string): (r: Scan)
    ensures r.Matches? <==> AllText(rs, "title")
    ensures r.NotText? ==> r.key == "title"
    ensures r.Matches? ==> |r.records| <= |rs|
    ensures r.Matches? ==> forall x :: x in r.records <==> x in rs && HasTitleWord(x, query)
    ensures r.Matches? ==>
      forall x :: multiset(r.records)[x] == if HasTitleWord(x, query) then multiset(rs)[x] else 0
  {
    if forall i :: 0 <= i < |rs| ==> TextOf(rs[i], "title").Some? then
      Matches(Filter(rs, x => HasTitleWord(x, query)))
    else NotText("title")
  }

  /**
   * Search is whole-word matching: a movie matches exactly when the
   * lower-cased query is a maximal run of non-whitespace characters of its
   * lower-cased title, so a query that is only part of a word does not match.
   */
  lemma SearchMatchesWholeWords(rs: seq<Record>, query: string, x: Record)
    requires Search(rs, query).Matches?
    ensures x in Search(rs, query).records <==>
      && x in rs
      && var t := Text.Lower(TextOf(x, "title").value);
         exists a, b :: Text.IsWordAt(t, a, b) && t[a..b] == Text.Lower(query)
  {
    if x in rs {
      Text.WordsExactly(Text.Lower(TextOf(x, "title").value), Text.Lower(query));
    }
  }

  /** A missing title reads as "", which has no words, so such a movie never matches. */
  lemma UntitledNeverMatches(rs: seq<Record>, query: string, x: Record)
    requires Search(rs, query).Matches? && x in rs && "title" !in x
    ensures x !in Search(rs, query).records
  {
    assert Text.Lower("") == "";
  }

  /** The director and genre filters do not depend on the case of their argument. */
  lemma ByTextIgnoresCase(rs: seq<Record>, key: string, arg: string, arg': string)
    requires Text.Lower(arg) == Text.Lower(arg')
    ensures ByText(rs, key, arg) == ByText(rs, key, arg')
  {
    FilterAgrees(rs, x => TextMatches(x, key, arg), x => TextMatches(x, key, arg'));
  }

  /** Two conditions that agree on every record select the same records. */
  lemma {:induction false} FilterAgrees(rs: seq<Record>, p: Record -> bool, q: Record -> bool)
    requires forall x :: p(x) == q(x)
    ensures Filter(rs, p) == Filter(rs, q)
    decreases |rs|
  {
    if rs != [] {
      FilterAgrees(rs[..|rs| - 1], p, q);
    }
  }

  /** The one 'a' of "the dark knight" is at position 5. */
  lemma OnlyAAtFive(a: int)
    requires 0 <= a < |"the dark knight"|
    ensures "the dark knight"[a] == 'a' ==> a == 5
  {
  }

  /** "ark" is not a word of "the dark knight": its 'a' follows a 'd'. */
  lemma ArkIsNoWord(a: int, b: int)
    requires Text.IsWordAt("the dark knight", a, b)
    ensures "the dark knight"[a..b] != "ark"
  {
    OnlyAAtFive(a);
    assert "the dark knight"[a..b][0] == "the dark knight"[a];
    assert !Text.IsSpace("the dark knight"[4]);
  }

  /** The words of "the dark knight" include "dark" but not "ark". */
  lemma DarkKnightWords()
    ensures "dark" in Text.Words("the dark knight")
    ensures "ark" !in Text.Words("the dark knight")
  {
    var t := "the dark knight";
    assert Text.IsWordAt(t, 4, 8) && t[4..8] == "dark";
    Text.WordsExactly(t, "dark");
    Text.WordsExactly(t, "ark");
    forall a, b | Text.IsWordAt(t, a, b) ensures t[a..b] != "ark" {
      ArkIsNoWord(a, b);
    }
  }

  lemma DarkKnightLower()
    ensures Text.Lower("The Dark Knight") == "the dark knight"
    ensures Text.Lower("dark") == "dark" && Text.Lower("ark") == "ark"
  {
  }

  /**
   * For the title "The Dark Knight", searching "dark" finds the movie and
   * searching "ark" finds nothing.
   */
  lemma DarkKnightSearch()
    ensures var movie: Record := map["title" := Str("The Dark Knight")];
      && Search([movie], "dark") == Matches([movie])
      && Search([movie], "ark") == Matches([])
  {
    var movie: Record := map["title" := Str("The Dark Knight")];
    DarkKnightLower();
    DarkKnightWords();
    SearchOne(movie, "dark");
    SearchOne(movie, "ark");
  }

  /** Searching a single movie with a text title. */
  lemma SearchOne(movie: Record, query: string)
    requires "title" in movie && movie["title"].Str?
    ensures Search([movie], query) == Matches(if HasTitleWord(movie, query) then [movie] else [])
  {
    assert [movie][..0] == [];
  }
}
