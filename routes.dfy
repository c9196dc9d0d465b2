/**
 * The movie endpoints: what each handler answers and what it does to the
 * shared `MovieDatabase`.  Request bodies are validated before the handler
 * runs, so a body that fails validation is answered 422 without touching the
 * store.
 */
module Routes {
  import opened Json
  import opened Documents
  import opened Database
  import Models
  import Queries

  const StatusOk := 200
  const StatusCreated := 201
  const StatusNotFound := 404
  const StatusUnprocessable := 422
  const StatusServerError := 500

  /** What an endpoint answers. */
  datatype Response =
    | MovieBody(status: int, movie: Record)   // `{"success": true, "message": ..., "data": movie}`
    | Deleted                                 // `{"success": true, "message": ...}`, status 200
    | ListBody(data: seq<Record>, total: int) // `MovieListResponse`, status 200
    | Failure(status: int)                    // an `HTTPException`, a validation error or an unhandled exception

  /** The rule of the four filter endpoints: no movies is a 404, otherwise the list and its length. */
  function Listing(rs: seq<Record>): (r: Response)
    ensures r.Failure? <==> rs == []
    ensures r.Failure? ==> r.status == StatusNotFound
    ensures r.ListBody? || r.Failure?
    ensures r.ListBody? ==> r.data == rs && r.total == |rs|
  {
    if |rs| == 0 then Failure(StatusNotFound) else ListBody(rs, |rs|)
  }

  /** A scan that raised on a non-string field is a 500; otherwise the filter rule. */
  function Scanned(s: Queries.Scan): (r: Response)
    ensures r == Failure(StatusServerError) <==> s.NotText?
    ensures s.Matches? ==> r == Listing(s.records)
  {
    match s
    case NotText(_) => Failure(StatusServerError)
    case Matches(rs) => Listing(rs)
  }

  /** `GET /movies/{year}`: the movies of that year, or 404 when there are none. */
  function MoviesByYear(db: MovieDatabase, year: int): (r: Response)
    requires db.Valid()
    reads db
    ensures r.Failure? <==> forall x :: x in db.ListMovies() ==> !Queries.YearIs(x, year)
    ensures r.Failure? ==> r.status == StatusNotFound
    ensures r.ListBody? || r.Failure?
    ensures r.ListBody? ==> r.total == |r.data| && forall x :: x in r.data <==> x in db.ListMovies() && Queries.YearIs(x, year)
    ensures r.ListBody? ==>
      forall x :: multiset(r.data)[x] == if Queries.YearIs(x, year) then multiset(db.ListMovies())[x] else 0
  {
    var found := db.GetMovieByYear(year);
    assert found == [] <==> forall x :: x in db.ListMovies() ==> !Queries.YearIs(x, year) by {
      if found != [] {
        assert found[0] in found;
      }
    }
    Listing(found)
  }

  /**
   * `GET /movies/director/{director}`: the movies whose director equals the
   * argument ignoring case; 404 when there are none, 500 when some movie's
   * director is not a string.
   */
  function MoviesByDirector(db: MovieDatabase, director: string): (r: Response)
    requires db.Valid()
    reads db
    ensures r == Failure(StatusServerError) <==> !Queries.AllText(db.ListMovies(), "director")
    ensures r == Failure(StatusNotFound) <==> (Queries.AllText(db.ListMovies(), "director") &&
      forall x :: x in db.ListMovies() ==> !Queries.TextMatches(x, "director", director))
    ensures r.ListBody? || r.Failure?
    ensures r.ListBody? ==> r.total == |r.data| && forall x :: x in r.data <==>
      x in db.ListMovies() && Queries.TextMatches(x, "director", director)
    ensures r.ListBody? ==>
      forall x :: multiset(r.data)[x] == if Queries.TextMatches(x, "director", director) then multiset(db.ListMovies())[x] else 0
  {
    var s := db.GetMovieByDirector(director);
    NonEmptyScan(db.ListMovies(), "director", director, s);
    Scanned(s)
  }

  /**
   * `GET /movies/genre/{genre}`: the movies whose genre equals the argument
   * ignoring case; 404 when there are none, 500 when some movie's genre is
   * not a string.
   */
  function MoviesByGenre(db: MovieDatabase, genre: string): (r: Response)
    requires db.Valid()
    reads db
    ensures r == Failure(StatusServerError) <==> !Queries.AllText(db.ListMovies(), "genre")
    ensures r == Failure(StatusNotFound) <==> (Queries.AllText(db.ListMovies(), "genre") &&
      forall x :: x in db.ListMovies() ==> !Queries.TextMatches(x, "genre", genre))
    ensures r.ListBody? || r.Failure?
    ensures r.ListBody? ==> r.total == |r.data| && forall x :: x in r.data <==>
      x in db.ListMovies() && Queries.TextMatches(x, "genre", genre)
    ensures r.ListBody? ==>
      forall x :: multiset(r.data)[x] == if Queries.TextMatches(x, "genre", genre) then multiset(db.ListMovies())[x] else 0
  {
    var s := db.GetMoviesByGenre(genre);
    NonEmptyScan(db.ListMovies(), "genre", genre, s);
    Scanned(s)
  }

  /** A case-insensitive scan that went through is empty exactly when no movie matches. */
  lemma NonEmptyScan(rs: seq<Record>, key: string, arg: string, s: Queries.Scan)
    requires s == Queries.ByText(rs, key, arg)
    ensures s.Matches? ==> (s.records == [] <==> forall x :: x in rs ==> !Queries.TextMatches(x, key, arg))
  {
    if s.Matches? && s.records != [] {
      assert s.records[0] in s.records;
    }
  }

  /**
   * `GET /movies/search/{text_query}`: the movies with the query as a title
   * word; 404 when there are none, 500 when some title is not a string.
   */
  method SearchTitles(db: MovieDatabase, query: string) returns (r: Response)
    requires db.Valid()
    ensures r == Failure(StatusServerError) <==> !Queries.AllText(db.ListMovies(), "title")
    ensures r == Failure(StatusNotFound) <==> (Queries.AllText(db.ListMovies(), "title") &&
      forall x :: x in db.ListMovies() ==> !Queries.HasTitleWord(x, query))
    ensures r.ListBody? || r.Failure?
    ensures r.ListBody? ==> r.total == |r.data| && forall x :: x in r.data <==>
      x in db.ListMovies() && Queries.HasTitleWord(x, query)
    ensures r.ListBody? ==>
      forall x :: multiset(r.data)[x] == if Queries.HasTitleWord(x, query) then multiset(db.ListMovies())[x] else 0
  {
    var s := db.SearchMovies(query);
    if s.Matches? && s.records != [] {
      assert s.records[0] in s.records;
    }
    r := Scanned(s);
  }

  /** `GET /movies`: never fails; the stored movies in order, and how many there are. */
  function ListMovies(db: MovieDatabase): (r: Response)
    requires db.Valid()
    reads db
    ensures r.ListBody? && r.data == db.ListMovies() && r.total == |db.movies.entries|
  {
    var items := db.ListMovies();
    ListBody(items, |items|)
  }

  /**
   * `POST /movies`: an invalid body is a 422 and changes nothing; a valid one
   * is added under the old `next_id` as a valid movie record, answered 201,
   * and the store is saved twice (the second time with the same state).
   */
  method CreateMovie(db: MovieDatabase, body: map<string, Value>, currentYear: int, firstWriteOk: bool, secondWriteOk: bool)
    returns (r: Response)
    requires db.Valid()
    modifies db
    ensures db.Valid()
    ensures Models.ValidateCreate(body, currentYear).Rejected? ==> r == Failure(StatusUnprocessable) && unchanged(db)
    ensures Models.ValidateCreate(body, currentYear).Accepted? ==>
      && r.MovieBody? && r.status == StatusCreated
      && Stored(old(db.State()), db.State(), Models.ValidateCreate(body, currentYear).record, r.movie)
      && db.file == if firstWriteOk || secondWriteOk then Parsed(Encode(db.State())) else old(db.file)
    ensures Fresh(old(db.State())) ==> Fresh(db.State())
    ensures IdsMatch(old(db.movies)) ==> IdsMatch(db.movies)
  {
    var verdict := Models.ValidateCreate(body, currentYear);
    if verdict.Rejected? {
      return Failure(StatusUnprocessable);
    }
    Models.MovieHasNoId(verdict.record, currentYear);
    var created := AddAndSave(db, verdict.record, firstWriteOk, secondWriteOk);
    return MovieBody(StatusCreated, created);
  }

  /** The store side of `create_movie`: `add_movie`, which saves, then `save_data` once more. */
  method AddAndSave(db: MovieDatabase, data: Record, firstWriteOk: bool, secondWriteOk: bool) returns (created: Record)
    requires db.Valid() && "id" !in data
    modifies db
    ensures db.Valid()
    ensures Stored(old(db.State()), db.State(), data, created)
    ensures db.file == if firstWriteOk || secondWriteOk then Parsed(Encode(db.State())) else old(db.file)
    ensures Fresh(old(db.State())) ==> Fresh(db.State())
    ensures IdsMatch(old(db.movies)) ==> IdsMatch(db.movies)
  {
    created := db.AddMovie(data, firstWriteOk);
    db.SaveData(secondWriteOk);
    WithoutId(created, data);
  }

  /**
   * `created` is `data` with the id `next_id` had before, filed under that
   * id, and the counter has moved on by one.
   */
  ghost predicate Stored(before: Catalog, after: Catalog, data: Record, created: Record)
    requires before.movies.Valid()
  {
    && IdOf(created) == Some(before.nextId)
    && created - {"id"} == data
    && after.movies == before.movies.Put(before.nextId, created)
    && after.nextId == before.nextId + 1
  }

  /** Taking `"id"` back out of `{"id": ..., **data}` gives `data` when it had no `"id"`. */
  lemma WithoutId(record: Record, data: Record)
    requires "id" !in data && record.Keys == data.Keys + {"id"}
    requires forall k :: k in data ==> record[k] == data[k]
    ensures record - {"id"} == data
  {
  }

  /**
   * `PUT /movies/{movie_id}`: an invalid body is a 422 and a missing movie a
   * 404, both changing nothing; otherwise the fields the client set overwrite
   * the stored ones, the id stays, and the store is saved.
   */
  method UpdateMovie(db: MovieDatabase, id: int, body: map<string, Value>, writeOk: bool) returns (r: Response)
    requires db.Valid()
    modifies db
    ensures db.Valid()
    ensures Models.ValidateUpdate(body).Rejected? ==> r == Failure(StatusUnprocessable) && unchanged(db)
    ensures Models.ValidateUpdate(body).Accepted? && id !in old(db.movies.entries) ==>
      r == Failure(StatusNotFound) && unchanged(db)
    ensures Models.ValidateUpdate(body).Accepted? && id in old(db.movies.entries) ==>
      var patch := Models.ValidateUpdate(body).record;
      && r.MovieBody? && r.status == StatusOk
      && r.movie.Keys == old(db.movies.entries[id]).Keys + patch.Keys
      && (forall k :: k in patch ==> r.movie[k] == patch[k])
      && (forall k :: k in old(db.movies.entries[id]) && k !in patch ==> r.movie[k] == old(db.movies.entries[id][k]))
      && IdOf(r.movie) == IdOf(old(db.movies.entries[id]))
      && db.movies == old(db.movies).Put(id, r.movie)
      && db.movies.keys == old(db.movies.keys)
      && db.nextId == old(db.nextId)
      && db.file == if writeOk then Parsed(Encode(db.State())) else old(db.file)
    ensures Fresh(old(db.State())) ==> Fresh(db.State())
    ensures IdsMatch(old(db.movies)) ==> IdsMatch(db.movies)
  {
    var verdict := Models.ValidateUpdate(body);
    if verdict.Rejected? {
      return Failure(StatusUnprocessable);
    }
    var outcome := db.UpdateMovie(id, verdict.record, writeOk);
    if outcome.NotFound? {
      return Failure(StatusNotFound);
    }
    return MovieBody(StatusOk, outcome.record);
  }

  /**
   * `DELETE /movies/{movie_id}`: a missing movie is a 404 and changes
   * nothing; otherwise exactly that movie goes, `next_id` stays, and the
   * store is saved.
   */
  method DeleteMovie(db: MovieDatabase, id: int, writeOk: bool) returns (r: Response)
    requires db.Valid()
    modifies db
    ensures db.Valid()
    ensures r == Failure(StatusNotFound) <==> id !in old(db.movies.entries)
    ensures r.Failure? ==> unchanged(db)
    ensures r.Deleted? || r.Failure?
    ensures r.Deleted? ==>
      && db.movies == old(db.movies).Del(id)
      && db.movies.entries == old(db.movies.entries) - {id}
      && db.nextId == old(db.nextId)
      && db.file == if writeOk then Parsed(Encode(db.State())) else old(db.file)
    ensures Fresh(old(db.State())) ==> Fresh(db.State())
    ensures IdsMatch(old(db.movies)) ==> IdsMatch(db.movies)
  {
    var outcome := db.DeleteMovie(id, writeOk);
    if outcome.NotFound? {
      return Failure(StatusNotFound);
    }
    return Deleted;
  }

  /**
   * `MovieUpdate` lets a client null the title; the update is accepted, and
   * from then on every title search raises, which the endpoint answers 500.
   */
  lemma NullTitleBreaksSearch(movie: Record, query: string)
    ensures Models.ValidateUpdate(map["title" := Null]) == Models.Accepted(map["title" := Null])
    ensures Queries.Search([movie + map["title" := Null]], query) == Queries.NotText("title")
  {
    Models.UpdateAcceptsNull("title");
    assert Queries.TextOf(movie + map["title" := Null], "title").None?;
  }
}
