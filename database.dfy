/**
 * `MovieDatabase`: the catalog held in memory as a dictionary from id to movie
 * record plus the counter for the next id, mirrored to a JSON file after every
 * change.  The file is a field holding what the file currently contains; whether
 * a write succeeds is a parameter, because `save_data` swallows a failed write
 * and keeps going with the in-memory state.
 */
module Database {
  import opened Json
  import opened Dicts
  import opened Documents
  import Text
  import Queries

  /** A store mutation on an id: the record it produced or removed, or no movie with that id. */
  datatype Lookup = Ok(record: Record) | NotFound

  class MovieDatabase {
    /** `self.movies`: id to record, in insertion order. */
    var movies: Dict<Record>
    /** `self.next_id` */
    var nextId: int
    /** What the backing file holds. */
    var file: StoredFile
    /** The ids this object has handed out since it last loaded. */
    ghost var issued: set<int>

    /** The dictionary keeps its key order, and every id handed out lies below `next_id`. */
    ghost predicate Valid()
      reads this
    {
      && movies.Valid()
      && forall k :: k in issued ==> k < nextId
    }

    /** The in-memory state. */
    function State(): (c: Catalog)
      reads this
      ensures c.movies == movies && c.nextId == nextId
    {
      Catalog(movies, nextId)
    }

    /**
     * `MovieDatabase(file_path)`: starts from the empty state and loads the
     * file, which `ensure_db_file_exists` has already made exist.
     */
    constructor (stored: StoredFile, writeOk: bool)
      ensures Valid()
      ensures State() == Load(stored).0
      ensures file == if Load(stored).1 && writeOk then Parsed(Encode(EmptyCatalog())) else stored
      ensures issued == {}
    {
      movies := Empty();
      nextId := 1;
      file := stored;
      issued := {};
      new;
      LoadData(writeOk);
    }

    /**
     * `save_data`: writes `{"movies": [...values in order...], "next_id": ...}`
     * when the write succeeds; the in-memory state is never touched.
     */
    method SaveData(writeOk: bool)
      requires movies.Valid()
      modifies this`file
      ensures file == if writeOk then Parsed(Encode(State())) else old(file)
    {
      if writeOk {
        file := Parsed(Encode(Catalog(movies, nextId)));
      }
    }

    /** The reset of `load_data`: no movies, `next_id` 1, and that state saved. */
    method Reset(writeOk: bool)
      modifies this
      ensures movies == Empty() && nextId == 1 && issued == old(issued)
      ensures file == if writeOk then Parsed(Encode(EmptyCatalog())) else old(file)
    {
      movies := Empty();
      nextId := 1;
      SaveData(writeOk);
    }

    /**
     * `load_data`: the state is what the file decodes to, and the file is
     * healed (the empty state saved over it) exactly when it is blank,
     * unreadable or makes the loading raise.
     */
    method LoadData(writeOk: bool)
      modifies this
      ensures Valid()
      ensures State() == Load(old(file)).0
      ensures file == if Load(old(file)).1 && writeOk then Parsed(Encode(EmptyCatalog())) else old(file)
      ensures issued == {}
    {
      issued := {};
      if !file.Parsed? || !file.doc.Obj? {
        Reset(writeOk);
        return;
      }
      var top := file.doc.fields;
      var listed := MovieItems(top);
      if listed.None? {
        Reset(writeOk);
        return;
      }
      var ok := FileItems(listed.value);
      if !ok {
        Reset(writeOk);
        return;
      }
      var stored := if "next_id" in top then top["next_id"] else Int(1);
      if stored.Int? && stored.i > 0 {
        nextId := stored.i;
      } else if movies.keys != [] {
        nextId := MaxOf(movies.keys) + 1;
      } else {
        nextId := 1;
      }
    }

    /**
     * The loop of `load_data`: starting from no movies, files every object
     * with an int `"id"` under it; `false` when an item is not an object,
     * where `item.get` raises.
     */
    method FileItems(items: seq<Value>) returns (ok: bool)
      modifies this`movies
      ensures ok <==> IndexItems(items, Empty()).Some?
      ensures ok ==> movies == IndexItems(items, Empty()).value
    {
      movies := Empty();
      var i := 0;
      while i < |items|
        invariant 0 <= i <= |items|
        invariant movies.Valid()
        invariant IndexItems(items, Empty()) == IndexItems(items[i..], movies)
      {
        assert items[i..][1..] == items[i + 1..];
        if !items[i].Obj? {
          return false;
        }
        var id := IdOf(items[i].fields);
        if id.Some? {
          movies := movies.Put(id.value, items[i].fields);
        }
        i := i + 1;
      }
      assert items[i..] == [];
      return true;
    }

    /**
     * `add_movie`: files `{"id": next_id, **data}` under the old `next_id`,
     * moves the counter on by one and saves.  The id was never handed out
     * before, and is not in use when `next_id` was above every id.
     */
    method AddMovie(data: Record, writeOk: bool) returns (record: Record)
      requires Valid()
      modifies this
      ensures Valid()
      ensures record.Keys == data.Keys + {"id"}
      ensures forall k :: k in data ==> record[k] == data[k]
      ensures "id" !in data ==> IdOf(record) == Some(old(nextId))
      ensures movies == old(movies).Put(old(nextId), record)
      ensures nextId == old(nextId) + 1
      ensures old(nextId) !in old(issued) && issued == old(issued) + {old(nextId)}
      ensures Fresh(old(State())) ==> old(nextId) !in old(movies.entries) && Fresh(State())
      ensures IdsMatch(old(movies)) && "id" !in data ==> IdsMatch(movies)
      ensures file == if writeOk then Parsed(Encode(State())) else old(file)
    {
      var id := nextId;
      record := map["id" := Int(id)] + data;
      movies := movies.Put(id, record);
      nextId := nextId + 1;
      issued := issued + {id};
      SaveData(writeOk);
    }

    /** `list_movies`: every stored record, once each, in insertion order. */
    function ListMovies(): (r: seq<Record>)
      requires Valid()
      reads this
      ensures r == movies.Values()
      ensures |r| == |movies.entries|
      ensures forall x :: x in r <==> exists k :: k in movies.entries && movies.entries[k] == x
    {
      ValuesExactly(movies);
      movies.Values()
    }

    /** `get_movie`: the record filed under `id`, or `None` exactly when there is none. */
    function GetMovie(id: int): (r: Option<Record>)
      requires Valid()
      reads this
      ensures r.None? <==> id !in movies.entries
      ensures r.Some? ==> r.value == movies.entries[id] && r.value in ListMovies()
    {
      movies.Get(id)
    }

    /** `get_movie_by_year`: the listed movies whose `"year"` equals `year`. */
    function GetMovieByYear(year: int): (r: seq<Record>)
      requires Valid()
      reads this
      ensures forall x :: x in r <==> x in ListMovies() && Queries.YearIs(x, year)
      ensures forall x :: multiset(r)[x] == if Queries.YearIs(x, year) then multiset(ListMovies())[x] else 0
    {
      Queries.ByYear(ListMovies(), year)
    }

    /** `get_movie_by_director`: a case-insensitive match on `"director"`; raises on a non-string director. */
    function GetMovieByDirector(director: string): (r: Queries.Scan)
      requires Valid()
      reads this
      ensures r.Matches? <==> Queries.AllText(ListMovies(), "director")
      ensures r.Matches? ==> forall x :: x in r.records <==>
        x in ListMovies() && Text.Lower(Queries.TextOf(x, "director").value) == Text.Lower(director)
      ensures r.Matches? ==>
        forall x :: multiset(r.records)[x] ==
          if Queries.TextMatches(x, "director", director) then multiset(ListMovies())[x] else 0
    {
      Queries.ByDirector(ListMovies(), director)
    }

    /** `get_movies_by_genre`: a case-insensitive match on `"genre"`; raises on a non-string genre. */
    function GetMoviesByGenre(genre: string): (r: Queries.Scan)
      requires Valid()
      reads this
      ensures r.Matches? <==> Queries.AllText(ListMovies(), "genre")
      ensures r.Matches? ==> forall x :: x in r.records <==>
        x in ListMovies() && Text.Lower(Queries.TextOf(x, "genre").value) == Text.Lower(genre)
      ensures r.Matches? ==>
        forall x :: multiset(r.records)[x] ==
          if Queries.TextMatches(x, "genre", genre) then multiset(ListMovies())[x] else 0
    {
      Queries.ByGenre(ListMovies(), genre)
    }

    /**
     * `search_movies`: walks the movies in order, splitting each lower-cased
     * title into words, and keeps those with the lower-cased query as a word.
     */
    method SearchMovies(query: string) returns (r: Queries.Scan)
      requires Valid()
      ensures r == Queries.Search(ListMovies(), query)
    {
      var q := Text.Lower(query);
      var all := movies.Values();
      var found: seq<Record> := [];
      var i := 0;
      while i < |all|
        invariant 0 <= i <= |all|
        invariant Queries.AllText(all[..i], "title")
        invariant found == Queries.Filter(all[..i], x => Queries.HasTitleWord(x, query))
      {
        var movie := all[i];
        var title := if "title" in movie then movie["title"] else Str("");
        if !title.Str? {
          assert !Queries.AllText(all, "title") by {
            assert Queries.TextOf(all[i], "title").None?;
          }
          return Queries.NotText("title");
        }
        var hit := q in Text.Words(Text.Lower(title.s));
        assert hit == Queries.HasTitleWord(movie, query);
        Queries.SearchStep(all, i, query);
        if hit {
          found := found + [movie];
        }
        i := i + 1;
      }
      assert all[..i] == all;
      return Queries.Matches(found);
    }

    /**
     * The store side of `update_movie`: no movie under `id` changes nothing and
     * saves nothing; otherwise the keys of `patch` overwrite the record's, the
     * record keeps its place, and the store is saved.
     */
    method UpdateMovie(id: int, patch: Record, writeOk: bool) returns (r: Lookup)
      requires Valid()
      modifies this
      ensures Valid()
      ensures r.NotFound? <==> id !in old(movies.entries)
      ensures r.NotFound? ==> unchanged(this)
      ensures nextId == old(nextId) && issued == old(issued)
      ensures r.Ok? ==>
        && r.record.Keys == old(movies.entries[id]).Keys + patch.Keys
        && (forall k :: k in patch ==> r.record[k] == patch[k])
        && (forall k :: k in old(movies.entries[id]) && k !in patch ==> r.record[k] == old(movies.entries[id][k]))
        && movies == old(movies).Put(id, r.record)
        && movies.keys == old(movies.keys)
        && file == if writeOk then Parsed(Encode(State())) else old(file)
      ensures Fresh(old(State())) ==> Fresh(State())
      ensures IdsMatch(old(movies)) && "id" !in patch ==> IdsMatch(movies)
    {
      var found := GetMovie(id);
      if found.None? {
        return NotFound;
      }
      var movie := found.value + patch;
      movies := movies.Put(id, movie);
      SaveData(writeOk);
      return Ok(movie);
    }

    /**
     * The store side of `delete_movie`: no movie under `id` changes nothing;
     * otherwise exactly that entry goes, the rest keep their order, `next_id`
     * stays, and the store is saved.
     */
    method DeleteMovie(id: int, writeOk: bool) returns (r: Lookup)
      requires Valid()
      modifies this
      ensures Valid()
      ensures r.NotFound? <==> id !in old(movies.entries)
      ensures r.NotFound? ==> unchanged(this)
      ensures nextId == old(nextId) && issued == old(issued)
      ensures r.Ok? ==>
        && r.record == old(movies.entries[id])
        && movies == old(movies).Del(id)
        && movies.entries == old(movies.entries) - {id}
        && file == if writeOk then Parsed(Encode(State())) else old(file)
      ensures Fresh(old(State())) ==> Fresh(State())
      ensures IdsMatch(old(movies)) ==> IdsMatch(movies)
    {
      var found := GetMovie(id);
      if found.None? {
        return NotFound;
      }
      movies := movies.Del(id);
      SaveData(writeOk);
      return Ok(found.value);
    }
  }

  /**
   * An id that is deleted is not handed out again by the next add, as long
   * as `next_id` was above every id in use.
   */
  method DeleteThenAdd(db: MovieDatabase, id: int, data: Record, writeOk: bool) returns (added: Record)
    requires db.Valid() && Fresh(db.State()) && id in db.movies.entries && "id" !in data
    modifies db
    ensures db.Valid() && Fresh(db.State())
    ensures IdOf(added) == Some(old(db.nextId)) && id < old(db.nextId)
    ensures id !in db.movies.entries
  {
    var gone := db.DeleteMovie(id, writeOk);
    added := db.AddMovie(data, writeOk);
  }

  /**
   * Two adds on a fresh catalog get ids 1 and 2; after deleting the first,
   * the next add gets 3, not 1.
   */
  method IdsAreNeverReused(movie: Record, writeOk: bool) returns (ids: seq<int>)
    requires "id" !in movie
    ensures ids == [1, 2, 3]
  {
    var db := new MovieDatabase(Blank, writeOk);
    var a := db.AddMovie(movie, writeOk);
    var b := db.AddMovie(movie, writeOk);
    var gone := db.DeleteMovie(1, writeOk);
    var c := db.AddMovie(movie, writeOk);
    ids := [IdOf(a).value, IdOf(b).value, IdOf(c).value];
  }
}
