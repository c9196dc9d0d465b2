# Movie catalog store

A Dafny model of the core of a small movie catalog web service. The core has three parts:

- **The store.** `MovieDatabase` keeps every movie record in a dictionary keyed by an integer id, together with the counter `next_id` for the next id to hand out. After each change it rewrites a JSON document holding both. When it starts, it reads that document back, and it heals a blank or corrupt file by resetting to the empty catalog.
- **The handlers.** The store's callers are the handlers for creating, updating, deleting, listing and filtering movies. The partial-update (merge) and delete logic those handlers write inline is lifted here into store methods that answer `Ok(record)` or `NotFound`.
- **Validation.** The request models decide what a movie record may contain: the field bounds, the title and year validators, and the `is_watched` default.

Modules, in dependency order:

| file | module | models |
|---|---|---|
| `json.dfy` | `Json` | JSON values; a record is `map<string, Value>` |
| `dicts.dfy` | `Dicts` | a Python `dict` keyed by `int` that remembers insertion order |
| `text.dfy` | `Text` | `str.strip`, `str.split()` and `str.lower` |
| `models.dfy` | `Models` | the `MovieCreate` / `MovieUpdate` validation |
| `documents.dfy` | `Documents` | what `load_data` makes of a document and what `save_data` writes |
| `queries.dfy` | `Queries` | the read-only filters and whole-word title search |
| `database.dfy` | `Database` | the class `MovieDatabase` |
| `routes.dfy` | `Routes` | the movie endpoints and their status codes |

`MovieDatabase` is a class whose methods update its fields in place:
- `movies` is the ordered dictionary.
- `nextId` is the counter.
- `file` is what the backing file currently holds.
- A ghost field `issued` remembers the ids handed out since the last load.

The class invariant `Valid()` says two things. The dictionary's key order lists each key exactly once. Every issued id lies below `nextId`.

Loading and saving are specified by pure functions (`Documents.Load`, `Documents.Encode`), and the methods are proved against them. The round trip "save, then load" is proved to restore the same movies, in the same order, with the same `next_id`, provided every movie sits under its own id and `next_id` is positive (`Documents.LoadSaved`). A non-positive `next_id` is reachable (a stored `next_id` of 0 beside a movie with id -5 loads as -4), and it reloads as 1, or as one more than the largest id.

Two inputs are parameters instead of effects:
- Whether a file write succeeds is the parameter `writeOk`. `save_data` swallows a failed write.
- The current year is the parameter `currentYear`. It stands in for `date.today()`.

Where the documented behaviour and the code differ, the model follows the code:

- **A stored `next_id` is kept even when it is not above the largest id.** The document `{"movies": [{"id": 5}], "next_id": 2}` loads with `next_id` 2 (`Documents.StoredNextIdNotForced`). A later add can then land on an existing id and replace that movie. So the "`next_id` is above every id" property (`Documents.Fresh`) is proved preserved by every add, update and delete but is not an invariant: loading can break it. Within one store object, ids handed out are never handed out again (`AddMovie`'s `issued` clause).
- **A wrongly shaped document resets only when loading raises.** Examples that raise: a non-object top level, a list item that is not an object, a non-empty object or string under `"movies"`, or a value that is not iterable. Other shapes load without a reset: an empty object or string under `"movies"` loads as no movies, list items without an int `"id"` are skipped, and a `next_id` that is not a positive integer is replaced by one more than the largest id, or 1.
- **The queries can raise.** The title search and the director and genre filters call `.lower()` on each movie's field. When a movie holds a non-string there (for instance a title set to null by an update), they raise, and the endpoint answers 500 (`Queries.Scan.NotText`, `Routes.NullTitleBreaksSearch`).

## Model

| member | source | states |
|---|---|---|
| `Dicts.Dict.Put` | database.py:72 | assigning `d[k] = v` files `v` under `k`; a new key is appended to the key order, an existing key keeps its place, and the values list changes only at that key |
| `Dicts.Dict.Del` | movies.py:142 | `del d[k]` removes exactly `k`; the other values keep their relative order |
| `Dicts.Dict.Values` | database.py:136 | `values()` lists the value of each key, in key order |
| `Dicts.Dict.Get` | database.py:138-140 | `d.get(k)` is `None` exactly when `k` is absent, and otherwise the value filed under `k` |
| `Dicts.ValuesExactly` | database.py:136 | `values()` has one entry per key, and a record appears in it exactly when some key maps to it |
| `Dicts.Empty` | database.py:39 | `{}` has no entries and no values |
| `Text.Strip` | models.py:54-56 | `strip()` yields the text between two all-whitespace ends; it is empty exactly when the input is all whitespace, otherwise it neither starts nor ends with whitespace |
| `Text.StripIdempotent` | models.py:56 | stripping a stripped string changes nothing |
| `Text.Lower` | database.py:125 | `lower()` maps each character through the ASCII lower-casing and keeps the length |
| `Text.WordsFrom` | database.py:128 | every word `split()` yields is non-empty and holds no whitespace |
| `Text.Words` | database.py:128 | every word of `s.split()` is non-empty and holds no whitespace |
| `Text.WordsFromExactly` | database.py:128 | from a word boundary on, `split()` yields exactly the maximal whitespace-free runs starting there or later |
| `Text.WordsExactly` | database.py:128 | a string is among `s.split()` exactly when it is a maximal run of non-whitespace characters of `s` |
| `Models.Field.Name` | models.py:20-36 | every model field's key is one of the nine model keys |
| `Models.FieldNamed` | models.py:20-36 | a body key names a model field exactly when it is one of the nine keys, and that field's name is the key |
| `Models.ValidateYear` | models.py:40-48 | a year passes exactly when it is at least 1880 and at most five years past the current year; it passes unchanged; below 1880 gives the first error message |
| `Models.ValidateTitle` | models.py:50-56 | a title passes exactly when it is not all whitespace, and then it comes back stripped, non-empty, without whitespace at either end |
| `Models.ValidateTitleIdempotent` | models.py:56 | a title that passed validation passes it again unchanged |
| `Models.Constrained` | models.py:20-34 | an accepted value is never null; it is the given value itself, except that `rating` and `price` hold the given number as a float |
| `Models.ConstrainedIsStable` | models.py:20-34 | a value the `Field` bounds accepted is accepted again as it is |
| `Models.CreateField` | models.py:15-56 | a required field that is missing or null fails; a missing `is_watched` defaults to false; any other optional field that is missing or null is null; a given non-null value other than the title passes exactly when it passes its `Field` bounds (the year also its validator) and is then stored as the bounds give it; an in-bounds non-blank title is stored stripped |
| `Models.MovieHasNoId` | models.py:15-36 | a validated movie record has no `"id"` key |
| `Models.CreateFieldOk` | models.py:20-56 | each field `MovieCreate` accepted meets its bounds: title 1-200 characters and stripped, director 1-100, genre 1-50, year from 1880 to the smaller of 2030 and the current year plus five, duration 1-300, rating 0-10, synopsis at most 1000, price not negative, `is_watched` a boolean |
| `Models.MovieRecord` | models.py:15-36 | a model dump has exactly the nine field keys, each holding its field's value |
| `Models.ValidateCreate` | models.py:15-56 | a create body is accepted exactly when every field passes; the accepted record is a valid movie whose title is the given one stripped and whose `is_watched` is false when the body did not set it; every field holds that field's validated value from the body; a rejection names at least one field, all of them model fields |
| `Models.CreatedRecord` | models.py:15-56 | the dump of an accepted create body is a valid movie, with the title stripped, `is_watched` defaulting to false, and every field holding its validated value |
| `Models.CreatedTitle` | models.py:50-56 | an accepted title was a string in the body, and the stored title is that string stripped |
| `Models.CreatedDefault` | models.py:36 | a body without `is_watched` yields `False` for it |
| `Models.CreatedIsMovie` | models.py:15-56 | the record built from an accepted body is a valid movie |
| `Models.CreatedHoldsFields` | models.py:15-56 | each field of the record built from an accepted body holds that field's validated value |
| `Models.MovieRevalidates` | models.py:15-56 | a valid movie record passes create validation again and comes back unchanged |
| `Models.RecordFromItsFields` | models.py:15-36 | a record with exactly the nine keys is the dump of its own field values |
| `Models.FieldRevalidates` | models.py:20-56 | a field value within its bounds passes create validation unchanged |
| `Models.ValidateUpdate` | models.py:59-70 | an update body is accepted exactly when every model field it sets passes; the patch holds exactly the model fields the body set, never `"id"`, each the body's value as that field's update validation gives it (null or within its bounds); a rejection names at least one set field |
| `Models.UpdateField` | models.py:59-70 | a set update field passes exactly when it is null or passes its `Field` bounds; null stays null, and a passing value is the bounded value |
| `Models.UpdateValue` | models.py:59-70 | a body key that names no model field is dropped; a model field is validated by its own update bounds |
| `Models.PatchWithinBounds` | models.py:62-70 | every value of an accepted patch is null or passes its field's bounds again as it is |
| `Models.UpdateKeepsTitleAsGiven` | models.py:62 | an update title of 1-200 characters is kept as given, without stripping |
| `Models.UpdateYearBounds` | models.py:64 | an update year is accepted exactly when it lies in 1880..2030, whatever the current year |
| `Models.UpdateAcceptsNull` | models.py:59-70 | an explicit null passes update validation for every field, the required ones included |
| `Documents.EmptyCatalog` | database.py:55-56 | the reset state has no movies and `next_id` 1 |
| `Documents.IdOf` | database.py:70-71 | an item has an id exactly when its `"id"` is an int, and then that int is its id |
| `Documents.MaxOf` | database.py:78 | `max` of a non-empty list is one of its elements and no smaller than any of them |
| `Documents.IndexItems` | database.py:67-72 | the loading loop's result, when it does not raise, keeps the dictionary's key order valid |
| `Documents.MovieItems` | database.py:63-69 | a missing `"movies"` iterates as an empty list and a list as its items; of the other values only an empty object or empty string load, as no items, and every other value makes loading raise |
| `Documents.NextIdFor` | database.py:64-78 | a missing `next_id` gives 1 and a positive int is kept; any other stored value gives one more than the largest loaded id, or 1 without movies |
| `Documents.Decode` | database.py:60-78 | a decoded catalog's dictionary keeps a valid key order |
| `Documents.Load` | database.py:48-84 | loading heals (resets and saves) exactly when the file is blank, unreadable or makes loading raise, and healing yields the empty catalog; otherwise the state is what the parsed document decodes to |
| `Documents.Objects` | database.py:97 | the saved list holds one object per movie, in order |
| `Documents.Encode` | database.py:87-103 | the saved document has exactly the keys `"movies"` and `"next_id"`: the movies in order and the counter |
| `Documents.IndexItemsFails` | database.py:67-72 | loading the movie list raises exactly when some item is not an object |
| `Documents.IndexItemsContents` | database.py:67-72 | after loading, an id is present exactly when it was present before or some object carries it as an int `"id"`; the last such object wins, and untouched ids keep their records |
| `Documents.IndexItemsMatchIds` | database.py:67-72 | loading files every object under its own `"id"` |
| `Documents.DecodedIdsMatch` | database.py:60-78 | in a loaded catalog every movie sits under its own id |
| `Documents.DecodedNextId` | database.py:74-78 | a missing `next_id` loads as 1 and a positive int loads as itself; any other value gives one more than the largest id, or 1 without movies, which is then above every id |
| `Documents.StoredNextIdNotForced` | database.py:75-76 | a stored `next_id` of 2 beside a movie with id 5 is kept, so `next_id` is not above every id |
| `Documents.IndexSavedItems` | database.py:67-72 | loading the saved movie list from item `i` on, starting from the first `i` movies, rebuilds the whole dictionary |
| `Documents.IndexItemsFirst` | database.py:68-72 | an object with an int id is filed under it before the rest of the list is loaded |
| `Documents.LoadSaved` | database.py:60-103 | loading what `save_data` wrote restores the same movies in the same order and the same `next_id`, without healing, when every movie sits under its own id and `next_id` is positive |
| `Queries.Filter` | database.py:144 | a filtered list is no longer than the input; it holds each input record that satisfies the condition as many times as the input does, and nothing else |
| `Queries.SearchStep` | database.py:127-130 | one more movie with a text title keeps the search going and is kept exactly when its title has the query as a word |
| `Queries.ByYear` | database.py:142-144 | the year filter keeps exactly the movies whose `"year"` equals the year, each as often as it is listed |
| `Queries.ByText` | database.py:146-152 | a case-insensitive field filter raises exactly when some movie's field is present but not a string, and otherwise keeps exactly the movies whose lower-cased field equals the lower-cased argument, each as often as it is listed |
| `Queries.ByDirector` | database.py:146-148 | the director filter raises exactly when some director is present but not a string, and otherwise keeps each movie whose director matches ignoring case as often as it is listed |
| `Queries.ByGenre` | database.py:150-152 | the genre filter raises exactly when some genre is present but not a string, and otherwise keeps each movie whose genre matches ignoring case as often as it is listed |
| `Queries.Search` | database.py:123-131 | title search raises exactly when some title is present but not a string, and otherwise keeps exactly the movies whose title has the query as a word, ignoring case, each as often as it is listed |
| `Queries.SearchMatchesWholeWords` | database.py:123-131 | a movie matches exactly when the lower-cased query is a maximal whitespace-free run of its lower-cased title |
| `Queries.UntitledNeverMatches` | database.py:128 | a movie without a title never matches |
| `Queries.ByTextIgnoresCase` | database.py:148 | arguments that lower-case alike give the same director or genre result |
| `Queries.ArkIsNoWord` | database.py:128 | "ark" is no word of "the dark knight" |
| `Queries.DarkKnightWords` | database.py:128 | the words of "the dark knight" include "dark" but not "ark" |
| `Queries.DarkKnightLower` | database.py:125-128 | lower-casing "The Dark Knight" gives "the dark knight" |
| `Queries.DarkKnightSearch` | database.py:123-131 | searching "dark" finds the movie "The Dark Knight", and searching "ark" finds nothing |
| `Queries.SearchOne` | database.py:123-131 | searching one movie with a text title finds it exactly when its title has the query as a word |
| `Database.MovieDatabase.State` | database.py:39-40 | the state is the dictionary and the counter |
| `Database.MovieDatabase.constructor` | database.py:37-45 | a new store holds what its file loads to, and a file that needed healing is overwritten with the empty catalog when the write succeeds |
| `Database.MovieDatabase.SaveData` | database.py:87-105 | a successful save writes the current state's document; a failed one leaves the file; the in-memory state is never touched |
| `Database.MovieDatabase.Reset` | database.py:55-57 | the reset empties the store, sets `next_id` to 1 and saves that |
| `Database.MovieDatabase.LoadData` | database.py:48-84 | after loading, the state is what the file decodes to, and the file is rewritten with the empty catalog exactly when it needed healing and the write succeeds |
| `Database.MovieDatabase.FileItems` | database.py:67-72 | the loading loop succeeds exactly when the list loads, and then leaves the loaded dictionary |
| `Database.MovieDatabase.AddMovie` | database.py:110-120 | the record is the data plus `"id"` equal to the old `next_id`, filed under that id; the counter rises by one; that id was never handed out before; if `next_id` was above every id it was unused and stays above every id; records stay under their own ids; the state is saved |
| `Database.MovieDatabase.ListMovies` | database.py:134-136 | the list is the stored values in key-insertion order: one entry per stored movie, holding exactly the stored records |
| `Database.MovieDatabase.GetMovie` | database.py:138-140 | the answer is `None` exactly when the id is absent, and otherwise is the stored record, one of the listed movies |
| `Database.MovieDatabase.GetMovieByYear` | database.py:142-144 | the result holds exactly the listed movies of that year, each as often as it is listed |
| `Database.MovieDatabase.GetMovieByDirector` | database.py:146-148 | the result raises exactly when some director is not a string, and otherwise holds exactly the listed movies whose director equals the argument, ignoring case, each as often as it is listed |
| `Database.MovieDatabase.GetMoviesByGenre` | database.py:150-152 | the result raises exactly when some genre is not a string, and otherwise holds exactly the listed movies whose genre equals the argument, ignoring case, each as often as it is listed |
| `Database.MovieDatabase.SearchMovies` | database.py:123-131 | the search loop yields what `Queries.Search` specifies for the listed movies, and changes nothing |
| `Database.MovieDatabase.UpdateMovie` | movies.py:116-125 | an absent id changes nothing and saves nothing; otherwise the patch keys overwrite the record's, every other key keeps its value, the record keeps its place and the key order is unchanged, `next_id` stays, and the state is saved |
| `Database.MovieDatabase.DeleteMovie` | movies.py:137-143 | an absent id changes nothing; otherwise exactly that movie is removed, the rest keep their order, `next_id` stays, and the state is saved |
| `Database.DeleteThenAdd` | movies.py:142-143 | when `next_id` is above every id, the add after a delete does not reuse the deleted id |
| `Database.IdsAreNeverReused` | database.py:112-116 | on an empty store, two adds get ids 1 and 2, and after deleting the first the next add gets 3 |
| `Routes.Listing` | movies.py:39-46 | an empty result is a 404; otherwise the list and its length |
| `Routes.Scanned` | movies.py:51-59 | a filter that raised is a 500; otherwise the empty-means-404 rule |
| `Routes.MoviesByYear` | movies.py:35-46 | 404 exactly when no movie has that year; otherwise exactly those movies, each as often as it is listed, so `total` counts the matching movies |
| `Routes.MoviesByDirector` | movies.py:48-59 | 500 exactly when some director is not a string; 404 exactly when none matches; otherwise exactly the matches, each as often as it is listed, so `total` counts the matching movies |
| `Routes.MoviesByGenre` | movies.py:62-73 | 500 exactly when some genre is not a string; 404 exactly when none matches; otherwise exactly the matches, each as often as it is listed, so `total` counts the matching movies |
| `Routes.NonEmptyScan` | movies.py:51-53 | a filter that went through is empty exactly when no movie matches |
| `Routes.SearchTitles` | movies.py:75-86 | 500 exactly when some title is not a string; 404 exactly when no title has the query as a word; otherwise exactly the matches, each as often as it is listed, so `total` counts the matching movies |
| `Routes.ListMovies` | movies.py:90-99 | listing never fails; it returns the stored movies in order with `total` equal to the number of stored movies |
| `Routes.CreateMovie` | movies.py:18-31 | an invalid body is a 422 and changes nothing; a valid one is stored with id equal to the old `next_id`, answered 201, and the state is saved |
| `Routes.AddAndSave` | movies.py:24-25 | the second save writes the same state the add already saved |
| `Routes.WithoutId` | database.py:114 | taking `"id"` back out of the stored record gives the validated data |
| `Routes.UpdateMovie` | movies.py:113-131 | an invalid body is a 422 and a missing movie a 404, both changing nothing; otherwise exactly the fields the client set are overwritten, the id stays, and the state is saved |
| `Routes.DeleteMovie` | movies.py:134-148 | a missing movie is a 404 and changes nothing; otherwise exactly that movie goes, `next_id` stays, and the state is saved |
| `Routes.NullTitleBreaksSearch` | models.py:62 | a patch nulling the title is accepted, and a title search over the patched movie then raises |

## Left out

- File I/O. This covers `ensure_db_file_exists`, the `os.chdir` at import and resolving the default path. `ensure_db_file_exists` creates only the default path, so a store given another path can still find its file missing. Reading it then raises and loading heals; the model covers that case as `Documents.StoredFile.Unreadable`.
- JSON text. The parsed document is a `Json.Value`. A file that cannot be read or parsed is `Documents.StoredFile.Unreadable`. Pretty-printing and `ensure_ascii` are not modelled.
- The log lines that `load_data` and `save_data` print on failure.
- SaveData: a failed write is modelled as leaving the file as it was. `write_text` truncates the file before writing, so a write that fails part-way can leave it blank or cut short; the next load then heals it to the empty catalog.
- Pydantic's lax coercions are not modelled, for example the string "2010" accepted as a year. The model accepts only JSON values of the declared type, plus an integer for a `float` field.
- Error messages of 404 and 422 responses, and the `success`/`message` envelope.
- HTTP routing. `GET /movies/{movie_id}` is declared after `GET /movies/{year}` and is never reached, so it is not modelled. FastAPI's response-model checks and the exception handlers of `main.py` are not modelled either.
- The 422 for a body that fails validation is the framework's default answer. The custom validation handler in `main.py` builds its error body without the required `detail` field, so it raises itself and the client would see the generic 500 handler's answer instead; the model keeps the 422.
- Concurrency. The module-level store shared by the async handlers is modelled as one sequential object passed to each handler.
- Python's `bool` is an `int`. So `True` loads as id 1 and as a `next_id` of 1, and `True == 1` also matches year 1. The model keeps booleans and integers apart.
- Floating-point `rating` and `price`. These are reals, only compared against their bounds.
- `str.lower()` beyond ASCII. `Text.LowerChar` lower-cases only `A`-`Z`.
- `config.py`, `movies_sqlite.py` and `sqldb/` are not part of this model. They are the settings loader and a separate SQL backend.
