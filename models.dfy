/**
 * What a movie record may contain: the field constraints of `MovieBase`
 * (used to create a movie) and `MovieUpdate` (used to change one), and the two
 * custom validators of `MovieBase`. A request body is the parsed JSON object;
 * the current year is a parameter.
 */
module Models {
  import opened Json
  import Text

  const EarliestYear := 1880
  const LatestYear := 2030
  const FutureYears := 5

  /** The fields both models declare. */
  datatype Field = Title | Director | Year | Genre | Duration | Rating | Synopsis | Price | IsWatched
  {
    /** The field's key in a request body and in a stored record. */
    function Name(): (n: string)
      ensures n in MovieFields
    {
      match this
      case Title => "title"
      case Director => "director"
      case Year => "year"
      case Genre => "genre"
      case Duration => "duration"
      case Rating => "rating"
      case Synopsis => "synopsis"
      case Price => "price"
      case IsWatched => "is_watched"
    }

    /** `MovieBase` gives these no default: a create request must set them. */
    predicate Required() {
      Title? || Director? || Year? || Genre?
    }
  }

  /** The keys of the model fields. */
  const MovieFields: set<string> :=
    {"title", "director", "year", "genre", "duration", "rating", "synopsis", "price", "is_watched"}

  /** The model field a body key names, if any. */
  function FieldNamed(key: string): (f: Option<Field>)
    ensures f.Some? <==> key in MovieFields
    ensures f.Some? ==> f.value.Name() == key
  {
    if key == "title" then Some(Title)
    else if key == "director" then Some(Director)
    else if key == "year" then Some(Year)
    else if key == "genre" then Some(Genre)
    else if key == "duration" then Some(Duration)
    else if key == "rating" then Some(Rating)
    else if key == "synopsis" then Some(Synopsis)
    else if key == "price" then Some(Price)
    else if key == "is_watched" then Some(IsWatched)
    else None
  }

  /** Outcome of one custom validator: the value it returns, or the message of the error it raises. */
  datatype Check<T> = Pass(value: T) | Fail(reason: string)

  /** Outcome of validating a whole request body: the model's dump, or the keys of the fields that failed. */
  datatype Verdict = Accepted(record: Record) | Rejected(fields: set<string>)

  /** `MovieBase.validate_year`: at least 1880 and at most five years past the current year. */
  function ValidateYear(value: int, currentYear: int): (r: Check<int>)
    ensures r.Pass? <==> EarliestYear <= value <= currentYear + FutureYears
    ensures r.Pass? ==> r.value == value
    ensures value < EarliestYear ==> r == Fail("Year must be greater than or equal to 1880")
  {
    if value < EarliestYear then Fail("Year must be greater than or equal to 1880")
    else if value > currentYear + FutureYears then Fail("Year cannot be in the far future")
    else Pass(value)
  }

  /** `MovieBase.validate_title`: rejects an all-whitespace title, otherwise returns it stripped. */
  function ValidateTitle(value: string): (r: Check<string>)
    ensures r.Pass? <==> !Text.AllSpace(value)
    ensures r.Pass? ==> r.value == Text.Strip(value)
    ensures r.Pass? ==> r.value != [] && !Text.IsSpace(r.value[0]) && !Text.IsSpace(r.value[|r.value| - 1])
  {
    var t := Text.Strip(value);
    if t == [] then Fail("Title cannot be empty or whitespace made") else Pass(t)
  }

  /** A title that passed `validate_title` passes it again unchanged. */
  lemma ValidateTitleIdempotent(value: string)
    requires ValidateTitle(value).Pass?
    ensures ValidateTitle(ValidateTitle(value).value) == ValidateTitle(value)
  {
    Text.StripIdempotent(value);
  }

  /** The numeric value of a JSON number, for the `float` fields. */
  function AsReal(v: Value): real
    requires v.Int? || v.Num?
  {
    if v.Int? then v.i as real else v.r
  }

  predicate TextWithin(v: Value, lo: nat, hi: nat) {
    v.Str? && lo <= |v.s| <= hi
  }

  predicate IntWithin(v: Value, lo: int, hi: int) {
    v.Int? && lo <= v.i <= hi
  }

  /**
   * The `Field(...)` constraint of field `f`, shared by `MovieBase` and
   * `MovieUpdate`, on a non-null value: the value as the model holds it (an
   * integer given for a `float` field becomes a float), or `None` when it is
   * rejected.
   */
  function Constrained(f: Field, v: Value): (r: Option<Value>)
    ensures r.Some? ==> r.value != Null
    ensures r.Some? && f != Rating && f != Price ==> r.value == v
    ensures r.Some? && (f == Rating || f == Price) ==> (v.Int? || v.Num?) && r.value == Num(AsReal(v))
  {
    match f
    case Title => if TextWithin(v, 1, 200) then Some(v) else None
    case Director => if TextWithin(v, 1, 100) then Some(v) else None
    case Year => if IntWithin(v, EarliestYear, LatestYear) then Some(v) else None
    case Genre => if TextWithin(v, 1, 50) then Some(v) else None
    case Duration => if IntWithin(v, 1, 300) then Some(v) else None
    case Rating =>
      if (v.Int? || v.Num?) && 0.0 <= AsReal(v) <= 10.0 then Some(Num(AsReal(v))) else None
    case Synopsis => if TextWithin(v, 0, 1000) then Some(v) else None
    case Price =>
      if (v.Int? || v.Num?) && 0.0 <= AsReal(v) then Some(Num(AsReal(v))) else None
    case IsWatched => if v.Bool? then Some(v) else None
  }

  /** A value the constraint accepted is accepted again as it is. */
  lemma ConstrainedIsStable(f: Field, v: Value)
    requires Constrained(f, v).Some?
    ensures Constrained(f, Constrained(f, v).value) == Constrained(f, v)
  {
  }

  /**
   * What `MovieCreate` holds in field `f` for a request `body`: the `Field`
   * constraint, then `validate_title` or `validate_year`, then the defaults
   * (`None` for the optional fields, `False` for `is_watched`); `None` when the
   * field is rejected.
   */
  function CreateField(body: map<string, Value>, f: Field, currentYear: int): (r: Option<Value>)
    ensures f.Required() && (f.Name() !in body || body[f.Name()] == Null) ==> r.None?
    ensures f == IsWatched && f.Name() !in body ==> r == Some(Bool(false))
    ensures !f.Required() && f != IsWatched && (f.Name() !in body || body[f.Name()] == Null) ==> r == Some(Null)
    ensures f.Name() in body && body[f.Name()] != Null && r.Some? ==> Constrained(f, body[f.Name()]).Some?
    ensures f.Name() in body && body[f.Name()] != Null && f != Title && r.Some? ==> r == Constrained(f, body[f.Name()])
    ensures f.Name() in body && body[f.Name()] != Null && f != Title && f != Year ==>
      r == Constrained(f, body[f.Name()])
    ensures (f == Year && f.Name() in body && IntWithin(body[f.Name()], EarliestYear, LatestYear) &&
             body[f.Name()].i <= currentYear + FutureYears) ==>
      r == Some(body[f.Name()])
    ensures (f == Title && f.Name() in body && TextWithin(body[f.Name()], 1, 200) && !Text.AllSpace(body[f.Name()].s)) ==>
      r == Some(Str(Text.Strip(body[f.Name()].s)))
  {
    var given := if f.Name() in body then body[f.Name()] else Null;
    if f.Required() then
      if given == Null then None
      else match Constrained(f, given)
        case None => None
        case Some(v) =>
          if f == Title then
            (match ValidateTitle(v.s) case Pass(t) => Some(Str(t)) case Fail(_) => None)
          else if f == Year then
            (match ValidateYear(v.i, currentYear) case Pass(y) => Some(Int(y)) case Fail(_) => None)
          else Some(v)
    else if f == IsWatched && f.Name() !in body then Some(Bool(false))
    else if f != IsWatched && given == Null then Some(Null)
    else Constrained(f, given)
  }

  /** The keys of the fields of `body` that fail `MovieCreate` validation. */
  function CreateFailures(body: map<string, Value>, currentYear: int): set<string> {
    set f: Field | CreateField(body, f, currentYear).None? :: f.Name()
  }

  /**
   * The bounds a `MovieBase` field's value meets once validated: the `Field`
   * constraint, the year at most five years past the current one, the title
   * already stripped, and null only in the optional fields.
   */
  predicate MovieFieldOk(f: Field, v: Value, currentYear: int) {
    match f
    case Title => TextWithin(v, 1, 200) && Text.Strip(v.s) == v.s
    case Director => TextWithin(v, 1, 100)
    case Year =>
      IntWithin(v, EarliestYear, if currentYear + FutureYears < LatestYear then currentYear + FutureYears else LatestYear)
    case Genre => TextWithin(v, 1, 50)
    case Duration => v == Null || IntWithin(v, 1, 300)
    case Rating => v == Null || (v.Num? && 0.0 <= v.r <= 10.0)
    case Synopsis => v == Null || TextWithin(v, 0, 1000)
    case Price => v == Null || (v.Num? && 0.0 <= v.r)
    case IsWatched => v.Bool?
  }

  /** The record a created movie is stored as: every field present and within its bounds. */
  ghost predicate IsMovie(rec: Record, currentYear: int) {
    && rec.Keys == MovieFields
    && forall f: Field :: MovieFieldOk(f, rec[f.Name()], currentYear)
  }

  /** A movie record has no `"id"`: the store adds it. */
  lemma MovieHasNoId(rec: Record, currentYear: int)
    requires IsMovie(rec, currentYear)
    ensures "id" !in rec
  {
    assert "id" != "title" && "id" != "director" && "id" != "year" && "id" != "genre" && "id" != "duration";
    assert "id" != "rating" && "id" != "synopsis" && "id" != "price" && "id" != "is_watched";
  }

  /** What `CreateField` yields meets the field's bounds. */
  lemma CreateFieldOk(body: map<string, Value>, f: Field, currentYear: int)
    requires CreateField(body, f, currentYear).Some?
    ensures MovieFieldOk(f, CreateField(body, f, currentYear).value, currentYear)
  {
    if f == Title { Text.StripIdempotent(body["title"].s); }
  }

  /** The dump of a `MovieBase`: one entry per field. */
  function MovieRecord(title: Value, director: Value, year: Value, genre: Value, duration: Value,
                       rating: Value, synopsis: Value, price: Value, watched: Value): (r: Record)
    ensures r.Keys == MovieFields
    ensures r[Title.Name()] == title && r[Director.Name()] == director && r[Year.Name()] == year
    ensures r[Genre.Name()] == genre && r[Duration.Name()] == duration && r[Rating.Name()] == rating
    ensures r[Synopsis.Name()] == synopsis && r[Price.Name()] == price && r[IsWatched.Name()] == watched
  {
    map[
      "title" := title, "director" := director, "year" := year, "genre" := genre,
      "duration" := duration, "rating" := rating, "synopsis" := synopsis, "price" := price,
      "is_watched" := watched]
  }

  /**
   * `MovieCreate(**body).model_dump()`: accepted exactly when no field fails,
   * and then a movie record whose title is the given one stripped and whose
   * `is_watched` is false unless the body set it; otherwise the failing fields.
   */
  function ValidateCreate(body: map<string, Value>, currentYear: int): (r: Verdict)
    ensures r.Accepted? <==> forall f: Field :: CreateField(body, f, currentYear).Some?
    ensures r.Accepted? ==> IsMovie(r.record, currentYear)
    ensures r.Accepted? ==> "title" in body && body["title"].Str? && r.record["title"] == Str(Text.Strip(body["title"].s))
    ensures r.Accepted? && "is_watched" !in body ==> r.record["is_watched"] == Bool(false)
    ensures r.Accepted? ==> forall f: Field :: Some(r.record[f.Name()]) == CreateField(body, f, currentYear)
    ensures r.Rejected? ==> r.fields != {} && r.fields <= MovieFields
  {
    if && CreateField(body, Title, currentYear).Some? && CreateField(body, Director, currentYear).Some?
       && CreateField(body, Year, currentYear).Some? && CreateField(body, Genre, currentYear).Some?
       && CreateField(body, Duration, currentYear).Some? && CreateField(body, Rating, currentYear).Some?
       && CreateField(body, Synopsis, currentYear).Some? && CreateField(body, Price, currentYear).Some?
       && CreateField(body, IsWatched, currentYear).Some?
    then
      EveryFieldPasses(body, currentYear);
      Accepted(CreatedRecord(body, currentYear))
    else
      SomeFieldFails(body, currentYear);
      Rejected(CreateFailures(body, currentYear))
  }

  /** The dump of a `MovieCreate` all of whose fields passed. */
  function CreatedRecord(body: map<string, Value>, currentYear: int): (r: Record)
    requires forall f: Field :: CreateField(body, f, currentYear).Some?
    ensures IsMovie(r, currentYear)
    ensures "title" in body && body["title"].Str? && r["title"] == Str(Text.Strip(body["title"].s))
    ensures "is_watched" !in body ==> r["is_watched"] == Bool(false)
    ensures forall f: Field :: Some(r[f.Name()]) == CreateField(body, f, currentYear)
  {
    CreatedIsMovie(body, currentYear);
    CreatedTitle(body, currentYear);
    CreatedDefault(body, currentYear);
    CreatedHoldsFields(body, currentYear);
    MovieRecord(
      CreateField(body, Title, currentYear).value, CreateField(body, Director, currentYear).value,
      CreateField(body, Year, currentYear).value, CreateField(body, Genre, currentYear).value,
      CreateField(body, Duration, currentYear).value, CreateField(body, Rating, currentYear).value,
      CreateField(body, Synopsis, currentYear).value, CreateField(body, Price, currentYear).value,
      CreateField(body, IsWatched, currentYear).value)
  }

  /** An accepted title is the given one stripped. */
  lemma CreatedTitle(body: map<string, Value>, currentYear: int)
    requires CreateField(body, Title, currentYear).Some?
    ensures "title" in body && body["title"].Str?
    ensures CreateField(body, Title, currentYear).value == Str(Text.Strip(body["title"].s))
  {
    assert Title.Name() == "title";
  }

  /** An absent `is_watched` is false. */
  lemma CreatedDefault(body: map<string, Value>, currentYear: int)
    ensures "is_watched" !in body ==> CreateField(body, IsWatched, currentYear) == Some(Bool(false))
  {
    assert IsWatched.Name() == "is_watched";
  }

  lemma EveryFieldPasses(body: map<string, Value>, currentYear: int)
    requires CreateField(body, Title, currentYear).Some? && CreateField(body, Director, currentYear).Some?
    requires CreateField(body, Year, currentYear).Some? && CreateField(body, Genre, currentYear).Some?
    requires CreateField(body, Duration, currentYear).Some? && CreateField(body, Rating, currentYear).Some?
    requires CreateField(body, Synopsis, currentYear).Some? && CreateField(body, Price, currentYear).Some?
    requires CreateField(body, IsWatched, currentYear).Some?
    ensures forall f: Field :: CreateField(body, f, currentYear).Some?
  {
    forall f: Field ensures CreateField(body, f, currentYear).Some? {
      match f
      case Title => case Director => case Year => case Genre => case Duration =>
      case Rating => case Synopsis => case Price => case IsWatched =>
    }
  }

  /** The values an accepted create request holds make up a movie record. */
  lemma CreatedIsMovie(body: map<string, Value>, currentYear: int)
    requires forall f: Field :: CreateField(body, f, currentYear).Some?
    ensures IsMovie(MovieRecord(
      CreateField(body, Title, currentYear).value, CreateField(body, Director, currentYear).value,
      CreateField(body, Year, currentYear).value, CreateField(body, Genre, currentYear).value,
      CreateField(body, Duration, currentYear).value, CreateField(body, Rating, currentYear).value,
      CreateField(body, Synopsis, currentYear).value, CreateField(body, Price, currentYear).value,
      CreateField(body, IsWatched, currentYear).value), currentYear)
  {
    var rec := MovieRecord(
      CreateField(body, Title, currentYear).value, CreateField(body, Director, currentYear).value,
      CreateField(body, Year, currentYear).value, CreateField(body, Genre, currentYear).value,
      CreateField(body, Duration, currentYear).value, CreateField(body, Rating, currentYear).value,
      CreateField(body, Synopsis, currentYear).value, CreateField(body, Price, currentYear).value,
      CreateField(body, IsWatched, currentYear).value);
    forall f: Field ensures MovieFieldOk(f, rec[f.Name()], currentYear) {
      CreateFieldOk(body, f, currentYear);
      match f
      case Title => case Director => case Year => case Genre => case Duration =>
      case Rating => case Synopsis => case Price => case IsWatched =>
    }
  }

  /** Each field of the record built from an accepted body holds that field's validated value. */
  lemma CreatedHoldsFields(body: map<string, Value>, currentYear: int)
    requires forall f: Field :: CreateField(body, f, currentYear).Some?
    ensures var rec := MovieRecord(
        CreateField(body, Title, currentYear).value, CreateField(body, Director, currentYear).value,
        CreateField(body, Year, currentYear).value, CreateField(body, Genre, currentYear).value,
        CreateField(body, Duration, currentYear).value, CreateField(body, Rating, currentYear).value,
        CreateField(body, Synopsis, currentYear).value, CreateField(body, Price, currentYear).value,
        CreateField(body, IsWatched, currentYear).value);
      forall f: Field :: Some(rec[f.Name()]) == CreateField(body, f, currentYear)
  {
    var rec := MovieRecord(
      CreateField(body, Title, currentYear).value, CreateField(body, Director, currentYear).value,
      CreateField(body, Year, currentYear).value, CreateField(body, Genre, currentYear).value,
      CreateField(body, Duration, currentYear).value, CreateField(body, Rating, currentYear).value,
      CreateField(body, Synopsis, currentYear).value, CreateField(body, Price, currentYear).value,
      CreateField(body, IsWatched, currentYear).value);
    forall f: Field ensures Some(rec[f.Name()]) == CreateField(body, f, currentYear) {
      match f
      case Title => case Director => case Year => case Genre => case Duration =>
      case Rating => case Synopsis => case Price => case IsWatched =>
    }
  }

  lemma SomeFieldFails(body: map<string, Value>, currentYear: int)
    requires exists f: Field :: CreateField(body, f, currentYear).None?
    ensures CreateFailures(body, currentYear) != {}
  {
    var f: Field :| CreateField(body, f, currentYear).None?;
    assert f.Name() in CreateFailures(body, currentYear);
  }

  /** A stored movie passes `MovieCreate` validation again and comes back unchanged. */
  lemma MovieRevalidates(rec: Record, currentYear: int)
    requires IsMovie(rec, currentYear)
    ensures ValidateCreate(rec, currentYear) == Accepted(rec)
  {
    FieldRevalidates(rec, Title, currentYear);
    FieldRevalidates(rec, Director, currentYear);
    FieldRevalidates(rec, Year, currentYear);
    FieldRevalidates(rec, Genre, currentYear);
    FieldRevalidates(rec, Duration, currentYear);
    FieldRevalidates(rec, Rating, currentYear);
    FieldRevalidates(rec, Synopsis, currentYear);
    FieldRevalidates(rec, Price, currentYear);
    FieldRevalidates(rec, IsWatched, currentYear);
    RecordFromItsFields(rec);
  }

  /** A record holding exactly the model fields is the dump of its own field values. */
  lemma RecordFromItsFields(rec: Record)
    requires rec.Keys == MovieFields
    ensures MovieRecord(rec["title"], rec["director"], rec["year"], rec["genre"], rec["duration"],
                        rec["rating"], rec["synopsis"], rec["price"], rec["is_watched"]) == rec
  {
    var r := MovieRecord(rec["title"], rec["director"], rec["year"], rec["genre"], rec["duration"],
                         rec["rating"], rec["synopsis"], rec["price"], rec["is_watched"]);
    forall k | k in rec ensures r[k] == rec[k] {
      assert FieldNamed(k).Some?;
    }
  }

  lemma FieldRevalidates(rec: Record, f: Field, currentYear: int)
    requires rec.Keys == MovieFields && MovieFieldOk(f, rec[f.Name()], currentYear)
    ensures CreateField(rec, f, currentYear) == Some(rec[f.Name()])
  {
  }

  /**
   * What `MovieUpdate` holds in a field the body sets: null is allowed for
   * every field, otherwise the `Field` constraint applies; the title is not
   * stripped and the year is not checked against the current year.
   */
  function UpdateField(f: Field, v: Value): (r: Option<Value>)
    ensures r.Some? <==> v == Null || Constrained(f, v).Some?
    ensures v == Null ==> r == Some(Null)
    ensures v != Null && r.Some? ==> r == Constrained(f, v) && r.value != Null
  {
    if v == Null then Some(Null) else Constrained(f, v)
  }

  /** `body[k]` as `MovieUpdate` holds it; `None` also for keys that name no field. */
  function UpdateValue(body: map<string, Value>, k: string): (r: Option<Value>)
    requires k in body
    ensures k !in MovieFields ==> r.None?
    ensures k in MovieFields ==> r == UpdateField(FieldNamed(k).value, body[k])
  {
    match FieldNamed(k)
    case None => None
    case Some(f) => UpdateField(f, body[k])
  }

  /**
   * `MovieUpdate(**body).model_dump(exclude_unset=True)`: accepted exactly
   * when every model field the body sets passes, and then a patch holding
   * exactly those fields (keys that name no field, `"id"` among them, are
   * dropped); every value in it is null or within its field's bounds.
   */
  function ValidateUpdate(body: map<string, Value>): (r: Verdict)
    ensures r.Accepted? <==> forall k :: k in body && k in MovieFields ==> UpdateValue(body, k).Some?
    ensures r.Accepted? ==> r.record.Keys == body.Keys * MovieFields && "id" !in r.record
    ensures r.Accepted? ==> forall k :: k in r.record ==>
      r.record[k] == Null || Constrained(FieldNamed(k).value, r.record[k]) == Some(r.record[k])
    ensures r.Accepted? ==> forall k :: k in r.record ==> Some(r.record[k]) == UpdateValue(body, k)
    ensures r.Rejected? ==> r.fields != {} && r.fields <= body.Keys * MovieFields
  {
    var given := body.Keys * MovieFields;
    if forall k :: k in given ==> UpdateValue(body, k).Some? then
      var patch := map k | k in given :: UpdateValue(body, k).value;
      PatchWithinBounds(body, patch);
      Accepted(patch)
    else
      SomeUpdateFails(body);
      Rejected(UpdateFailures(body))
  }

  /** The model fields `body` sets that fail `MovieUpdate` validation. */
  function UpdateFailures(body: map<string, Value>): set<string> {
    set k | k in body.Keys * MovieFields && UpdateValue(body, k).None?
  }

  lemma SomeUpdateFails(body: map<string, Value>)
    requires exists k :: k in body.Keys * MovieFields && UpdateValue(body, k).None?
    ensures UpdateFailures(body) != {}
  {
    var k :| k in body.Keys * MovieFields && UpdateValue(body, k).None?;
    assert k in UpdateFailures(body);
  }

  /** Every value the update patch takes from the body is null or passes its constraint again. */
  lemma PatchWithinBounds(body: map<string, Value>, patch: Record)
    requires forall k :: k in body && k in MovieFields ==> UpdateValue(body, k).Some?
    requires patch == map k | k in body.Keys * MovieFields :: UpdateValue(body, k).value
    ensures forall k :: k in patch ==> patch[k] == Null || Constrained(FieldNamed(k).value, patch[k]) == Some(patch[k])
  {
    forall k | k in patch ensures patch[k] == Null || Constrained(FieldNamed(k).value, patch[k]) == Some(patch[k]) {
      if patch[k] != Null { ConstrainedIsStable(FieldNamed(k).value, body[k]); }
    }
  }

  /**
   * On update the title goes through the length bounds only: it is stored as
   * given, surrounding whitespace and all, where a create would strip it.
   */
  lemma UpdateKeepsTitleAsGiven(t: string)
    requires 1 <= |t| <= 200
    ensures ValidateUpdate(map["title" := Str(t)]) == Accepted(map["title" := Str(t)])
  {
    var body := map["title" := Str(t)];
    assert body.Keys * MovieFields == {"title"};
    assert UpdateValue(body, "title") == Some(Str(t));
    assert (map k | k in body.Keys * MovieFields :: UpdateValue(body, k).value) == body;
  }

  /**
   * On update the year goes through the `Field` bounds only, 1880 to 2030,
   * with no check against the current year.
   */
  lemma UpdateYearBounds(y: int)
    ensures ValidateUpdate(map["year" := Int(y)]).Accepted? <==> EarliestYear <= y <= LatestYear
  {
    var body := map["year" := Int(y)];
    assert body.Keys * MovieFields == {"year"};
    assert UpdateValue(body, "year") == Constrained(Year, Int(y));
  }

  /** Explicit null passes `MovieUpdate` for every field, the required ones included. */
  lemma UpdateAcceptsNull(k: string)
    requires k in MovieFields
    ensures ValidateUpdate(map[k := Null]) == Accepted(map[k := Null])
  {
    var body := map[k := Null];
    assert body.Keys * MovieFields == {k};
    assert UpdateValue(body, k) == Some(Null);
    assert (map j | j in body.Keys * MovieFields :: UpdateValue(body, j).value) == body;
  }
}
