/**
 * The JSON document `MovieDatabase` keeps on disk, and the two directions
 * between it and the in-memory state: what `load_data` makes of a document
 * and what `save_data` writes.
 *
 *   { "movies": [ {...}, {...} ], "next_id": <int> }
 */
module Documents {
  import opened Json
  import opened Dicts

  /** What reading the backing file gives `load_data`. */
  datatype StoredFile =
    | Blank              // the text is empty once stripped
    | Unreadable         // reading the file or `json.loads` raised
    | Parsed(doc: Value) // the parsed document

  /** The in-memory state of `MovieDatabase`: `movies` and `next_id`. */
  datatype Catalog = Catalog(movies: Dict<Record>, nextId: int)

  /** The state `load_data` falls back to. */
  function EmptyCatalog(): (c: Catalog)
    ensures c.movies.Valid() && c.movies.entries == map[] && c.nextId == 1
  {
    Catalog(Empty(), 1)
  }

  /** `item.get("id")` when it is an `int`. */
  function IdOf(item: Record): (r: Option<int>)
    ensures r.Some? <==> "id" in item && item["id"].Int?
    ensures r.Some? ==> item["id"] == Int(r.value)
  {
    if "id" in item && item["id"].Int? then Some(item["id"].i) else None
  }

  /** Every movie is filed under its own `"id"`. */
  ghost predicate IdsMatch(d: Dict<Record>) {
    forall k :: k in d.entries ==> IdOf(d.entries[k]) == Some(k)
  }

  /** `next_id` is above every id in use, so the next add cannot land on an existing movie. */
  ghost predicate Fresh(c: Catalog) {
    forall k :: k in c.movies.entries ==> k < c.nextId
  }

  /** `max(s)` */
  function MaxOf(s: seq<int>): (m: int)
    requires s != []
    ensures m in s && forall x :: x in s ==> x <= m
  {
    if |s| == 1 then s[0]
    else
      var rest := MaxOf(s[1..]);
      assert forall x :: x in s ==> x == s[0] || x in s[1..];
      if s[0] < rest then rest else s[0]
  }

  /**
   * The loop of `load_data` from list item `items[0]` on, into `d`: an object
   * whose `"id"` is an int is filed under it (replacing an earlier one with the
   * same id); an object without one is skipped; anything else makes
   * `item.get` raise, which is `None` here.
   */
  function IndexItems(items: seq<Value>, d: Dict<Record>): (r: Option<Dict<Record>>)
    requires d.Valid()
    ensures r.Some? ==> r.value.Valid()
    decreases |items|
  {
    if items == [] then Some(d)
    else match items[0]
      case Obj(item) =>
        var next := match IdOf(item) case Some(id) => d.Put(id, item) case None => d;
        IndexItems(items[1..], next)
      case _ => None
  }

  /**
   * Iterating `data.get("movies", [])`: a list gives its items; an empty object
   * or an empty string gives nothing; a non-empty object or string yields keys
   * or characters, on which `item.get` raises; any other value is not iterable.
   */
  function MovieItems(top: map<string, Value>): (r: Option<seq<Value>>)
    ensures "movies" !in top ==> r == Some([])
    ensures "movies" in top && top["movies"].Arr? ==> r == Some(top["movies"].items)
    ensures "movies" in top && !top["movies"].Arr? ==>
      (r.Some? <==> top["movies"] == Obj(map[]) || top["movies"] == Str(""))
    ensures "movies" in top && !top["movies"].Arr? && r.Some? ==> r.value == []
  {
    var v := if "movies" in top then top["movies"] else Arr([]);
    match v
    case Arr(items) => Some(items)
    case Obj(fields) => if fields == map[] then Some([]) else None
    case Str(s) => if s == "" then Some([]) else None
    case _ => None
  }

  /**
   * `next_id` after loading: the stored value (1 when absent) if it is a
   * positive int, otherwise one more than the largest id, or 1 without movies.
   */
  function NextIdFor(top: map<string, Value>, d: Dict<Record>): (n: int)
    ensures "next_id" !in top ==> n == 1
    ensures "next_id" in top && top["next_id"].Int? && top["next_id"].i > 0 ==> n == top["next_id"].i
    ensures "next_id" in top && !(top["next_id"].Int? && top["next_id"].i > 0) ==>
      (d.keys == [] ==> n == 1) && forall k :: k in d.keys ==> k < n
    ensures "next_id" in top && !(top["next_id"].Int? && top["next_id"].i > 0) && d.keys != [] ==> n - 1 in d.keys
  {
    var stored := if "next_id" in top then top["next_id"] else Int(1);
    if stored.Int? && stored.i > 0 then stored.i
    else if d.keys == [] then 1
    else MaxOf(d.keys) + 1
  }

  /** What `load_data` makes of a parsed document; `None` when it raises on the way. */
  function Decode(doc: Value): (r: Option<Catalog>)
    ensures r.Some? ==> r.value.movies.Valid()
  {
    match doc
    case Obj(top) =>
      (match MovieItems(top)
       case None => None
       case Some(items) =>
         match IndexItems(items, Empty())
         case None => None
         case Some(d) => Some(Catalog(d, NextIdFor(top, d))))
    case _ => None
  }

  /**
   * `load_data`: the state it leaves, and whether it healed the file (reset
   * to the empty state and saved), which it does exactly when the file is
   * blank or unreadable or the document makes it raise.
   */
  function Load(f: StoredFile): (r: (Catalog, bool))
    ensures r.0.movies.Valid()
    ensures r.1 <==> !(f.Parsed? && Decode(f.doc).Some?)
    ensures r.1 ==> r.0 == EmptyCatalog()
    ensures !r.1 ==> f.Parsed? && r.0 == Decode(f.doc).value
  {
    match f
    case Blank => (EmptyCatalog(), true)
    case Unreadable => (EmptyCatalog(), true)
    case Parsed(doc) =>
      match Decode(doc)
      case None => (EmptyCatalog(), true)
      case Some(c) => (c, false)
  }

  /** The list items `save_data` writes: one object per movie. */
  function Objects(rs: seq<Record>): (vs: seq<Value>)
    ensures |vs| == |rs| && forall i :: 0 <= i < |rs| ==> vs[i] == Obj(rs[i])
  {
    seq(|rs|, i requires 0 <= i < |rs| => Obj(rs[i]))
  }

  /** The document `save_data` writes: the movies in order, and `next_id`. */
  function Encode(c: Catalog): (doc: Value)
    requires c.movies.Valid()
    ensures doc.Obj? && doc.fields.Keys == {"movies", "next_id"}
    ensures doc.fields["movies"] == Arr(Objects(c.movies.Values()))
    ensures doc.fields["next_id"] == Int(c.nextId)
  {
    Obj(map["movies" := Arr(Objects(c.movies.Values())), "next_id" := Int(c.nextId)])
  }

  // ---------------------------------------------------------------------------
  // What loading keeps and drops

  /** Loading fails exactly when some list item is not an object. */
  lemma {:induction false} IndexItemsFails(items: seq<Value>, d: Dict<Record>)
    requires d.Valid()
    ensures IndexItems(items, d).None? <==> exists j :: 0 <= j < |items| && !items[j].Obj?
    decreases |items|
  {
    if items != [] {
      var next := if items[0].Obj? then (match IdOf(items[0].fields) case Some(id) => d.Put(id, items[0].fields) case None => d) else d;
      IndexItemsFails(items[1..], next);
      if !items[0].Obj? {
      } else {
        assert forall j :: 1 <= j < |items| ==> items[j] == items[1..][j - 1];
        assert forall j :: 0 <= j < |items| - 1 ==> items[1..][j] == items[j + 1];
      }
    }
  }

  /** The int `"id"` of a list item that is an object. */
  function ItemId(v: Value): Option<int> {
    if v.Obj? then IdOf(v.fields) else None
  }

  /** Item `j` is the last of `items` that carries id `k`. */
  ghost predicate LastWithId(items: seq<Value>, j: int, k: int) {
    && 0 <= j < |items|
    && ItemId(items[j]) == Some(k)
    && forall j' :: j < j' < |items| ==> ItemId(items[j']) != Some(k)
  }

  /**
   * After loading, the ids in use are those already in `d` and those of the
   * list items that carry an int `"id"`; each holds the LAST item carrying it,
   * or its old record when no item does.
   */
  lemma {:induction false} IndexItemsContents(items: seq<Value>, d: Dict<Record>, k: int)
    requires d.Valid() && IndexItems(items, d).Some?
    ensures var r := IndexItems(items, d).value;
      (k in r.entries <==> (k in d.entries || exists j :: 0 <= j < |items| && ItemId(items[j]) == Some(k)))
    ensures var r := IndexItems(items, d).value;
      forall j :: LastWithId(items, j, k) ==> r.entries[k] == items[j].fields
    ensures var r := IndexItems(items, d).value;
      ((forall j :: 0 <= j < |items| ==> ItemId(items[j]) != Some(k)) && k in d.entries) ==> r.entries[k] == d.entries[k]
    decreases |items|
  {
    if items != [] {
      IndexItemsFails(items, d);
      var item := items[0].fields;
      var next := match IdOf(item) case Some(id) => d.Put(id, item) case None => d;
      IndexItemsContents(items[1..], next, k);
      IndexItemsFails(items[1..], next);
      assert forall j :: 1 <= j < |items| ==> items[j] == items[1..][j - 1];
      assert forall j :: 0 <= j < |items| - 1 ==> items[1..][j] == items[j + 1];
      forall j | LastWithId(items, j, k) && j > 0 ensures LastWithId(items[1..], j - 1, k) { }
    }
  }

  /** Every loaded movie is filed under its own int `"id"`. */
  lemma {:induction false} IndexItemsMatchIds(items: seq<Value>, d: Dict<Record>)
    requires d.Valid() && IdsMatch(d) && IndexItems(items, d).Some?
    ensures IdsMatch(IndexItems(items, d).value)
    decreases |items|
  {
    if items != [] {
      var item := items[0].fields;
      var next := match IdOf(item) case Some(id) => d.Put(id, item) case None => d;
      IndexItemsMatchIds(items[1..], next);
    }
  }

  /** A document `load_data` accepts gives a state in which every movie sits under its own id. */
  lemma DecodedIdsMatch(doc: Value)
    requires Decode(doc).Some?
    ensures IdsMatch(Decode(doc).value.movies)
  {
    var items := MovieItems(doc.fields).value;
    IndexItemsMatchIds(items, Empty());
  }

  /**
   * `next_id` after a load: the stored value when it is a positive int (1 when
   * the key is absent); otherwise one above the largest id, or 1 without
   * movies, so that it is fresh.
   */
  lemma DecodedNextId(doc: Value)
    requires Decode(doc).Some?
    ensures "next_id" !in doc.fields ==> Decode(doc).value.nextId == 1
    ensures "next_id" in doc.fields && doc.fields["next_id"].Int? && doc.fields["next_id"].i > 0 ==>
      Decode(doc).value.nextId == doc.fields["next_id"].i
    ensures "next_id" in doc.fields && !(doc.fields["next_id"].Int? && doc.fields["next_id"].i > 0) ==>
      && Fresh(Decode(doc).value)
      && (Decode(doc).value.movies.entries == map[] ==> Decode(doc).value.nextId == 1)
      && (Decode(doc).value.movies.entries != map[] ==> Decode(doc).value.nextId - 1 in Decode(doc).value.movies.entries)
  {
    var c := Decode(doc).value;
    if c.movies.keys == [] {
      assert forall k :: k !in c.movies.entries;
      assert c.movies.entries == map[];
    }
  }

  /**
   * The stored `next_id` is taken as it is even when it is not above the ids
   * in use: this document loads with `next_id == 2` while id 5 is taken, so
   * the state is not fresh.
   */
  lemma StoredNextIdNotForced()
    ensures var doc := Obj(map["movies" := Arr([Obj(map["id" := Int(5)])]), "next_id" := Int(2)]);
      Decode(doc).Some? && Decode(doc).value.nextId == 2 && 5 in Decode(doc).value.movies.entries
      && !Fresh(Decode(doc).value)
  {
    var item: Record := map["id" := Int(5)];
    var doc := Obj(map["movies" := Arr([Obj(item)]), "next_id" := Int(2)]);
    assert IdOf(item) == Some(5);
    assert IndexItems([Obj(item)], Empty()) == Some(Empty<Record>().Put(5, item));
  }

  // ---------------------------------------------------------------------------
  // Saving then loading

  /** The first `i` movies of `d`, in order: what the load loop has built after `i` items of a saved document. */
  function Prefix(d: Dict<Record>, i: nat): (p: Dict<Record>)
    requires d.Valid() && i <= |d.keys|
    ensures p.Valid()
  {
    var ks := d.keys[..i];
    assert forall x, y :: 0 <= x < y < |ks| ==> ks[x] != ks[y] by {
      forall x, y | 0 <= x < y < |ks| ensures ks[x] != ks[y] { assert ks[x] == d.keys[x] && ks[y] == d.keys[y]; }
    }
    Dict(map k | k in ks :: d.entries[k], ks)
  }

  lemma {:induction false} IndexSavedItems(d: Dict<Record>, i: nat)
    requires d.Valid() && IdsMatch(d) && i <= |d.keys|
    ensures IndexItems(Objects(d.Values())[i..], Prefix(d, i)) == Some(d)
    decreases |d.keys| - i
  {
    var items := Objects(d.Values());
    if i == |d.keys| {
      assert items[i..] == [];
      PrefixAll(d);
    } else {
      var k := d.keys[i];
      var rest := items[i..];
      assert rest[0] == Obj(d.entries[k]);
      assert rest[1..] == items[i + 1..];
      PrefixStep(d, i);
      IndexItemsFirst(rest, Prefix(d, i));
      IndexSavedItems(d, i + 1);
    }
  }

  /** Loading an object with an int id files it and goes on with the rest. */
  lemma IndexItemsFirst(items: seq<Value>, d: Dict<Record>)
    requires d.Valid() && items != [] && items[0].Obj? && IdOf(items[0].fields).Some?
    ensures IndexItems(items, d) == IndexItems(items[1..], d.Put(IdOf(items[0].fields).value, items[0].fields))
  {
  }

  lemma PrefixAll(d: Dict<Record>)
    requires d.Valid()
    ensures Prefix(d, |d.keys|) == d
  {
    assert d.keys[..|d.keys|] == d.keys;
    assert forall k :: k in Prefix(d, |d.keys|).entries <==> k in d.entries;
  }

  /** Filing saved item `i` under its id extends the prefix by one movie. */
  lemma PrefixStep(d: Dict<Record>, i: nat)
    requires d.Valid() && IdsMatch(d) && i < |d.keys|
    ensures IdOf(d.entries[d.keys[i]]) == Some(d.keys[i])
    ensures Prefix(d, i).Put(d.keys[i], d.entries[d.keys[i]]) == Prefix(d, i + 1)
  {
    var k := d.keys[i];
    assert k !in Prefix(d, i).keys;
    assert d.keys[..i + 1] == d.keys[..i] + [k];
  }

  /**
   * Round trip: loading what `save_data` wrote restores the same movies in
   * the same order and the same `next_id`, provided every movie sits under
   * its own id and `next_id` is positive.
   */
  lemma LoadSaved(c: Catalog)
    requires c.movies.Valid() && IdsMatch(c.movies) && c.nextId > 0
    ensures Decode(Encode(c)) == Some(c)
    ensures Load(Parsed(Encode(c))) == (c, false)
  {
    IndexSavedItems(c.movies, 0);
    assert Prefix(c.movies, 0) == Empty();
    assert Objects(c.movies.Values())[0..] == Objects(c.movies.Values());
  }
}
