/**
 * The edits a user makes to the collection one record at a time: deleting
 * one record or a selection, saving the edit form, adding a record, and
 * saving the provider's API key. Each takes the store (or the key input) and
 * gives the outcome the source reports; the confirmation dialogs are taken
 * as confirmed.
 */
module Store {
  import opened Wrappers
  import opened Text
  import opened Movies
  import opened Enrich
  import opened CsvDecode

  // ---------------------------------------------------------------------
  // Deleting

  /** The records whose id is none of `ids`, in store order. */
  function WithoutIds(store: seq<Movie>, ids: seq<string>): (r: seq<Movie>)
    ensures |r| <= |store|
    ensures forall m :: m in r <==> m in store && m.id !in ids
    ensures |r| == |store| <==> forall i :: 0 <= i < |store| ==> store[i].id !in ids
  {
    if |store| == 0 then []
    else
      var rest := WithoutIds(store[1..], ids);
      assert forall m :: m in store <==> m == store[0] || m in store[1..];
      assert (forall i :: 0 <= i < |store| ==> store[i].id !in ids) <==>
        store[0].id !in ids && forall i :: 0 <= i < |store| - 1 ==> store[1..][i].id !in ids;
      if store[0].id in ids then rest else [store[0]] + rest
  }

  /** The filter keeps the order of the store: filtering a concatenation
      filters each part. */
  lemma {:induction false} WithoutIdsAppend(a: seq<Movie>, b: seq<Movie>, ids: seq<string>)
    ensures WithoutIds(a + b, ids) == WithoutIds(a, ids) + WithoutIds(b, ids)
  {
    if |a| == 0 {
      assert a + b == b;
    } else {
      assert (a + b)[0] == a[0];
      assert (a + b)[1..] == a[1..] + b;
      WithoutIdsAppend(a[1..], b, ids);
    }
  }

  /** How deleting one record ends. */
  datatype DeleteOutcome = NotFound | Deleted(store: seq<Movie>)

  /** `deleteMovie(id)`: remove every record with that id; nothing removed
      is reported as not found. */
  function DeleteMovie(store: seq<Movie>, id: string): (r: DeleteOutcome)
    ensures r.NotFound? <==> forall i :: 0 <= i < |store| ==> store[i].id != id
    ensures r.Deleted? ==>
      && |r.store| < |store|
      && forall m :: m in r.store <==> m in store && m.id != id
  {
    var kept := WithoutIds(store, [id]);
    if |kept| < |store| then Deleted(kept) else NotFound
  }

  /** How deleting a selection ends: nothing chosen, the whole store cleared
      (with its size), or the chosen records removed (with the number of
      boxes that were ticked). */
  datatype BulkOutcome =
    | NothingChosen
    | ClearedAll(count: nat)
    | DeletedChosen(store: seq<Movie>, reported: nat)

  /** `deleteSelectedMovies`: "select all" on a non-empty store clears it;
      otherwise the ticked ids are removed; with nothing ticked nothing
      happens. */
  function DeleteSelected(store: seq<Movie>, selectAll: bool, chosen: seq<string>): (r: BulkOutcome)
    ensures r.ClearedAll? <==> selectAll && |store| > 0
    ensures r.ClearedAll? ==> r.count == |store|
    ensures r.NothingChosen? <==> !(selectAll && |store| > 0) && |chosen| == 0
    ensures r.DeletedChosen? ==>
      && r.reported == |chosen|
      && forall m :: m in r.store <==> m in store && m.id !in chosen
  {
    if selectAll && |store| > 0 then ClearedAll(|store|)
    else if |chosen| > 0 then DeletedChosen(WithoutIds(store, chosen), |chosen|)
    else NothingChosen
  }

  // ---------------------------------------------------------------------
  // Editing

  /** The edit form's fields, as entered. */
  datatype EditForm = EditForm(
    title: string, director: string, year: string, rating: string, ratingDate: string,
    country: string, link: string, coverUrl: string, review: string)

  /** How saving an edit ends. */
  datatype EditOutcome = NoId | EditNotFound | EmptyTitle | InvalidDate | Saved(store: seq<Movie>)

  /** The edited record: the form's fields over the previous record, which keeps
      its id and creation time; an empty date field keeps the previous date. */
  function Edited(prev: Movie, form: EditForm, env: Env): (r: Movie)
    ensures r.id == prev.id && r.createdAt == prev.createdAt
    ensures r.title == Trim(form.title) && r.director == Trim(form.director)
    ensures r.ratingDate == if form.ratingDate == "" then prev.ratingDate else form.ratingDate
    ensures r.updatedAt == env.now
  {
    prev.(
      title := Trim(form.title),
      director := Trim(form.director),
      year := JsParseInt(form.year).GetOr(0),
      rating := env.parseRating(form.rating),
      ratingDate := if form.ratingDate == "" then prev.ratingDate else form.ratingDate,
      country := Trim(form.country),
      link := Trim(form.link),
      coverUrl := Trim(form.coverUrl),
      review := Trim(form.review),
      updatedAt := env.now)
  }

  /** `saveMovieEdit` for the record with id `id`. The checks come in the
      source's order: no id, no such record, an empty title, a date entered
      that is not valid. */
  function SaveEdit(store: seq<Movie>, id: string, form: EditForm, env: Env): (r: EditOutcome)
    ensures r.NoId? <==> id == ""
    ensures r.EditNotFound? <==> id != "" && FindById(store, id) == -1
    ensures r.EmptyTitle? <==> id != "" && FindById(store, id) != -1 && Trim(form.title) == ""
    ensures r.InvalidDate? <==>
      id != "" && FindById(store, id) != -1 && Trim(form.title) != ""
      && form.ratingDate != "" && env.dateOf(form.ratingDate).None?
    ensures r.Saved? ==>
      var k := FindById(store, id);
      && 0 <= k < |store|
      && r.store == store[k := Edited(store[k], form, env)]
      && r.store[k].title != ""
      && (r.store[k].ratingDate == store[k].ratingDate || env.dateOf(r.store[k].ratingDate).Some?)
  {
    if id == "" then NoId
    else
      var k := FindById(store, id);
      if k == -1 then EditNotFound
      else if Trim(form.title) == "" then EmptyTitle
      else if form.ratingDate != "" && env.dateOf(form.ratingDate).None? then InvalidDate
      else Saved(store[k := Edited(store[k], form, env)])
  }

  /** Saving the same form a second time changes nothing more. */
  lemma SaveEditIdempotent(store: seq<Movie>, id: string, form: EditForm, env: Env)
    requires SaveEdit(store, id, form, env).Saved?
    ensures var once := SaveEdit(store, id, form, env).store;
      SaveEdit(once, id, form, env) == Saved(once)
  {
    var k := FindById(store, id);
    var once := store[k := Edited(store[k], form, env)];
    FindByIdSameIds(store, once, id);
    EditedTwice(store[k], form, env);
    assert Edited(once[k], form, env) == once[k];
    assert once[k := once[k]] == once;
  }

  /** The edited record depends on the previous one only through what the
      form leaves alone, so editing it again with the same form gives it back. */
  lemma EditedTwice(prev: Movie, form: EditForm, env: Env)
    ensures Edited(Edited(prev, form, env), form, env) == Edited(prev, form, env)
  {
  }

  /** `findIndex` by id sees only the ids. */
  lemma {:induction false} FindByIdSameIds(s: seq<Movie>, t: seq<Movie>, id: string)
    requires |s| == |t| && forall i :: 0 <= i < |s| ==> s[i].id == t[i].id
    ensures FindById(s, id) == FindById(t, id)
  {
    if |s| > 0 {
      FindByIdSameIds(s[1..], t[1..], id);
    }
  }

  lemma TrimIdempotent(s: string)
    ensures Trim(Trim(s)) == Trim(s)
  {
  }

  /** A record that could be imported still can after an edit: it keeps a
      title and a valid date. */
  lemma EditKeepsImportable(store: seq<Movie>, id: string, form: EditForm, env: Env)
    requires SaveEdit(store, id, form, env).Saved?
    requires Importable(store[FindById(store, id)], env)
    ensures Importable(SaveEdit(store, id, form, env).store[FindById(store, id)], env)
  {
  }

  // ---------------------------------------------------------------------
  // Adding

  /** The add form's fields, as entered. */
  datatype AddForm = AddForm(title: string, rating: string, ratingDate: string, review: string)

  /** How adding a record ends. */
  datatype AddOutcome = AddEmptyTitle | MissingDate | AddInvalidDate | Added(store: seq<Movie>)

  /** The new record before its details: the form's fields, no details, the
      operation's id and timestamp. */
  function Blank(form: AddForm, env: Env): (r: Movie)
    ensures r.coverUrl == "" && r.director == "" && r.year == 0 && r.country == "" && r.link == ""
    ensures NeedsDetails(r, EmptyOnly)
    ensures r.title == Trim(form.title) && Trimmed(r.title) && r.review == Trim(form.review)
    ensures r.ratingDate == form.ratingDate
    ensures r.id == env.freshId(0) && r.createdAt == env.now && r.updatedAt == ""
  {
    Movie(
      id := env.freshId(0),
      title := Trim(form.title),
      rating := env.parseRating(form.rating),
      ratingDate := form.ratingDate,
      review := Trim(form.review),
      year := 0,
      country := "",
      link := "",
      director := "",
      coverUrl := "",
      createdAt := env.now,
      updatedAt := "")
  }

  /** `addMovie`: check the title and the date, look the title up when a key
      is stored, and append the new record. */
  function AddMovie(store: seq<Movie>, form: AddForm, hasKey: bool, lookup: string -> Details, env: Env): (r: AddOutcome)
    ensures r.AddEmptyTitle? <==> Trim(form.title) == ""
    ensures r.MissingDate? <==> Trim(form.title) != "" && form.ratingDate == ""
    ensures r.AddInvalidDate? <==>
      Trim(form.title) != "" && form.ratingDate != "" && env.dateOf(form.ratingDate).None?
    ensures r.Added? ==>
      && |r.store| == |store| + 1
      && r.store[..|store|] == store
      && Importable(r.store[|store|], env)
      && r.store[|store|].id == env.freshId(0)
      && (!hasKey ==> r.store[|store|] == Blank(form, env))
  {
    var title := Trim(form.title);
    if title == "" then AddEmptyTitle
    else if form.ratingDate == "" then MissingDate
    else if env.dateOf(form.ratingDate).None? then AddInvalidDate
    else
      var d := if hasKey then lookup(title) else NoDetails;
      var m := Blank(form, env).(director := d.director, year := d.year, country := d.country, coverUrl := d.posterUrl);
      assert (store + [m])[..|store|] == store;
      Added(store + [m])
  }

  /** The new record is the blank record with the lookup merged in the way
      an import merges it. */
  lemma AddIsImportFillOfBlank(store: seq<Movie>, form: AddForm, lookup: string -> Details, env: Env)
    requires AddMovie(store, form, true, lookup, env).Added?
    ensures AddMovie(store, form, true, lookup, env).store[|store|]
      == MergeDetails(Blank(form, env), lookup(Trim(form.title)), EmptyOnly).movie
  {
  }

  // ---------------------------------------------------------------------
  // The API key

  /** What saving the key input does to the stored key. */
  datatype KeyAction = ClearKey | StoreKey(key: string) | RejectKey

  /** A letter or digit of ASCII: `[a-z0-9]` under the case-insensitive flag. */
  predicate IsAsciiAlnum(c: char) {
    ('a' <= c <= 'z') || ('A' <= c <= 'Z') || ('0' <= c <= '9')
  }

  /** The key format check: exactly 32 ASCII letters and digits. */
  predicate WellFormedKey(k: string) {
    |k| == 32 && forall i :: 0 <= i < |k| ==> IsAsciiAlnum(k[i])
  }

  /** `saveTmdbApiKey`: the trimmed input clears the key when empty, is
      stored when well formed, and is rejected otherwise. */
  function SaveApiKey(input: string): (r: KeyAction)
    ensures r == ClearKey <==> Trim(input) == ""
    ensures r == RejectKey <==> Trim(input) != "" && !WellFormedKey(Trim(input))
    ensures r.StoreKey? ==> r.key == Trim(input) && WellFormedKey(r.key) && r.key != ""
  {
    var key := Trim(input);
    if key == "" then ClearKey
    else if WellFormedKey(key) then StoreKey(key)
    else RejectKey
  }

  /** Saving a stored key again stores it again. */
  lemma SaveApiKeyStable(input: string)
    requires SaveApiKey(input).StoreKey?
    ensures SaveApiKey(SaveApiKey(input).key) == SaveApiKey(input)
  {
    TrimIdempotent(input);
  }
}
