/**
 * `importCSV`: parse the file, drop the rows that repeat an existing record,
 * fill the missing details of the remaining ones from a lookup when a key is
 * stored, and append them to the store.
 *
 * The lookups run concurrently in the source; each touches only its own
 * record, so the order they finish in does not matter and they are modelled
 * one after the other.
 */
module Import {
  import opened Wrappers
  import opened Movies
  import opened Enrich
  import opened CsvDecode

  // ---------------------------------------------------------------------
  // Duplicates

  /** The duplicate rule: the same title, and the same year or two absent
      years. */
  predicate SameEntry(existing: Movie, candidate: Movie) {
    existing.title == candidate.title
    && (existing.year == candidate.year || (existing.year == 0 && candidate.year == 0))
  }

  /** A candidate repeats a record of the store. */
  predicate IsDuplicate(existing: seq<Movie>, m: Movie) {
    exists e :: e in existing && SameEntry(e, m)
  }

  /** The candidates to add, in file order, and the number skipped. */
  datatype Dedup = Dedup(toAdd: seq<Movie>, skipped: nat)

  /** The candidates that repeat no record of the store, each compared with
      the store only. */
  function Deduplicate(existing: seq<Movie>, candidates: seq<Movie>): (r: Dedup)
    ensures |r.toAdd| + r.skipped == |candidates|
  {
    if |candidates| == 0 then Dedup([], 0)
    else
      var rest := Deduplicate(existing, candidates[1..]);
      if IsDuplicate(existing, candidates[0]) then Dedup(rest.toAdd, rest.skipped + 1)
      else Dedup([candidates[0]] + rest.toAdd, rest.skipped)
  }

  /** A candidate is added exactly when it repeats no record of the store,
      and nothing is skipped exactly when no candidate repeats one. */
  lemma {:induction false} DeduplicateMembers(existing: seq<Movie>, candidates: seq<Movie>)
    ensures forall m :: m in Deduplicate(existing, candidates).toAdd <==>
      m in candidates && !IsDuplicate(existing, m)
    ensures Deduplicate(existing, candidates).skipped == 0 <==>
      forall m :: m in candidates ==> !IsDuplicate(existing, m)
  {
    if |candidates| > 0 {
      DeduplicateMembers(existing, candidates[1..]);
      assert forall m :: m in candidates <==> m == candidates[0] || m in candidates[1..];
    }
  }

  /** Candidates are judged one by one, against the store only: the result
      for a file is the results for its parts, in order. */
  lemma {:induction false} DeduplicateAppend(existing: seq<Movie>, a: seq<Movie>, b: seq<Movie>)
    ensures Deduplicate(existing, a + b).toAdd == Deduplicate(existing, a).toAdd + Deduplicate(existing, b).toAdd
    ensures Deduplicate(existing, a + b).skipped == Deduplicate(existing, a).skipped + Deduplicate(existing, b).skipped
  {
    if |a| == 0 {
      assert a + b == b;
    } else {
      assert (a + b)[0] == a[0];
      assert (a + b)[1..] == a[1..] + b;
      DeduplicateAppend(existing, a[1..], b);
    }
  }

  /** Two rows of one file that repeat each other are both added when the
      store has neither: candidates are never compared with each other. */
  lemma RepeatedCandidatesKept(existing: seq<Movie>, m: Movie)
    requires !IsDuplicate(existing, m)
    ensures Deduplicate(existing, [m, m]) == Dedup([m, m], 0)
  {
    assert [m, m][1..] == [m];
    assert [m][1..] == [];
  }

  // ---------------------------------------------------------------------
  // Details on import

  /** The details step of one new record: with a key stored and a detail
      missing (the placeholder poster counting as present), the lookup of its
      title is merged in. */
  function FillOnImport(m: Movie, hasKey: bool, lookup: string -> Details): (r: Merged)
    ensures !hasKey ==> r == Merged(m, NoFills)
    ensures hasKey ==> r == MergeDetails(m, lookup(m.title), EmptyOnly)
  {
    if !hasKey then Merged(m, NoFills)
    else if NeedsDetails(m, EmptyOnly) then MergeDetails(m, lookup(m.title), EmptyOnly)
    else
      MergeComplete(m, lookup(m.title), EmptyOnly);
      Merged(m, NoFills)
  }

  /** The new records after their details step, and how many gained a
      detail. */
  datatype Batch = Batch(movies: seq<Movie>, updated: nat)

  /** Each new record after its details step, and the number of them that
      gained at least one detail (`updatedDetailsCount`). */
  function FillAllOnImport(ms: seq<Movie>, hasKey: bool, lookup: string -> Details): (r: Batch)
    ensures |r.movies| == |ms|
    ensures forall i :: 0 <= i < |ms| ==> r.movies[i] == FillOnImport(ms[i], hasKey, lookup).movie
    ensures r.updated == GainedBelow(ms, hasKey, lookup, |ms|)
    ensures r.updated <= |ms|
    ensures !hasKey ==> r == Batch(ms, 0)
  {
    if |ms| == 0 then Batch([], 0)
    else
      var first := FillOnImport(ms[0], hasKey, lookup);
      var rest := FillAllOnImport(ms[1..], hasKey, lookup);
      assert !hasKey ==> ms == [ms[0]] + ms[1..];
      GainedBelowShift(ms, hasKey, lookup, |ms| - 1);
      Batch([first.movie] + rest.movies, rest.updated + (if first.fills.Any() then 1 else 0))
  }

  /** The number of the first `n` records that gain a detail on import. */
  function GainedBelow(ms: seq<Movie>, hasKey: bool, lookup: string -> Details, n: nat): nat
    requires n <= |ms|
  {
    if n == 0 then 0
    else GainedBelow(ms, hasKey, lookup, n - 1) + (if FillOnImport(ms[n - 1], hasKey, lookup).fills.Any() then 1 else 0)
  }

  /** Counting from the front: the first record's gain, then the count over
      the rest. */
  lemma {:induction false} GainedBelowShift(ms: seq<Movie>, hasKey: bool, lookup: string -> Details, n: nat)
    requires 0 < |ms| && n < |ms|
    ensures GainedBelow(ms, hasKey, lookup, n + 1) ==
      (if FillOnImport(ms[0], hasKey, lookup).fills.Any() then 1 else 0) + GainedBelow(ms[1..], hasKey, lookup, n)
  {
    if n > 0 {
      GainedBelowShift(ms, hasKey, lookup, n - 1);
      assert ms[1..][n - 1] == ms[n];
    }
  }

  /** No record is counted as updated exactly when none gained a detail. */
  lemma {:induction false} NoneGained(ms: seq<Movie>, hasKey: bool, lookup: string -> Details, n: nat)
    requires n <= |ms|
    ensures GainedBelow(ms, hasKey, lookup, n) == 0 <==>
      forall i :: 0 <= i < n ==> !FillOnImport(ms[i], hasKey, lookup).fills.Any()
  {
    if n > 0 {
      NoneGained(ms, hasKey, lookup, n - 1);
    }
  }

  // ---------------------------------------------------------------------
  // The operation

  /** How an import ends: the file could not be parsed, it held nothing new
      (with the number of records read), or the new store with the numbers
      added, skipped and given details. */
  datatype ImportOutcome =
    | ImportFailed(error: CsvError)
    | NothingNew(records: nat)
    | Imported(store: seq<Movie>, added: nat, skipped: nat, detailsUpdated: nat)

  /** What `importCSV` does with the records read from a file: skip the
      repeats, give the others their details, append them. */
  function ImportRecords(candidates: seq<Movie>, existing: seq<Movie>, hasKey: bool, lookup: string -> Details): (r: ImportOutcome)
    ensures !r.ImportFailed?
    ensures r.NothingNew? <==> |Deduplicate(existing, candidates).toAdd| == 0
    ensures r.NothingNew? ==> r.records == |candidates|
    ensures r.Imported? ==>
      && var toAdd := Deduplicate(existing, candidates).toAdd;
      && r.added == |toAdd| > 0
      && r.added + r.skipped == |candidates|
      && |r.store| == |existing| + r.added
      && r.store[..|existing|] == existing
      && r.detailsUpdated <= r.added
      && r.store == existing + FillAllOnImport(toAdd, hasKey, lookup).movies
      && r.detailsUpdated == GainedBelow(toAdd, hasKey, lookup, |toAdd|)
      && (!hasKey ==> r.store == existing + toAdd && r.detailsUpdated == 0)
  {
    var dedup := Deduplicate(existing, candidates);
    if |dedup.toAdd| == 0 then NothingNew(|candidates|)
    else
      var filled := FillAllOnImport(dedup.toAdd, hasKey, lookup);
      var store := existing + filled.movies;
      assert store[..|existing|] == existing;
      Imported(store, |dedup.toAdd|, dedup.skipped, filled.updated)
  }

  /** `importCSV` on the file text `text`, with `hasKey` telling whether a
      key is stored: a file that does not parse fails the import with the
      parse error. */
  function ImportCsv(text: string, existing: seq<Movie>, hasKey: bool, lookup: string -> Details, env: Env): (r: ImportOutcome)
    ensures r.ImportFailed? <==> ParseCsv(text, env).Failure?
    ensures r.ImportFailed? ==> r.error == ParseCsv(text, env).error
  {
    match ParseCsv(text, env)
    case Failure(e) => ImportFailed(e)
    case Success(candidates) => ImportRecords(candidates, existing, hasKey, lookup)
  }

  /** A file with nothing new: every record read repeats one of the store. */
  lemma NothingNewMeansAllRepeat(candidates: seq<Movie>, existing: seq<Movie>, hasKey: bool, lookup: string -> Details)
    requires ImportRecords(candidates, existing, hasKey, lookup).NothingNew?
    ensures forall m :: m in candidates ==> IsDuplicate(existing, m)
  {
    DeduplicateMembers(existing, candidates);
    forall m | m in candidates ensures IsDuplicate(existing, m) {
      assert m !in Deduplicate(existing, candidates).toAdd;
    }
  }

  /** Every record an import adds is a record read from the file that
      repeats no record of the store, with at most its details filled. */
  lemma ImportedRecordAt(candidates: seq<Movie>, existing: seq<Movie>, hasKey: bool, lookup: string -> Details, i: nat)
    requires ImportRecords(candidates, existing, hasKey, lookup).Imported?
    requires |existing| <= i < |ImportRecords(candidates, existing, hasKey, lookup).store|
    ensures var c := Deduplicate(existing, candidates).toAdd[i - |existing|];
      && c in candidates && !IsDuplicate(existing, c)
      && KeepsPresent(c, ImportRecords(candidates, existing, hasKey, lookup).store[i], EmptyOnly)
  {
    DeduplicateMembers(existing, candidates);
    var toAdd := Deduplicate(existing, candidates).toAdd;
    assert toAdd[i - |existing|] in toAdd;
    if hasKey {
      MergeWrites(toAdd[i - |existing|], lookup(toAdd[i - |existing|].title), EmptyOnly);
    }
  }

  /** Every record an import adds has a title and a valid viewing date. */
  lemma ImportedRecordsValid(text: string, existing: seq<Movie>, hasKey: bool, lookup: string -> Details, env: Env, i: nat)
    requires ImportCsv(text, existing, hasKey, lookup, env).Imported?
    requires |existing| <= i < |ImportCsv(text, existing, hasKey, lookup, env).store|
    ensures Importable(ImportCsv(text, existing, hasKey, lookup, env).store[i], env)
  {
    var candidates := ParseCsv(text, env).value;
    ImportedRecordAt(candidates, existing, hasKey, lookup, i);
    ParsedImportable(text, env, Deduplicate(existing, candidates).toAdd[i - |existing|]);
  }

  /** Every record a parse yields has a title and a valid viewing date. */
  lemma ParsedImportable(text: string, env: Env, m: Movie)
    requires ParseCsv(text, env).Success? && m in ParseCsv(text, env).value
    ensures Importable(m, env)
  {
    var lines := Lines(text);
    ParseCsvRows(text, env);
    DecodedOrigin(HeaderNames(lines[0]), lines[1..], 0, env, m);
  }

  /** The duplicate check runs before the details step, so a record whose
      year the lookup supplies can end up repeating a record of the store. */
  lemma FilledYearCanRepeat(e: Movie, m: Movie, lookup: string -> Details)
    requires m.title == e.title && m.year == 0 && e.year != 0
    requires lookup(m.title).year == e.year
    ensures !IsDuplicate([e], m)
    ensures IsDuplicate([e], FillOnImport(m, true, lookup).movie)
  {
    assert e in [e];
  }
}
