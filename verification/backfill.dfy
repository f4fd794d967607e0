/**
 * `fetchAllMissingDetails`: select the records missing a detail (the
 * placeholder poster counting as missing), look each one up by title in
 * batches of eight with a pause between batches, merge what was found into
 * the store, count the fills, and write the store back once at the end.
 *
 * The lookups of a batch run concurrently in the source; each continuation
 * runs to completion before the next, so a batch is modelled as a fold over
 * its records in order. The lookup itself is the parameter `lookup`, and the
 * pause is only counted.
 */
module Backfill {
  import opened Movies
  import opened Enrich

  /** Records looked up per batch. */
  const BatchSize: nat := 8

  // ---------------------------------------------------------------------
  // Selection and batches

  /** The positions, from `k` on, of the records missing a detail, in store
      order. */
  function Needing(store: seq<Movie>, k: nat, rule: PosterRule): (r: seq<nat>)
    requires k <= |store|
    ensures forall j :: 0 <= j < |r| ==> k <= r[j] < |store|
    decreases |store| - k
  {
    if k == |store| then []
    else (if NeedsDetails(store[k], rule) then [k] else []) + Needing(store, k + 1, rule)
  }

  /** The selection holds every position from `k` on whose record misses a
      detail, and no other, in increasing order. */
  lemma {:induction false} NeedingMembers(store: seq<Movie>, k: nat, rule: PosterRule)
    requires k <= |store|
    ensures forall i, j :: 0 <= i < j < |Needing(store, k, rule)| ==> Needing(store, k, rule)[i] < Needing(store, k, rule)[j]
    ensures forall p: nat :: p in Needing(store, k, rule) <==> k <= p < |store| && NeedsDetails(store[p], rule)
    decreases |store| - k
  {
    if k < |store| {
      NeedingMembers(store, k + 1, rule);
    }
  }

  /** The records the back-fill works on, as positions of the store. */
  function Selection(store: seq<Movie>, rule: PosterRule): (r: seq<nat>)
    ensures forall j :: 0 <= j < |r| ==> r[j] < |store|
  {
    Needing(store, 0, rule)
  }

  /** Consecutive slices of `BatchSize` elements, the last one possibly
      shorter. */
  function Slices<T>(s: seq<T>): (r: seq<seq<T>>)
    ensures |r| == (|s| + BatchSize - 1) / BatchSize
    ensures forall k :: 0 <= k < |r| ==> 0 < |r[k]| <= BatchSize
    ensures forall k :: 0 <= k < |r| - 1 ==> |r[k]| == BatchSize
    decreases |s|
  {
    if |s| == 0 then []
    else if |s| <= BatchSize then [s]
    else [s[..BatchSize]] + Slices(s[BatchSize..])
  }

  function Concat<T>(ss: seq<seq<T>>): seq<T> {
    if |ss| == 0 then [] else ss[0] + Concat(ss[1..])
  }

  /** The slices, put back together, are the sequence sliced. */
  lemma {:induction false} SlicesConcat<T>(s: seq<T>)
    ensures Concat(Slices(s)) == s
    decreases |s|
  {
    if |s| == 0 {
    } else if |s| <= BatchSize {
      assert Slices(s) == [s];
      assert Concat([s]) == s + Concat([]);
    } else {
      var r := Slices(s);
      assert r == [s[..BatchSize]] + Slices(s[BatchSize..]);
      assert r[1..] == Slices(s[BatchSize..]);
      SlicesConcat(s[BatchSize..]);
      assert s == s[..BatchSize] + s[BatchSize..];
    }
  }

  // ---------------------------------------------------------------------
  // The per-record step and the fold

  /** The state the batches work on: the store, updated in place, and the
      counters. */
  datatype State = State(store: seq<Movie>, counts: Counts)

  /** One selected record's turn: the record now at position `p` is checked
      again, looked up by its title, and the result merged into the first
      record carrying its id (which exists: `p` carries it). */
  function Step(st: State, p: nat, lookup: string -> Details, rule: PosterRule): (r: State)
    requires p < |st.store|
    ensures |r.store| == |st.store|
  {
    var movie := st.store[p];
    if !NeedsDetails(movie, rule) then st
    else
      var idx := FindById(st.store, movie.id);
      var merged := MergeDetails(st.store[idx], lookup(movie.title), rule);
      State(st.store[idx := merged.movie], st.counts.Tally(merged.fills))
  }

  /** A turn only fills in. */
  lemma StepKeepsPresent(st: State, p: nat, lookup: string -> Details, rule: PosterRule)
    requires p < |st.store|
    ensures forall i :: 0 <= i < |st.store| ==> KeepsPresent(st.store[i], Step(st, p, lookup, rule).store[i], rule)
  {
    var movie := st.store[p];
    if NeedsDetails(movie, rule) {
      var idx := FindById(st.store, movie.id);
      MergeWrites(st.store[idx], lookup(movie.title), rule);
    }
  }

  /** The selected records' turns, in order. */
  function Run(st: State, sel: seq<nat>, lookup: string -> Details, rule: PosterRule): (r: State)
    requires forall j :: 0 <= j < |sel| ==> sel[j] < |st.store|
    ensures |r.store| == |st.store|
    decreases |sel|
  {
    if |sel| == 0 then st else Run(Step(st, sel[0], lookup, rule), sel[1..], lookup, rule)
  }

  /** Running two parts one after the other is running their concatenation:
      the batch boundaries do not matter to the result. */
  lemma {:induction false} RunAppend(st: State, a: seq<nat>, b: seq<nat>, lookup: string -> Details, rule: PosterRule)
    requires forall j :: 0 <= j < |a| ==> a[j] < |st.store|
    requires forall j :: 0 <= j < |b| ==> b[j] < |st.store|
    ensures Run(st, a + b, lookup, rule) == Run(Run(st, a, lookup, rule), b, lookup, rule)
    decreases |a|
  {
    if |a| == 0 {
      assert a + b == b;
    } else {
      assert (a + b)[0] == a[0];
      assert (a + b)[1..] == a[1..] + b;
      RunAppend(Step(st, a[0], lookup, rule), a[1..], b, lookup, rule);
    }
  }

  /** Whatever the ids, the back-fill only fills in: every record keeps all
      its other fields and every detail it had. */
  lemma {:induction false} RunKeepsPresent(st0: State, st: State, sel: seq<nat>, lookup: string -> Details, rule: PosterRule)
    requires |st.store| == |st0.store|
    requires forall j :: 0 <= j < |sel| ==> sel[j] < |st.store|
    requires forall i :: 0 <= i < |st.store| ==> KeepsPresent(st0.store[i], st.store[i], rule)
    ensures forall i :: 0 <= i < |st.store| ==> KeepsPresent(st0.store[i], Run(st, sel, lookup, rule).store[i], rule)
    decreases |sel|
  {
    if |sel| > 0 {
      var next := Step(st, sel[0], lookup, rule);
      StepKeepsPresent(st, sel[0], lookup, rule);
      forall i | 0 <= i < |st.store|
        ensures KeepsPresent(st0.store[i], next.store[i], rule)
      {
        KeepsPresentTransitive(st0.store[i], st.store[i], next.store[i], rule);
      }
      RunKeepsPresent(st0, next, sel[1..], lookup, rule);
    }
  }

  // ---------------------------------------------------------------------
  // The result when ids are unique

  /** What the back-fill does to one record when no other record shares its
      id: merge the lookup of its title if it misses a detail. */
  function Filled(m: Movie, lookup: string -> Details, rule: PosterRule): (r: Merged)
    ensures !NeedsDetails(m, rule) ==> r == Merged(m, NoFills)
  {
    if NeedsDetails(m, rule) then MergeDetails(m, lookup(m.title), rule) else Merged(m, NoFills)
  }

  /** The store with every record from position `k` on filled. */
  function FillFrom(s: seq<Movie>, k: nat, lookup: string -> Details, rule: PosterRule): (r: seq<Movie>)
    requires k <= |s|
    ensures |r| == |s|
    decreases |s| - k
  {
    if k == |s| then s else FillFrom(s[k := Filled(s[k], lookup, rule).movie], k + 1, lookup, rule)
  }

  /** Position by position: the records before `k` as they were, the
      records from `k` on filled. */
  lemma {:induction false} FillFromAt(s: seq<Movie>, k: nat, lookup: string -> Details, rule: PosterRule)
    requires k <= |s|
    ensures forall i :: 0 <= i < |s| ==>
      FillFrom(s, k, lookup, rule)[i] == if i < k then s[i] else Filled(s[i], lookup, rule).movie
    decreases |s| - k
  {
    if k < |s| {
      FillFromAt(s[k := Filled(s[k], lookup, rule).movie], k + 1, lookup, rule);
    }
  }

  /** The counters after the records from position `k` on were counted, in
      order, on top of `c`. */
  function TallyFrom(c: Counts, s: seq<Movie>, k: nat, lookup: string -> Details, rule: PosterRule): Counts
    requires k <= |s|
    decreases |s| - k
  {
    if k == |s| then c else TallyFrom(c.Tally(Filled(s[k], lookup, rule).fills), s, k + 1, lookup, rule)
  }

  /** No field was counted more often than records were updated. */
  predicate CountsConsistent(c: Counts) {
    c.poster <= c.movies && c.director <= c.movies && c.year <= c.movies && c.country <= c.movies
  }

  /** Counting the records from `k` on keeps the counters consistent and
      adds at most one updated record per selected record. */
  lemma {:induction false} TallyFromBounds(c: Counts, s: seq<Movie>, k: nat, lookup: string -> Details, rule: PosterRule)
    requires k <= |s| && CountsConsistent(c)
    ensures CountsConsistent(TallyFrom(c, s, k, lookup, rule))
    ensures c.movies <= TallyFrom(c, s, k, lookup, rule).movies <= c.movies + |Needing(s, k, rule)|
    decreases |s| - k
  {
    if k < |s| {
      var f := Filled(s[k], lookup, rule).fills;
      TallyFromBounds(c.Tally(f), s, k + 1, lookup, rule);
    }
  }

  /** The selection from `k` on depends only on the records from `k` on. */
  lemma {:induction false} NeedingSuffix(s: seq<Movie>, t: seq<Movie>, k: nat, rule: PosterRule)
    requires |s| == |t| && k <= |s|
    requires forall i :: k <= i < |s| ==> s[i] == t[i]
    ensures Needing(s, k, rule) == Needing(t, k, rule)
    decreases |s| - k
  {
    if k < |s| {
      NeedingSuffix(s, t, k + 1, rule);
    }
  }

  /** So does the count from `k` on. */
  lemma {:induction false} TallySuffix(c: Counts, s: seq<Movie>, t: seq<Movie>, k: nat, lookup: string -> Details, rule: PosterRule)
    requires |s| == |t| && k <= |s|
    requires forall i :: k <= i < |s| ==> s[i] == t[i]
    ensures TallyFrom(c, s, k, lookup, rule) == TallyFrom(c, t, k, lookup, rule)
    decreases |s| - k
  {
    if k < |s| {
      TallySuffix(c.Tally(Filled(s[k], lookup, rule).fills), s, t, k + 1, lookup, rule);
    }
  }

  /** With unique ids the record found by id is the record itself, so a turn
      fills exactly that record. */
  lemma StepUnique(st: State, p: nat, lookup: string -> Details, rule: PosterRule)
    requires UniqueIds(st.store) && p < |st.store|
    ensures Step(st, p, lookup, rule)
      == State(st.store[p := Filled(st.store[p], lookup, rule).movie], st.counts.Tally(Filled(st.store[p], lookup, rule).fills))
  {
    if NeedsDetails(st.store[p], rule) {
      var idx := FindById(st.store, st.store[p].id);
      assert idx == p;
    }
  }

  /** What the turns of the records selected from `k` on amount to. */
  predicate RunsToFill(st: State, k: nat, lookup: string -> Details, rule: PosterRule)
    requires k <= |st.store|
  {
    Run(st, Needing(st.store, k, rule), lookup, rule)
      == State(FillFrom(st.store, k, lookup, rule), TallyFrom(st.counts, st.store, k, lookup, rule))
  }

  /** With unique ids, the turns of the records selected from `k` on fill
      each of those records and count their fills, in order. */
  lemma {:induction false} RunNeeding(st: State, k: nat, lookup: string -> Details, rule: PosterRule)
    requires UniqueIds(st.store) && k <= |st.store|
    ensures RunsToFill(st, k, lookup, rule)
    decreases |st.store| - k
  {
    var s := st.store;
    if k < |s| {
      var f := Filled(s[k], lookup, rule);
      var next := State(s[k := f.movie], st.counts.Tally(f.fills));
      UniqueIdsKept(s, k, f.movie);
      RunNeeding(next, k + 1, lookup, rule);
      RunNeedingStep(st, next, k, lookup, rule);
    }
  }

  /** The step of `RunNeeding`: from the turns after position `k` to the
      turns from `k`. */
  lemma RunNeedingStep(st: State, next: State, k: nat, lookup: string -> Details, rule: PosterRule)
    requires UniqueIds(st.store) && k < |st.store|
    requires next == State(st.store[k := Filled(st.store[k], lookup, rule).movie],
                           st.counts.Tally(Filled(st.store[k], lookup, rule).fills))
    requires RunsToFill(next, k + 1, lookup, rule)
    ensures RunsToFill(st, k, lookup, rule)
  {
    if NeedsDetails(st.store[k], rule) {
      RunNeedingFill(st, next, k, lookup, rule);
    } else {
      assert next == st by {
        assert st.store[k := st.store[k]] == st.store;
      }
      RunNeedingSkip(st, k, lookup, rule);
    }
  }

  /** Replacing a record by one with the same id keeps the ids unique. */
  lemma UniqueIdsKept(s: seq<Movie>, k: nat, m: Movie)
    requires UniqueIds(s) && k < |s| && m.id == s[k].id
    ensures UniqueIds(s[k := m])
  {
    assert forall i :: 0 <= i < |s| ==> s[k := m][i].id == s[i].id;
  }

  /** The step of `RunNeeding` at a record that misses a detail. */
  lemma RunNeedingFill(st: State, next: State, k: nat, lookup: string -> Details, rule: PosterRule)
    requires UniqueIds(st.store) && k < |st.store| && NeedsDetails(st.store[k], rule)
    requires next == State(st.store[k := Filled(st.store[k], lookup, rule).movie],
                           st.counts.Tally(Filled(st.store[k], lookup, rule).fills))
    requires RunsToFill(next, k + 1, lookup, rule)
    ensures RunsToFill(st, k, lookup, rule)
  {
    var s := st.store;
    StepUnique(st, k, lookup, rule);
    var sel := Needing(s, k, rule);
    assert sel == [k] + Needing(s, k + 1, rule);
    assert Run(st, sel, lookup, rule) == Run(next, Needing(s, k + 1, rule), lookup, rule) by {
      assert sel[0] == k && sel[1..] == Needing(s, k + 1, rule);
    }
    NeedingSuffix(next.store, s, k + 1, rule);
    TallySuffix(next.counts, next.store, s, k + 1, lookup, rule);
  }

  /** The step of `RunNeeding` at a complete record. */
  lemma RunNeedingSkip(st: State, k: nat, lookup: string -> Details, rule: PosterRule)
    requires k < |st.store| && !NeedsDetails(st.store[k], rule)
    requires RunsToFill(st, k + 1, lookup, rule)
    ensures RunsToFill(st, k, lookup, rule)
  {
    SkipComplete(st.counts, st.store, k, lookup, rule);
  }

  /** A complete record is neither selected, filled nor counted. */
  lemma SkipComplete(c: Counts, s: seq<Movie>, k: nat, lookup: string -> Details, rule: PosterRule)
    requires k < |s| && !NeedsDetails(s[k], rule)
    ensures Needing(s, k, rule) == Needing(s, k + 1, rule)
    ensures FillFrom(s, k, lookup, rule) == FillFrom(s, k + 1, lookup, rule)
    ensures TallyFrom(c, s, k, lookup, rule) == TallyFrom(c, s, k + 1, lookup, rule)
  {
    var f := Filled(s[k], lookup, rule);
    assert s[k := f.movie] == s;
    assert c.Tally(f.fills) == c;
  }

  // ---------------------------------------------------------------------
  // The operation

  /** How a back-fill ends: no key stored, nothing to update, or the updated
      store with the counters and the number of pauses taken. */
  datatype Outcome =
    | NoApiKey
    | NothingToUpdate
    | Updated(store: seq<Movie>, counts: Counts, pauses: nat)

  /** Taking one more batch of the selection's turns. */
  lemma RunPrefix(start: State, selection: seq<nat>, i: nat, end: nat, lookup: string -> Details, rule: PosterRule)
    requires i <= end <= |selection|
    requires forall j :: 0 <= j < |selection| ==> selection[j] < |start.store|
    ensures Run(start, selection[..end], lookup, rule)
      == Run(Run(start, selection[..i], lookup, rule), selection[i..end], lookup, rule)
  {
    assert selection[..end] == selection[..i] + selection[i..end];
    RunAppend(start, selection[..i], selection[i..end], lookup, rule);
  }

  /** The slices from position `i` start with the batch that ends at `end`. */
  lemma SlicesFrom<T>(s: seq<T>, i: nat, end: nat)
    requires i < |s| && end == (if i + BatchSize < |s| then i + BatchSize else |s|)
    ensures end < |s| ==> Slices(s[i..]) == [s[i..end]] + Slices(s[end..])
    ensures end == |s| ==> Slices(s[i..]) == [s[i..end]] + Slices(s[end..])
  {
    if end < |s| {
      assert s[i..][..BatchSize] == s[i..end];
      assert s[i..][BatchSize..] == s[end..];
    } else {
      assert s[i..] == s[i..end];
      assert s[end..] == [];
    }
  }

  /** One round of the batch loop keeps its account of what was done. */
  lemma BatchTaken(start: State, selection: seq<nat>, batches: seq<seq<nat>>, st: State,
                   i: nat, end: nat, lookup: string -> Details, rule: PosterRule)
    requires i < |selection| && end == (if i + BatchSize < |selection| then i + BatchSize else |selection|)
    requires forall j :: 0 <= j < |selection| ==> selection[j] < |start.store|
    requires batches + Slices(selection[i..]) == Slices(selection)
    requires st == Run(start, selection[..i], lookup, rule)
    ensures |st.store| == |start.store|
    ensures (batches + [selection[i..end]]) + Slices(selection[end..]) == Slices(selection)
    ensures Run(st, selection[i..end], lookup, rule) == Run(start, selection[..end], lookup, rule)
  {
    RunPrefix(start, selection, i, end, lookup, rule);
    SlicesFrom(selection, i, end);
    assert (batches + [selection[i..end]]) + Slices(selection[end..])
      == batches + ([selection[i..end]] + Slices(selection[end..]));
  }

  /** The batch loop: the selection cut into consecutive batches, each
      batch's turns taken in order, with a pause after every batch but the
      last. */
  method RunBatches(start: State, selection: seq<nat>, lookup: string -> Details, rule: PosterRule)
    returns (st: State, pauses: nat, batches: seq<seq<nat>>)
    requires |selection| > 0
    requires forall j :: 0 <= j < |selection| ==> selection[j] < |start.store|
    ensures batches == Slices(selection)
    ensures pauses == |batches| - 1
    ensures st == Run(start, selection, lookup, rule)
  {
    st := start;
    pauses := 0;
    batches := [];
    var i := 0;
    ghost var done := 0;
    while i < |selection|
      invariant done == (if i < |selection| then i else |selection|)
      invariant i == BatchSize * |batches|
      invariant batches + Slices(selection[done..]) == Slices(selection)
      invariant pauses == if done < |selection| then |batches| else |batches| - 1
      invariant st == Run(start, selection[..done], lookup, rule)
    {
      var end := if i + BatchSize < |selection| then i + BatchSize else |selection|;
      var batch := selection[i..end];
      BatchTaken(start, selection, batches, st, i, end, lookup, rule);
      st := Run(st, batch, lookup, rule);
      if i + BatchSize < |selection| {
        pauses := pauses + 1;
      }
      batches := batches + [batch];
      i := i + BatchSize;
      done := end;
    }
    assert selection[done..] == [];
    assert selection[..|selection|] == selection;
  }

  /** What the turns of the whole selection do to the store: whatever the
      ids, they only fill in; with unique ids, they fill every incomplete
      record with the lookup of its own title and count those fills. */
  lemma RunSelection(store: seq<Movie>, lookup: string -> Details, rule: PosterRule)
    ensures var r := Run(State(store, ZeroCounts), Selection(store, rule), lookup, rule);
      && |r.store| == |store|
      && (forall i :: 0 <= i < |store| ==> KeepsPresent(store[i], r.store[i], rule))
      && (UniqueIds(store) ==>
            && (forall i :: 0 <= i < |store| ==> r.store[i] == Filled(store[i], lookup, rule).movie)
            && r.counts == TallyFrom(ZeroCounts, store, 0, lookup, rule))
  {
    var start := State(store, ZeroCounts);
    RunKeepsPresent(start, start, Selection(store, rule), lookup, rule);
    if UniqueIds(store) {
      RunNeeding(start, 0, lookup, rule);
      FillFromAt(store, 0, lookup, rule);
    }
  }

  /** `fetchAllMissingDetails` with the stored key `apiKey`, counting the
      poster `placeholder` as missing (the source's is `DefaultPosterUrl`).
      `batches` are the batches in the order they were processed; the store
      of an `Updated` outcome is the one written back. */
  method FetchAllMissing(store: seq<Movie>, apiKey: string, lookup: string -> Details, placeholder: string)
    returns (outcome: Outcome, batches: seq<seq<nat>>)
    ensures outcome.NoApiKey? <==> apiKey == ""
    ensures outcome.NothingToUpdate? <==>
      apiKey != "" && forall i :: 0 <= i < |store| ==> !NeedsDetails(store[i], AlsoPlaceholder(placeholder))
    ensures !outcome.Updated? ==> batches == []
    ensures outcome.Updated? ==>
      && batches == Slices(Selection(store, AlsoPlaceholder(placeholder)))
      && Concat(batches) == Selection(store, AlsoPlaceholder(placeholder))
      && outcome.pauses == |batches| - 1
      && |outcome.store| == |store|
      && (forall i :: 0 <= i < |store| ==> KeepsPresent(store[i], outcome.store[i], AlsoPlaceholder(placeholder)))
    ensures outcome.Updated? && UniqueIds(store) ==>
      && (forall i :: 0 <= i < |store| ==> outcome.store[i] == Filled(store[i], lookup, AlsoPlaceholder(placeholder)).movie)
      && outcome.counts == TallyFrom(ZeroCounts, store, 0, lookup, AlsoPlaceholder(placeholder))
      && CountsConsistent(outcome.counts)
      && outcome.counts.movies <= |Selection(store, AlsoPlaceholder(placeholder))|
  {
    if apiKey == "" {
      return NoApiKey, [];
    }
    var selection := Selection(store, AlsoPlaceholder(placeholder));
    NeedingMembers(store, 0, AlsoPlaceholder(placeholder));
    if |selection| == 0 {
      forall i | 0 <= i < |store|
        ensures !NeedsDetails(store[i], AlsoPlaceholder(placeholder))
      {
        assert i !in selection;
      }
      return NothingToUpdate, [];
    }
    assert selection[0] in selection;
    var st, pauses;
    st, pauses, batches := RunBatches(State(store, ZeroCounts), selection, lookup, AlsoPlaceholder(placeholder));
    SlicesConcat(selection);
    RunSelection(store, lookup, AlsoPlaceholder(placeholder));
    TallyFromBounds(ZeroCounts, store, 0, lookup, AlsoPlaceholder(placeholder));
    outcome := Updated(st.store, st.counts, pauses);
  }
}
