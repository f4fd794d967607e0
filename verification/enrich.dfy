/**
 * Filling a record's missing details from a lookup result. The back-fill and
 * the import share the rule: a field is written only when the lookup supplied
 * a value for it and the record's own value is missing. They differ in one
 * point: the back-fill counts the placeholder poster as missing, the import
 * does not.
 */
module Enrich {
  import opened Movies

  /** Which of the four detail fields a merge wrote. */
  datatype Fills = Fills(poster: bool, director: bool, year: bool, country: bool) {
    /** At least one field was written: the record counts as updated. */
    predicate Any() {
      poster || director || year || country
    }
  }

  const NoFills: Fills := Fills(false, false, false, false)

  /** A record after a merge, with the fields the merge wrote. */
  datatype Merged = Merged(movie: Movie, fills: Fills)

  /** The four detail fields of `b` are those of `a`, or, where `f` says so,
      those of `d`; every other field of `b` is that of `a`. */
  predicate WrittenFrom(a: Movie, d: Details, f: Fills, b: Movie) {
    && b == a.(coverUrl := b.coverUrl, director := b.director, year := b.year, country := b.country)
    && b.coverUrl == (if f.poster then d.posterUrl else a.coverUrl)
    && b.director == (if f.director then d.director else a.director)
    && b.year == (if f.year then d.year else a.year)
    && b.country == (if f.country then d.country else a.country)
  }

  /** The merge of a lookup result into a record. A field is written exactly
      when the lookup supplied it and the record's field is missing; the
      poster counts as missing as `rule` says. */
  function MergeDetails(m: Movie, d: Details, rule: PosterRule): (r: Merged)
    ensures r.fills.poster <==> d.posterUrl != "" && PosterMissing(m, rule)
    ensures r.fills.director <==> d.director != "" && m.director == ""
    ensures r.fills.year <==> d.year != 0 && m.year == 0
    ensures r.fills.country <==> d.country != "" && m.country == ""
  {
    var poster := d.posterUrl != "" && PosterMissing(m, rule);
    var director := d.director != "" && m.director == "";
    var year := d.year != 0 && m.year == 0;
    var country := d.country != "" && m.country == "";
    Merged(
      m.(coverUrl := if poster then d.posterUrl else m.coverUrl,
         director := if director then d.director else m.director,
         year := if year then d.year else m.year,
         country := if country then d.country else m.country),
      Fills(poster, director, year, country))
  }

  /** `b` is `a` with at most its missing detail fields filled in: every
      field other than the four details is unchanged, and a detail that `a`
      has is kept. */
  predicate KeepsPresent(a: Movie, b: Movie, rule: PosterRule) {
    && b == a.(coverUrl := b.coverUrl, director := b.director, year := b.year, country := b.country)
    && (!PosterMissing(a, rule) ==> b.coverUrl == a.coverUrl)
    && (a.director != "" ==> b.director == a.director)
    && (a.year != 0 ==> b.year == a.year)
    && (a.country != "" ==> b.country == a.country)
  }

  /** Filling in twice is filling in: a field kept by the first step is
      present, so the second keeps it too. */
  lemma KeepsPresentTransitive(a: Movie, b: Movie, c: Movie, rule: PosterRule)
    requires KeepsPresent(a, b, rule) && KeepsPresent(b, c, rule)
    ensures KeepsPresent(a, c, rule)
  {
  }

  /** The merge writes the flagged fields from the lookup result and leaves
      everything else alone, so it only ever fills in. */
  lemma MergeWrites(m: Movie, d: Details, rule: PosterRule)
    ensures var r := MergeDetails(m, d, rule);
      WrittenFrom(m, d, r.fills, r.movie) && KeepsPresent(m, r.movie, rule)
  {
  }

  /** A record that needs nothing is left as it is and reports no fill. */
  lemma MergeComplete(m: Movie, d: Details, rule: PosterRule)
    requires !NeedsDetails(m, rule)
    ensures MergeDetails(m, d, rule) == Merged(m, NoFills)
  {
  }

  /** Merging the same result a second time writes nothing and changes
      nothing, provided the supplied poster is not itself the placeholder
      (a poster built from the provider's base address never is). */
  lemma MergeIdempotent(m: Movie, d: Details, rule: PosterRule)
    requires rule.AlsoPlaceholder? ==> d.posterUrl != rule.placeholder
    ensures var once := MergeDetails(m, d, rule);
      MergeDetails(once.movie, d, rule) == Merged(once.movie, NoFills)
  {
  }

  /** A lookup that supplied all four fields (and no placeholder poster)
      leaves the record complete. */
  lemma MergeCompletes(m: Movie, d: Details, rule: PosterRule)
    requires d.posterUrl != "" && d.director != "" && d.year != 0 && d.country != ""
    requires rule.AlsoPlaceholder? ==> d.posterUrl != rule.placeholder
    ensures !NeedsDetails(MergeDetails(m, d, rule).movie, rule)
  {
  }

  /** The two merges differ only on a record showing the placeholder poster:
      the back-fill replaces it with a supplied poster, the import keeps it. */
  lemma PlaceholderOnlyDifference(m: Movie, d: Details, placeholder: string)
    ensures m.coverUrl != placeholder ==>
      MergeDetails(m, d, AlsoPlaceholder(placeholder)) == MergeDetails(m, d, EmptyOnly)
    ensures m.coverUrl == placeholder != "" && d.posterUrl != "" ==>
      && MergeDetails(m, d, AlsoPlaceholder(placeholder)).movie.coverUrl == d.posterUrl
      && MergeDetails(m, d, EmptyOnly).movie.coverUrl == placeholder
  {
  }

  // ---------------------------------------------------------------------
  // Counters

  /** The back-fill's counters: records updated, then fills per field. */
  datatype Counts = Counts(movies: nat, poster: nat, director: nat, year: nat, country: nat) {
    /** The counters after one record's merge: each field's counter goes up
        when that field was written, `movies` when any was. */
    function Tally(f: Fills): Counts {
      Counts(
        movies + (if f.Any() then 1 else 0),
        poster + (if f.poster then 1 else 0),
        director + (if f.director then 1 else 0),
        year + (if f.year then 1 else 0),
        country + (if f.country then 1 else 0))
    }

    function Plus(c: Counts): Counts {
      Counts(movies + c.movies, poster + c.poster, director + c.director, year + c.year, country + c.country)
    }
  }

  const ZeroCounts: Counts := Counts(0, 0, 0, 0, 0)
}
