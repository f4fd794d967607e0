/**
 * The movie record, the detail record a metadata lookup returns, and the
 * constants and predicates the rest of the collection code shares.
 *
 * Absent values follow JavaScript truthiness as the source uses it: an empty
 * string stands for `""`, `null` and `undefined` alike, and a `year` of 0
 * stands for `null` (every `|| null` in the source turns 0 into `null`).
 */
module Movies {
  import opened Wrappers

  /** The base the provider's poster path is appended to. */
  const PosterBaseUrl: string := "https://image.tmdb.org/t/p/w500"

  /** The inline placeholder image shown for a record without a poster. */
  const DefaultPosterUrl: string := "data:image/svg+xml;base64," + PlaceholderSvgBase64

  /** The base64 text of the placeholder's SVG drawing. */
  const PlaceholderSvgBase64: string := "PHN2ZyB4bWxucz0iaHR0cDovL3d3dy53My5vcmcvMjAwMC9zdmciIHdpZHRoPSIyMDAiIGhlaWdodD0iMjAwIiB2aWV3Qm94PSIwIDAgMjQgMjQiIGZpbGw9IiNFNkYyRkYiIHN0cm9rZT0iIzRhNGI2ZSIgc3Ryb2tlLXdpZHRoPSIxIj48cmVjdCB3aWR0aD0iMTgiIGhlaWdodD0iMTgiIHg9IjMiIHk9IjMiIHJ4PSIyIiByeT0iMiIgc3Ryb2tlPSIjOWVhNmJjIiBmaWxsPSIjMmEyYjQ1Ii8+PHBhdGggZD0iTTMgMTJsNi02IDYgNi0zIDMiIGZpbGw9Im5vbmUiIHN0cm9rZS1saW5lY2FwPSJyb3VuZCIgc3Ryb2tlLWxpbmVqb2luPSJyb3VuZCIgc3Ryb2tlPSIjOWVhNmJjIi8+PGNpcmNsZSBjeD0iOSIgY3k9IjkiIHI9IjEiIGZpbGw9IiM5ZWE2YmMiLz48dGV4dCB4PSI1MHUiIHk9IjcwJSIgZm9udC1mYW1pbHk9InNhbnMtc2VyaWYiIGZvbnQtc2l6ZT0iMTZweCIgZmlsbD0iI2U2ZjJmZiIgdGV4dC1hbmNob3I9Im1pZGRsZSI+Tm8gSW1hZ2U8L3RleHQ+PC9zdmc+"

  /** One entry of the collection. `id` is the string form of the record's
      numeric id (the store operations compare ids through `String(...)`);
      `rating` is the text of the numeric score, kept opaque. */
  datatype Movie = Movie(
    id: string,
    title: string,
    rating: string,
    ratingDate: string,
    review: string,
    year: int,
    country: string,
    link: string,
    director: string,
    coverUrl: string,
    createdAt: string,
    updatedAt: string)

  /** What a metadata lookup found for a title; every field may be absent. */
  datatype Details = Details(posterUrl: string, director: string, year: int, country: string)

  /** The lookup result when nothing was found or the lookup failed. */
  const NoDetails: Details := Details("", "", 0, "")

  /** The browser services the collection code calls, passed in: `dateOf`
      is `new Date(s).getTime()` (`None` for an invalid date), `parseRating`
      renders `parseFloat(s) || null` as text (`""` for null), `freshId(k)`
      is the id given to the `k`-th new record of an operation, and `now` is
      the `toISOString()` timestamp of the operation. */
  datatype Env = Env(
    dateOf: string -> Option<int>,
    parseRating: string -> string,
    freshId: nat -> string,
    now: string)

  /** Which poster addresses count as missing: the empty one only (the
      import and the add form), or also a placeholder image (the back-fill,
      with `DefaultPosterUrl`). */
  datatype PosterRule = EmptyOnly | AlsoPlaceholder(placeholder: string)

  /** The poster counts as missing under `rule`. */
  predicate PosterMissing(m: Movie, rule: PosterRule) {
    m.coverUrl == "" || (rule.AlsoPlaceholder? && m.coverUrl == rule.placeholder)
  }

  /** At least one of the four fields a lookup can supply is missing. */
  predicate NeedsDetails(m: Movie, rule: PosterRule) {
    PosterMissing(m, rule) || m.director == "" || m.year == 0 || m.country == ""
  }

  /** No two records of the store share an id. */
  predicate UniqueIds(store: seq<Movie>) {
    forall i, j :: 0 <= i < j < |store| ==> store[i].id != store[j].id
  }

  /** `findIndex` by id: the first position holding a record with that id, or -1. */
  function FindById(store: seq<Movie>, id: string): (r: int)
    ensures -1 <= r < |store|
    ensures r == -1 <==> forall i :: 0 <= i < |store| ==> store[i].id != id
    ensures r >= 0 ==> store[r].id == id && forall i :: 0 <= i < r ==> store[i].id != id
  {
    if |store| == 0 then -1
    else if store[0].id == id then 0
    else
      var r := FindById(store[1..], id);
      if r == -1 then -1 else r + 1
  }
}
