/**
 * `fetchMovieDetailsFromTmdb`: the lookup of a title's poster, directors,
 * release year and production country at the metadata provider. The two HTTP
 * requests are parameters (the search by title and the details by id), each
 * answering with an already decoded reply; what is modelled is which reply
 * leads to which result and how the result is extracted.
 */
module Tmdb {
  import opened Wrappers
  import opened Text
  import opened Movies
  import opened Enrich

  /** An entry of `production_countries`. */
  datatype Country = Country(iso: string, name: string)

  /** An entry of `credits.crew`. */
  datatype CrewMember = CrewMember(job: string, name: string)

  /** The search reply: a failure (the request failed, its status was not OK
      or its body could not be read), or the ids of the results in order,
      where 0 stands for a result without an id. A reply without a results
      list is `SearchResults([])`. */
  datatype SearchReply = SearchFailed | SearchResults(ids: seq<int>)

  /** The details reply: a failure, or the fields the extraction reads, `""`
      and `[]` standing for absent ones. */
  datatype DetailsReply =
    | DetailsFailed
    | DetailsBody(posterPath: string, releaseDate: string, countries: seq<Country>, crew: seq<CrewMember>)

  /** `find` by country code: the first position with that code. */
  function FirstWithIso(cs: seq<Country>, iso: string): (r: Option<nat>)
    ensures r.None? <==> forall i :: 0 <= i < |cs| ==> cs[i].iso != iso
    ensures r.Some? ==> r.value < |cs| && cs[r.value].iso == iso
    ensures r.Some? ==> forall i :: 0 <= i < r.value ==> cs[i].iso != iso
  {
    if |cs| == 0 then None
    else if cs[0].iso == iso then Some(0)
    else
      match FirstWithIso(cs[1..], iso)
      case None => None
      case Some(i) => Some(i + 1)
  }

  /** The production country reported: the first Chinese entry, else the
      first American one, else the first entry. */
  function PickCountry(cs: seq<Country>): (r: Country)
    requires |cs| > 0
    ensures r in cs
    ensures (exists i :: 0 <= i < |cs| && cs[i].iso == "CN") ==> r.iso == "CN"
    ensures (forall i :: 0 <= i < |cs| ==> cs[i].iso != "CN") && (exists i :: 0 <= i < |cs| && cs[i].iso == "US")
      ==> r.iso == "US"
    ensures (forall i :: 0 <= i < |cs| ==> cs[i].iso != "CN" && cs[i].iso != "US") ==> r == cs[0]
  {
    match FirstWithIso(cs, "CN")
    case Some(i) => cs[i]
    case None =>
      match FirstWithIso(cs, "US")
      case Some(i) => cs[i]
      case None => cs[0]
  }

  /** The names of the crew members whose job is `Director`, in crew order. */
  function Directors(crew: seq<CrewMember>): (r: seq<string>)
    ensures |r| <= |crew|
  {
    if |crew| == 0 then []
    else (if crew[0].job == "Director" then [crew[0].name] else []) + Directors(crew[1..])
  }

  /** A name is listed exactly when some crew member with that name has the
      job `Director`. */
  lemma {:induction false} DirectorsMembers(crew: seq<CrewMember>)
    ensures forall n :: n in Directors(crew) <==> exists c :: c in crew && c.job == "Director" && c.name == n
  {
    if |crew| > 0 {
      DirectorsMembers(crew[1..]);
      assert forall c :: c in crew <==> c == crew[0] || c in crew[1..];
    }
  }

  /** The directors of a crew list are found member by member: those of a
      concatenation are those of each part, in order. */
  lemma {:induction false} DirectorsAppend(a: seq<CrewMember>, b: seq<CrewMember>)
    ensures Directors(a + b) == Directors(a) + Directors(b)
  {
    if |a| == 0 {
      assert a + b == b;
    } else {
      assert (a + b)[1..] == a[1..] + b;
      DirectorsAppend(a[1..], b);
    }
  }

  /** One crew member contributes its name exactly when it is a director. */
  lemma DirectorsSingle(c: CrewMember)
    ensures Directors([c]) == (if c.job == "Director" then [c.name] else [])
  {
    assert [c][1..] == [];
  }

  /** `parseInt` of the first four characters of the release date, where
      `NaN` and 0 both give no year. */
  function ReleaseYear(date: string): int {
    JsParseInt(if |date| <= 4 then date else date[..4]).GetOr(0)
  }

  /** A release date that starts with four digits gives the year they
      denote. */
  lemma ReleaseYearOfDate(date: string)
    requires |date| >= 4 && AllDigits(date[..4])
    ensures ReleaseYear(date) == RadixValue(date[..4], 10) as int
  {
    assert |date| == 4 ==> date == date[..4];
    JsParseIntOfNumeral(date[..4]);
  }

  /** What a details reply yields: the poster's full address, the release
      year, the reported country's name and the directors joined by `", "`;
      each is absent when the reply lacks it. */
  function Extract(posterPath: string, releaseDate: string, countries: seq<Country>, crew: seq<CrewMember>): (r: Details)
    ensures r.posterUrl == "" <==> posterPath == ""
    ensures posterPath != "" ==> r.posterUrl == PosterBaseUrl + posterPath
    ensures releaseDate == "" ==> r.year == 0
    ensures releaseDate != "" ==> r.year == ReleaseYear(releaseDate)
    ensures r.country != "" ==> exists i :: 0 <= i < |countries| && countries[i].name == r.country
    ensures |countries| > 0 ==> r.country == PickCountry(countries).name
    ensures |Directors(crew)| == 0 ==> r.director == ""
    ensures |Directors(crew)| > 0 ==> r.director == Join(Directors(crew), ", ")
  {
    var ds := Directors(crew);
    Details(
      posterUrl := if posterPath != "" then PosterBaseUrl + posterPath else "",
      director := if |ds| > 0 then Join(ds, ", ") else "",
      year := if releaseDate != "" then ReleaseYear(releaseDate) else 0,
      country := if |countries| > 0 then PickCountry(countries).name else "")
  }

  /** `fetchMovieDetailsFromTmdb(title)` with the stored key `apiKey`: no key
      or no title, a failed search, no results, a first result without an id
      and a failed details request all give the empty result; otherwise the
      details of the first result are extracted. */
  function FetchDetails(apiKey: string, title: string, search: string -> SearchReply, details: int -> DetailsReply): (r: Details)
    ensures apiKey == "" || title == "" ==> r == NoDetails
    ensures search(title).SearchFailed? ==> r == NoDetails
    ensures search(title).SearchResults? && |search(title).ids| == 0 ==> r == NoDetails
    ensures r != NoDetails ==>
      && apiKey != "" && title != ""
      && search(title).SearchResults? && |search(title).ids| > 0
      && search(title).ids[0] != 0
      && details(search(title).ids[0]).DetailsBody?
  {
    if apiKey == "" || title == "" then NoDetails
    else
      match search(title)
      case SearchFailed => NoDetails
      case SearchResults(ids) =>
        if |ids| == 0 || ids[0] == 0 then NoDetails
        else
          match details(ids[0])
          case DetailsFailed => NoDetails
          case DetailsBody(path, date, countries, crew) => Extract(path, date, countries, crew)
  }

  /** A successful lookup is the extraction of the first result's details. */
  lemma FetchUsesFirstResult(apiKey: string, title: string, search: string -> SearchReply, details: int -> DetailsReply)
    requires apiKey != "" && title != ""
    requires search(title).SearchResults? && |search(title).ids| > 0 && search(title).ids[0] != 0
    requires details(search(title).ids[0]).DetailsBody?
    ensures var b := details(search(title).ids[0]);
      FetchDetails(apiKey, title, search, details) == Extract(b.posterPath, b.releaseDate, b.countries, b.crew)
  {
  }

  /** A lookup result merged a second time by the back-fill, which counts
      the placeholder image as a missing poster, changes nothing: a
      looked-up poster starts with the `https` base address and the
      placeholder is a `data:` address, so a poster written by the first
      merge is never taken for missing by the second. */
  lemma BackfillMergeOfLookupIdempotent(m: Movie, apiKey: string, title: string,
                                        search: string -> SearchReply, details: int -> DetailsReply)
    ensures var d := FetchDetails(apiKey, title, search, details);
      var once := MergeDetails(m, d, AlsoPlaceholder(DefaultPosterUrl));
      MergeDetails(once.movie, d, AlsoPlaceholder(DefaultPosterUrl)) == Merged(once.movie, NoFills)
  {
    var d := FetchDetails(apiKey, title, search, details);
    assert DefaultPosterUrl[0] == 'd';
    if d.posterUrl != "" {
      assert d.posterUrl[0] == 'h';
    }
    MergeIdempotent(m, d, AlsoPlaceholder(DefaultPosterUrl));
  }
}
