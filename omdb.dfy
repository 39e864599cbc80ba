/** The external movie-metadata provider (OMDb), seen only through its
    answers. The HTTP transport is not modelled: each endpoint is a total
    function from its query to a reply, so asking twice gives the same
    answer. */
module Omdb {
  import opened Common
  import opened Text
  import opened Entities

  /** The outcome of one HTTP call: the deserialised body (null allowed) or
      an exception thrown by the HTTP client. */
  datatype Reply<+T> = Answer(body: T) | Unreachable

  datatype Provider = Provider(
    byTitle: string -> Reply<Option<Movie>>,              // lookup by title (`t=`)
    byId: Option<string> -> Reply<Option<Movie>>,         // lookup by ID (`i=`), the ID may be null
    search: string -> Reply<Option<seq<QueryResults>>>)   // search (`s=`); None when the body or its Search list is null

  /** fetchFromOmdb: the provider's record for a title when its title is
      non-blank, nothing otherwise; a failed call is an error. */
  function FetchFromOmdb(p: Provider, title: string): (r: Result<Option<Movie>>)
    ensures r.Err? <==> p.byTitle(title).Unreachable?
    ensures r.Err? ==> r.error == ProviderError
    ensures r.Ok? && r.value.Some? ==> p.byTitle(title) == Answer(r.value) && NonBlank(r.value.value.title)
    ensures r == Ok(None) <==>
      p.byTitle(title).Answer? && (p.byTitle(title).body.None? || !NonBlank(p.byTitle(title).body.value.title))
  {
    match p.byTitle(title)
    case Unreachable => Err(ProviderError)
    case Answer(m) => if m.Some? && NonBlank(m.value.title) then Ok(m) else Ok(None)
  }

  /** fetchMovieDetails: the ID, title and plot of the provider's record for
      the hit's ID, or the hit itself when the provider has no record. */
  function FetchMovieDetails(p: Provider, hit: QueryResults): (r: Result<QueryResults>)
    ensures r.Err? <==> p.byId(hit.imdbID).Unreachable?
    ensures r.Err? ==> r.error == ProviderError
    ensures p.byId(hit.imdbID) == Answer(None) ==> r == Ok(hit)
    ensures forall m: Movie :: p.byId(hit.imdbID) == Answer(Some(m)) ==>
      r.Ok? && r.value.imdbID == m.imdbID && r.value.title == m.title && r.value.plot == m.plot
  {
    match p.byId(hit.imdbID)
    case Unreachable => Err(ProviderError)
    case Answer(None) => Ok(hit)
    case Answer(Some(m)) => Ok(QueryResults(m.imdbID, m.title, m.plot))
  }

  /** getMovieDetails: the provider's record for an ID, unchecked. */
  function GetMovieDetails(p: Provider, imdbID: Option<string>): Reply<Option<Movie>>
  {
    p.byId(imdbID)
  }
}
