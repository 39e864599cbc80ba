/** The persistent entities: a movie record with its ratings, and the
    lightweight search summary the provider returns. */
module Entities {
  import opened Common

  /** One rating of a movie; both texts are opaque and may be null. */
  datatype Rating = Rating(source: Option<string>, value: Option<string>)

  /** A movie record. The surrogate key is not modelled: a record is
      identified by its position in the store. */
  datatype Movie = Movie(
    imdbID: Option<string>,
    title: Option<string>,
    releaseYear: Option<string>,
    genre: Option<string>,
    plot: Option<string>,
    ratings: Option<seq<Rating>>,
    awards: Option<string>,
    isUpdated: bool,
    isDeleted: bool,
    previousTitle: Option<string>)

  /** `new Movie()`: every reference null, both flags false. */
  const NewMovie: Movie := Movie(None, None, None, None, None, None, None, false, false, None)

  /** One search hit of the provider: ID, title and plot. */
  datatype QueryResults = QueryResults(imdbID: Option<string>, title: Option<string>, plot: Option<string>)

  /** What the store holds after `save(m)`: the ratings collection of a
      stored record is never null, so a record saved without one reads back
      with an empty list. No other field changes. */
  function Persisted(m: Movie): (r: Movie)
    ensures r.ratings.Some?
    ensures r.(ratings := m.ratings) == m
    ensures m.ratings.Some? ==> r == m
    ensures m.ratings.None? ==> r.ratings == Some([])
  {
    if m.ratings.None? then m.(ratings := Some([])) else m
  }
}
