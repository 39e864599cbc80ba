/** Sequences of service calls a client makes, with what the service
    guarantees about the second call given the first. */
module Scenarios {
  import opened Common
  import opened Text
  import opened Entities
  import opened Repository
  import opened Omdb
  import opened Service

  /** Enabling the same title twice: the second call is refused, and leaves
      the store as the first call left it. */
  method EnableTwice(s: OmdbService, title: string) returns (first: Result<Movie>, second: Result<Movie>)
    requires s.Valid()
    modifies s
    ensures first.Ok? ==> second == Err(if title == [] then EmptyValue else NotFound)
    ensures first.Err? ==> s.movies == old(s.movies)
  {
    ghost var d := FindByTitleIgnoreCaseAndIsDeletedTrue(s.movies, title);
    first := s.EnableMovie(title);
    if first.Ok? {
      assert !s.movies[d.value].isDeleted && TitleMatches(s.movies[d.value], title);
    }
    ghost var afterFirst := s.movies;
    second := s.EnableMovie(title);
    if first.Err? {
      assert afterFirst == old(s.movies);
    }
  }

  /** Deleting the same ID twice: once the first call has left a deleted
      record under that ID, the second is refused and changes nothing. */
  method DeleteTwice(s: OmdbService, imdbID: string, p: Provider) returns (first: Result<Movie>, second: Result<Movie>)
    requires s.Valid()
    modifies s
    ensures first.Ok? && first.value.imdbID == Some(imdbID) ==> second == Err(NotFound)
  {
    ghost var before := s.movies;
    first := s.DeleteMovieByImdbID(imdbID, p);
    ghost var afterFirst := s.movies;
    if first.Ok? && first.value.imdbID == Some(imdbID) {
      var active := FindByImdbIDAndIsDeletedFalse(before, imdbID);
      if active.Some? {
        assert afterFirst[active.value].isDeleted && afterFirst[active.value].imdbID == Some(imdbID);
      } else {
        assert afterFirst[|before|].isDeleted && afterFirst[|before|].imdbID == Some(imdbID);
      }
    }
    second := s.DeleteMovieByImdbID(imdbID, p);
  }

  /** A deleted record hides its title from both the lookup and the rating
      operation, even when an active record has the same title, and neither
      changes the store. */
  method DeletedTitleIsHidden(s: OmdbService, title: string, ratings: seq<Rating>, p: Provider)
    returns (lookup: Result<Movie>, rated: Result<Movie>)
    requires s.Valid() && !IsBlank(title)
    requires exists j :: 0 <= j < |s.movies| && s.movies[j].isDeleted && TitleMatches(s.movies[j], title)
    modifies s
    ensures lookup == Err(NotFound) && rated == Err(NotFound)
    ensures s.movies == old(s.movies)
  {
    var j :| 0 <= j < |s.movies| && s.movies[j].isDeleted && TitleMatches(s.movies[j], title);
    EqualsIgnoreCaseContains(s.movies[j].title.value, title);
    assert TitleContains(s.movies[j], title);
    lookup := s.GetMovieByTitle(title, p);
    rated := s.AddRating(title, ratings, p);
  }

  /** Submitting a stored active record unchanged as its own update is
      refused with NoChanges, whatever its title, and the record keeps its
      updated flag. */
  method ResubmitStoredRecord(s: OmdbService, imdbID: string, p: Provider) returns (r: Result<Movie>)
    requires s.Valid()
    requires FindByImdbIDAndIsDeletedFalse(s.movies, imdbID).Some?
    requires FindByImdbIDAndIsDeletedTrue(s.movies, imdbID).None?
    requires NonBlank(s.movies[FindByImdbIDAndIsDeletedFalse(s.movies, imdbID).value].title)
    modifies s
    ensures r == Err(NoChanges) && s.movies == old(s.movies)
  {
    var i := FindByImdbIDAndIsDeletedFalse(s.movies, imdbID).value;
    var stored := s.movies[i];
    r := s.UpdateMovieByImdbID(imdbID, stored, p);
  }
}
