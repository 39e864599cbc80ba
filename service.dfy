/** The reconciliation service: every public operation of OmdbService as a
    method of a class that holds the stored movie records. */
module Service {
  import opened Common
  import opened Text
  import opened Entities
  import opened Repository
  import opened Omdb
  import opened ImdbIds
  import opened Search

  // ---------------------------------------------------------------------------
  // Change detection

  /** Pairwise comparison of two rating lists of equal length from position i on. */
  function RatingsEqualFrom(existing: seq<Rating>, updated: seq<Rating>, i: nat): (r: bool)
    requires |existing| == |updated| && i <= |existing|
    ensures r <==> existing[i..] == updated[i..]
    decreases |existing| - i
  {
    if i == |existing| then true
    else if existing[i].source != updated[i].source || existing[i].value != updated[i].value then false
    else
      assert existing[i..] == [existing[i]] + existing[i + 1..];
      assert updated[i..] == [updated[i]] + updated[i + 1..];
      RatingsEqualFrom(existing, updated, i + 1)
  }

  /** areRatingsEquals: two nulls are equal, a null and a list are not, and
      two lists are equal when they have the same size and the same source
      and value at every position. That is plain equality of the two. */
  function AreRatingsEquals(existing: Option<seq<Rating>>, updated: Option<seq<Rating>>): (r: bool)
    ensures r <==> existing == updated
  {
    if existing.None? && updated.None? then true
    else if existing.None? || updated.None? then false
    else if |existing.value| != |updated.value| then false
    else
      assert existing.value[0..] == existing.value && updated.value[0..] == updated.value;
      RatingsEqualFrom(existing.value, updated.value, 0)
  }

  /** The part of a record that change detection looks at: every field but
      the ID, the two flags and the previous title. */
  function Compared(m: Movie): Movie
  {
    m.(imdbID := None, isUpdated := false, isDeleted := false, previousTitle := None)
  }

  /** isNoChange: the proposed record equals the stored one in title, genre,
      plot, awards, release year and ratings. */
  function IsNoChange(existing: Movie, updated: Movie): (r: bool)
    ensures r <==> Compared(existing) == Compared(updated)
  {
    existing.title == updated.title
    && existing.genre == updated.genre
    && existing.plot == updated.plot
    && existing.awards == updated.awards
    && existing.releaseYear == updated.releaseYear
    && AreRatingsEquals(existing.ratings, updated.ratings)
  }

  /** The record the provider branch of an update starts from (`new Movie()`)
      is never equal to a payload that passed the title check. */
  lemma FreshRecordIsNeverNoChange(payload: Movie)
    requires NonBlank(payload.title)
    ensures !IsNoChange(NewMovie, payload)
  {
  }

  // ---------------------------------------------------------------------------
  // Records built by the write operations

  /** The value an update's active branch writes: the proposed one when it is non-blank. */
  function KeepUnlessBlank(proposed: Option<string>, current: Option<string>): Option<string>
  {
    if NonBlank(proposed) then proposed else current
  }

  /** The value an update's provider branch and createMovie write: the proposed one when it is non-empty. */
  function PreferNonEmpty(proposed: Option<string>, base: Option<string>): Option<string>
  {
    if HasText(proposed) then proposed else base
  }

  predicate HasRatings(x: Option<seq<Rating>>)
  {
    x.Some? && x.value != []
  }

  /** The active branch of updateMovieByImdbID applied to the stored record m. */
  function ApplyUpdate(m: Movie, payload: Movie): (r: Movie)
    ensures r.imdbID == m.imdbID && r.isDeleted == m.isDeleted && r.isUpdated
    ensures r.previousTitle == if payload.previousTitle.None? then m.title else m.previousTitle
    ensures NonBlank(payload.title) ==> r.title == payload.title
    ensures !NonBlank(payload.title) ==> r.title == m.title
    ensures NonBlank(payload.genre) ==> r.genre == payload.genre
    ensures !NonBlank(payload.genre) ==> r.genre == m.genre
    ensures NonBlank(payload.plot) ==> r.plot == payload.plot
    ensures !NonBlank(payload.plot) ==> r.plot == m.plot
    ensures NonBlank(payload.awards) ==> r.awards == payload.awards
    ensures !NonBlank(payload.awards) ==> r.awards == m.awards
    ensures NonBlank(payload.releaseYear) ==> r.releaseYear == payload.releaseYear
    ensures !NonBlank(payload.releaseYear) ==> r.releaseYear == m.releaseYear
    ensures r.ratings == if HasRatings(payload.ratings) then payload.ratings else m.ratings
  {
    m.(previousTitle := if payload.previousTitle.None? then m.title else m.previousTitle,
       title := KeepUnlessBlank(payload.title, m.title),
       genre := KeepUnlessBlank(payload.genre, m.genre),
       plot := KeepUnlessBlank(payload.plot, m.plot),
       awards := KeepUnlessBlank(payload.awards, m.awards),
       releaseYear := KeepUnlessBlank(payload.releaseYear, m.releaseYear),
       ratings := if HasRatings(payload.ratings) then payload.ratings else m.ratings,
       isUpdated := true)
  }

  /** The record the provider branch of updateMovieByImdbID creates from the
      provider's record o: o's fields overlaid with the non-empty proposed ones. */
  function FromProvider(o: Movie, payload: Movie): (r: Movie)
    ensures r.imdbID == o.imdbID && r.previousTitle == o.title
    ensures r.isUpdated && !r.isDeleted
    ensures r.title == if HasText(payload.title) then payload.title else o.title
    ensures r.genre == if HasText(payload.genre) then payload.genre else o.genre
    ensures r.plot == if HasText(payload.plot) then payload.plot else o.plot
    ensures r.awards == if HasText(payload.awards) then payload.awards else o.awards
    ensures r.releaseYear == if HasText(payload.releaseYear) then payload.releaseYear else o.releaseYear
    ensures r.ratings == if HasRatings(payload.ratings) then payload.ratings else o.ratings
  {
    NewMovie.(imdbID := o.imdbID, isUpdated := true, previousTitle := o.title,
              title := PreferNonEmpty(payload.title, o.title),
              genre := PreferNonEmpty(payload.genre, o.genre),
              plot := PreferNonEmpty(payload.plot, o.plot),
              awards := PreferNonEmpty(payload.awards, o.awards),
              releaseYear := PreferNonEmpty(payload.releaseYear, o.releaseYear),
              ratings := if HasRatings(payload.ratings) then payload.ratings else o.ratings)
  }

  /** The record createMovie builds: only the non-empty input fields, a fresh ID. */
  function FromInput(input: Movie, imdbID: string): (r: Movie)
    ensures r.imdbID == Some(imdbID) && !r.isUpdated && !r.isDeleted && r.previousTitle.None?
    ensures r.title == PreferNonEmpty(input.title, None) && r.genre == PreferNonEmpty(input.genre, None)
    ensures r.plot == PreferNonEmpty(input.plot, None) && r.awards == PreferNonEmpty(input.awards, None)
    ensures r.releaseYear == PreferNonEmpty(input.releaseYear, None)
    ensures r.ratings == if HasRatings(input.ratings) then input.ratings else None
  {
    NewMovie.(title := PreferNonEmpty(input.title, None),
              plot := PreferNonEmpty(input.plot, None),
              releaseYear := PreferNonEmpty(input.releaseYear, None),
              genre := PreferNonEmpty(input.genre, None),
              awards := PreferNonEmpty(input.awards, None),
              imdbID := Some(imdbID),
              ratings := if HasRatings(input.ratings) then input.ratings else None)
  }

  /** The record deleteMovieByImdbID materialises from the provider's record:
      the same data, already deleted, never updated, no previous title. */
  function DeletedCopy(o: Movie): (r: Movie)
    ensures r.isDeleted && !r.isUpdated && r.previousTitle.None?
    ensures r.(isDeleted := o.isDeleted, isUpdated := o.isUpdated, previousTitle := o.previousTitle) == o
  {
    NewMovie.(imdbID := o.imdbID, title := o.title, genre := o.genre, plot := o.plot, awards := o.awards,
              isDeleted := true, isUpdated := false, releaseYear := o.releaseYear, previousTitle := None,
              ratings := o.ratings)
  }

  /** The record addRating materialises from the provider's record: its data
      with the supplied ratings in place of the provider's. */
  function RatedCopy(o: Movie, ratings: seq<Rating>): (r: Movie)
    ensures !r.isDeleted && !r.isUpdated && r.previousTitle.None? && r.ratings == Some(ratings)
    ensures r.(ratings := o.ratings, isDeleted := o.isDeleted, isUpdated := o.isUpdated, previousTitle := o.previousTitle) == o
  {
    NewMovie.(imdbID := o.imdbID, title := o.title, awards := o.awards, plot := o.plot, genre := o.genre,
              releaseYear := o.releaseYear, ratings := Some(ratings), isUpdated := false, isDeleted := false,
              previousTitle := None)
  }

  // ---------------------------------------------------------------------------
  // Identifier generation

  /** A random draw in range whose identifier no active record has. */
  predicate IsFreeDraw(store: seq<Movie>, n: nat)
  {
    n < 1000000 && !ExistsByImdbIDAndIsDeletedFalse(store, LocalId(n))
  }

  predicate DrawsInRange(draws: seq<nat>)
  {
    forall k :: 0 <= k < |draws| ==> draws[k] < 1000000
  }

  predicate HasFreeDraw(store: seq<Movie>, draws: seq<nat>)
  {
    exists k :: 0 <= k < |draws| && IsFreeDraw(store, draws[k])
  }

  /** Position of the first draw that is free. */
  function FirstFreeDraw(store: seq<Movie>, draws: seq<nat>): (k: nat)
    requires HasFreeDraw(store, draws)
    ensures k < |draws| && IsFreeDraw(store, draws[k])
    ensures forall j :: 0 <= j < k ==> !IsFreeDraw(store, draws[j])
  {
    if IsFreeDraw(store, draws[0]) then 0
    else
      assert HasFreeDraw(store, draws[1..]) by {
        var k :| 0 <= k < |draws| && IsFreeDraw(store, draws[k]);
        assert draws[1..][k - 1] == draws[k];
      }
      1 + FirstFreeDraw(store, draws[1..])
  }

  /** Identifiers are checked against active records only: when only deleted
      records carry the identifier of a draw, the draw counts as free and
      that identifier is minted again. */
  lemma MintedIdMayBelongToDeletedRecord(store: seq<Movie>, n: nat)
    requires n < 1000000
    requires exists j :: 0 <= j < |store| && store[j].imdbID == Some(LocalId(n))
    requires forall j :: 0 <= j < |store| && store[j].imdbID == Some(LocalId(n)) ==> store[j].isDeleted
    ensures IsFreeDraw(store, n)
    ensures HasFreeDraw(store, [n]) && LocalId([n][FirstFreeDraw(store, [n])]) == LocalId(n)
  {
    assert IsFreeDraw(store, [n][0]);
  }

  // ---------------------------------------------------------------------------
  // The checks of createMovie

  /** The provider knows a movie with this title, ignoring case. */
  predicate ProviderHasTitle(reply: Reply<Option<Movie>>, title: string)
  {
    reply.Answer? && reply.body.Some? && reply.body.value.title.Some?
    && EqualsIgnoreCase(reply.body.value.title.value, title)
  }

  /** The failure createMovie raises before writing anything, or None when it
      goes on to create the record. */
  function CreateRefusal(store: seq<Movie>, input: Movie, p: Provider): (e: Option<Error>)
    ensures e.None? <==>
      input.title.Some? && p.byTitle(input.title.value).Answer?
      && !ProviderHasTitle(p.byTitle(input.title.value), input.title.value)
      && FindByTitleIgnoreCaseAndIsDeletedFalse(store, input.title.value).None?
      && FindByTitleIgnoreCaseAndIsDeletedTrue(store, input.title.value).None?
    ensures (input.title.Some? && p.byTitle(input.title.value).Answer?
             && FindByTitleIgnoreCaseAndIsDeletedFalse(store, input.title.value).Some?) ==> e == Some(AlreadyExists)
    ensures (input.title.Some? && ProviderHasTitle(p.byTitle(input.title.value), input.title.value))
            ==> e == Some(AlreadyExists)
    ensures (input.title.Some? && p.byTitle(input.title.value).Answer?
             && !ProviderHasTitle(p.byTitle(input.title.value), input.title.value)
             && FindByTitleIgnoreCaseAndIsDeletedFalse(store, input.title.value).None?
             && FindByTitleIgnoreCaseAndIsDeletedTrue(store, input.title.value).Some?) ==> e == Some(NotFound)
    ensures e == Some(NotFound) ==>
      input.title.Some? && FindByTitleIgnoreCaseAndIsDeletedTrue(store, input.title.value).Some?
    ensures input.title.None? ==> e == Some(NullValue)
    ensures input.title.Some? && p.byTitle(input.title.value).Unreachable? ==> e == Some(ProviderError)
  {
    if input.title.None? then Some(NullValue)
    else
      var title := input.title.value;
      match p.byTitle(title)
      case Unreachable => Some(ProviderError)
      case Answer(_) =>
        if ProviderHasTitle(p.byTitle(title), title) || FindByTitleIgnoreCaseAndIsDeletedFalse(store, title).Some? then
          Some(AlreadyExists)
        else if FindByTitleIgnoreCaseAndIsDeletedTrue(store, title).Some? then Some(NotFound)
        else None
  }

  /** Creating the same non-empty title a second time is refused with
      AlreadyExists: the first creation left the only active record with that
      title. */
  lemma CreateTwiceIsRefused(store: seq<Movie>, input: Movie, p: Provider, imdbID: string)
    requires CreateRefusal(store, input, p).None?
    requires HasText(input.title)
    ensures CreateRefusal(store + [Persisted(FromInput(input, imdbID))], input, p) == Some(AlreadyExists)
    ensures var after := store + [Persisted(FromInput(input, imdbID))];
      forall j :: 0 <= j < |after| && !after[j].isDeleted && TitleMatches(after[j], input.title.value) ==> j == |store|
  {
    var created := Persisted(FromInput(input, imdbID));
    var after := store + [created];
    var title := input.title.value;
    assert created.title == input.title && !created.isDeleted;
    assert after[|store|] == created;
    assert TitleMatches(created, title);
    assert FindByTitleIgnoreCaseAndIsDeletedFalse(after, title).Some?;
  }

  // ---------------------------------------------------------------------------
  // The service

  /** The loop of addRating that adds each new rating to the record's list. */
  method AppendRatings(existing: seq<Rating>, ratings: seq<Rating>) returns (r: seq<Rating>)
    ensures r == existing + ratings
  {
    r := existing;
    var k := 0;
    while k < |ratings|
      invariant 0 <= k <= |ratings|
      invariant r == existing + ratings[..k]
    {
      r := r + [ratings[k]];
      assert ratings[..k + 1] == ratings[..k] + [ratings[k]];
      k := k + 1;
    }
    assert ratings[..k] == ratings;
  }

  // ---------------------------------------------------------------------------
  // Record builders: the setter sequences of the service, one field at a time.
  // Each is proved equal to the function that specifies the record, so the
  // service methods reason about that function and not about the setters.

  /** The setter sequence updateMovieByImdbID applies to a stored record. */
  method UpdatedRecord(stored: Movie, payload: Movie) returns (movie: Movie)
    ensures movie == ApplyUpdate(stored, payload)
  {
    movie := stored;
    if payload.previousTitle.None? {
      movie := movie.(previousTitle := movie.title);
    }
    movie := movie.(title := KeepUnlessBlank(payload.title, movie.title));
    movie := movie.(genre := KeepUnlessBlank(payload.genre, movie.genre));
    movie := movie.(plot := KeepUnlessBlank(payload.plot, movie.plot));
    movie := movie.(awards := KeepUnlessBlank(payload.awards, movie.awards));
    movie := movie.(releaseYear := KeepUnlessBlank(payload.releaseYear, movie.releaseYear));
    if payload.ratings.Some? && payload.ratings.value != [] {
      movie := movie.(ratings := payload.ratings);
    }
    movie := movie.(isUpdated := true);
  }

  /** The setter sequence updateMovieByImdbID applies to a new record built
      from the provider's data and the payload. */
  method ProviderRecord(o: Movie, payload: Movie) returns (movie: Movie)
    ensures movie == FromProvider(o, payload)
  {
    movie := NewMovie;
    if o.imdbID.Some? {
      movie := movie.(imdbID := o.imdbID);
    }
    movie := movie.(isUpdated := true);
    movie := movie.(previousTitle := o.title);
    movie := movie.(title := PreferNonEmpty(payload.title, o.title));
    movie := movie.(genre := PreferNonEmpty(payload.genre, o.genre));
    movie := movie.(plot := PreferNonEmpty(payload.plot, o.plot));
    movie := movie.(awards := PreferNonEmpty(payload.awards, o.awards));
    movie := movie.(releaseYear := PreferNonEmpty(payload.releaseYear, o.releaseYear));
    if payload.ratings.Some? && payload.ratings.value != [] {
      movie := movie.(ratings := payload.ratings);
    } else {
      movie := movie.(ratings := o.ratings);
    }
  }

  /** The setter sequence deleteMovieByImdbID applies to the provider's record. */
  method DeletedRecord(o: Movie) returns (movie: Movie)
    ensures movie == DeletedCopy(o)
  {
    movie := NewMovie;
    movie := movie.(imdbID := o.imdbID);
    movie := movie.(title := o.title);
    movie := movie.(genre := o.genre);
    movie := movie.(plot := o.plot);
    movie := movie.(awards := o.awards);
    movie := movie.(isDeleted := true);
    movie := movie.(isUpdated := false);
    movie := movie.(releaseYear := o.releaseYear);
    movie := movie.(previousTitle := None);
    if o.ratings.Some? {
      movie := movie.(ratings := o.ratings);
    }
  }

  /** The setter sequence createMovieFront applies to a new record, with the
      identifier it minted. */
  method InputRecord(newMovie: Movie, imdbID: string) returns (movie: Movie)
    ensures movie == FromInput(newMovie, imdbID)
  {
    movie := NewMovie;
    movie := movie.(title := PreferNonEmpty(newMovie.title, movie.title));
    movie := movie.(plot := PreferNonEmpty(newMovie.plot, movie.plot));
    movie := movie.(releaseYear := PreferNonEmpty(newMovie.releaseYear, movie.releaseYear));
    movie := movie.(genre := PreferNonEmpty(newMovie.genre, movie.genre));
    movie := movie.(awards := PreferNonEmpty(newMovie.awards, movie.awards));
    movie := movie.(imdbID := Some(imdbID));
    movie := movie.(isUpdated := false);
    movie := movie.(isDeleted := false);
    movie := movie.(previousTitle := None);
    movie := movie.(ratings := if HasRatings(newMovie.ratings) then newMovie.ratings else movie.ratings);
  }

  /** The setter sequence addRating applies to the provider's record. */
  method RatedRecord(o: Movie, ratings: seq<Rating>) returns (movie: Movie)
    ensures movie == RatedCopy(o, ratings)
  {
    movie := NewMovie;
    movie := movie.(imdbID := o.imdbID);
    movie := movie.(title := o.title);
    movie := movie.(awards := o.awards);
    movie := movie.(plot := o.plot);
    movie := movie.(genre := o.genre);
    movie := movie.(releaseYear := o.releaseYear);
    movie := movie.(ratings := o.ratings);
    movie := movie.(isUpdated := false);
    movie := movie.(isDeleted := false);
    movie := movie.(previousTitle := None);
    var ratingList := ratings;
    movie := movie.(ratings := Some(ratingList));
  }

  /** Every record of the store has a ratings collection (possibly empty). */
  ghost predicate AllRated(store: seq<Movie>)
  {
    forall i :: 0 <= i < |store| ==> store[i].ratings.Some?
  }

  /** Replacing a record by one with ratings keeps every record rated. */
  lemma AllRatedSet(store: seq<Movie>, i: nat, m: Movie)
    requires AllRated(store) && i < |store| && m.ratings.Some?
    ensures AllRated(store[i := m])
  {
  }

  /** Appending a record with ratings keeps every record rated. */
  lemma AllRatedAppend(store: seq<Movie>, m: Movie)
    requires AllRated(store) && m.ratings.Some?
    ensures AllRated(store + [m])
  {
  }

  class OmdbService {
    /** The stored records, in the store's retrieval order. */
    var movies: seq<Movie>

    /** Every stored record has a ratings collection (possibly empty). */
    ghost predicate Valid()
      reads this
    {
      AllRated(movies)
    }

    constructor (stored: seq<Movie>)
      requires AllRated(stored)
      ensures Valid() && movies == stored
    {
      movies := stored;
    }

    /** getMovieByTitle: a deleted record with this exact title hides the
        movie; otherwise the first active record whose title contains it;
        otherwise the provider's record, which is not saved. */
    method GetMovieByTitle(title: string, p: Provider) returns (r: Result<Movie>)
      ensures FindByTitleIgnoreCaseAndIsDeletedTrue(movies, title).Some? ==> r == Err(NotFound)
      ensures (FindByTitleIgnoreCaseAndIsDeletedTrue(movies, title).None?
               && FindByTitleContainingIgnoreCaseAndIsDeletedFalse(movies, title) != []) ==>
        r == Ok(FindByTitleContainingIgnoreCaseAndIsDeletedFalse(movies, title)[0])
      ensures (FindByTitleIgnoreCaseAndIsDeletedTrue(movies, title).None?
               && FindByTitleContainingIgnoreCaseAndIsDeletedFalse(movies, title) == []) ==>
        (r == Err(ProviderError) <==> p.byTitle(title).Unreachable?)
        && (r.Ok? <==> p.byTitle(title).Answer? && p.byTitle(title).body.Some?
                       && NonBlank(p.byTitle(title).body.value.title))
        && (r.Ok? ==> p.byTitle(title) == Answer(Some(r.value)))
      ensures r.Err? ==> r.error == NotFound || r.error == ProviderError
    {
      var matchingMovies := FindByTitleContainingIgnoreCaseAndIsDeletedFalse(movies, title);
      var deletedMovie := FindByTitleIgnoreCaseAndIsDeletedTrue(movies, title);
      if deletedMovie.Some? {
        return Err(NotFound);
      }
      if matchingMovies != [] {
        return Ok(matchingMovies[0]);
      }
      var omdbMovie := FetchFromOmdb(p, title);
      if omdbMovie.Err? {
        return Err(ProviderError);
      }
      if omdbMovie.value.Some? && matchingMovies == [] {
        return Ok(omdbMovie.value.value);
      }
      return Err(NotFound);
    }

    /** The provider loop of searchMovieByQuery: appends to `results` the
        details of every hit that no local match and no deleted record shares
        a title with, in the provider's order. */
    method AppendProviderHits(dbMovies: seq<Movie>, hits: seq<QueryResults>, p: Provider, results: seq<QueryResults>)
      returns (r: Result<seq<QueryResults>>)
      ensures r == match ProviderHits(movies, dbMovies, p, hits)
        case Err(e) => Err(e)
        case Ok(found) => Ok(results + found)
    {
      var finalResults := results;
      ghost var found: seq<QueryResults> := [];
      var k := 0;
      while k < |hits|
        invariant 0 <= k <= |hits|
        invariant ProviderHits(movies, dbMovies, p, hits[..k]) == Ok(found)
        invariant finalResults == results + found
      {
        var hit := hits[k];
        var isNotInDb := hit.title.None? || !(exists m | m in dbMovies :: TitleMatches(m, hit.title.value));
        var isNotDeleted := hit.title.None? || FindByTitleIgnoreCaseAndIsDeletedTrue(movies, hit.title.value).None?;
        if isNotDeleted && isNotInDb {
          var detailedMovie := FetchMovieDetails(p, hit);
          if detailedMovie.Err? {
            ProviderHitsFailurePersists(movies, dbMovies, p, hits, k + 1);
            return Err(ProviderError);
          }
          ProviderHitsExtend(movies, dbMovies, p, hits, k, found);
          assert results + found + [detailedMovie.value] == results + (found + [detailedMovie.value]);
          finalResults := finalResults + [detailedMovie.value];
          found := found + [detailedMovie.value];
        } else {
          ProviderHitsSkip(movies, dbMovies, p, hits, k, found);
        }
        k := k + 1;
      }
      assert hits[..k] == hits;
      return Ok(finalResults);
    }

    /** searchMovieByQuery. */
    method SearchMovieByQuery(query: string, p: Provider) returns (r: Result<seq<QueryResults>>)
      ensures r == SearchByQuery(movies, query, p)
    {
      var finalResults: seq<QueryResults> := [];
      var dbMovies := FindByTitleContainingIgnoreCaseAndIsDeletedFalse(movies, query);
      if query == [] {
        return Err(EmptyValue);
      }
      var i := 0;
      while i < |dbMovies|
        invariant 0 <= i <= |dbMovies|
        invariant finalResults == Projections(dbMovies[..i])
      {
        finalResults := finalResults + [Project(dbMovies[i])];
        i := i + 1;
      }
      assert dbMovies[..i] == dbMovies;
      var omdbResponse := p.search(query);
      if omdbResponse.Unreachable? {
        return Err(ProviderError);
      }
      if omdbResponse.body.Some? {
        var merged := AppendProviderHits(dbMovies, omdbResponse.body.value, p, finalResults);
        if merged.Err? {
          return Err(merged.error);
        }
        finalResults := merged.value;
      } else {
        assert finalResults == Projections(dbMovies) + [];
      }
      if finalResults == [] {
        return Err(NotFound);
      }
      return Ok(finalResults);
    }

    /** searchMovieByCategory: both filters are streams, so each is the
        corresponding function of the search model. */
    method SearchMovieByCategory(query: string, category: string, p: Provider) returns (r: Result<seq<Movie>>)
      ensures r == SearchByCategory(movies, query, category, p)
    {
      if query == [] || category == [] {
        return Err(EmptyValue);
      }
      var movieList := FindByTitleContainingIgnoreCaseAndIsDeletedFalse(movies, query);
      var moviesInDb := LocalInCategory(movieList, category);
      if moviesInDb.Err? {
        return Err(moviesInDb.error);
      }
      var results := moviesInDb.value;
      var omdbResponse := p.search(query);
      if omdbResponse.Unreachable? {
        return Err(ProviderError);
      }
      if omdbResponse.body.Some? {
        var filteredMovies := ProviderInCategory(p, omdbResponse.body.value, category);
        if filteredMovies.Err? {
          return Err(filteredMovies.error);
        }
        results := results + filteredMovies.value;
      } else {
        assert results == moviesInDb.value + [];
      }
      if results == [] {
        return Err(NotFound);
      }
      return Ok(results);
    }

    /** deleteMovieByImdbID: a soft delete. An already deleted ID is refused;
        an active record only has its deleted flag set; an unknown ID is
        materialised from the provider as an already deleted record. */
    method DeleteMovieByImdbID(imdbID: string, p: Provider) returns (r: Result<Movie>)
      requires Valid()
      modifies this
      ensures Valid()
      ensures r.Err? ==> r.error == NotFound && movies == old(movies)
      ensures FindByImdbIDAndIsDeletedTrue(old(movies), imdbID).Some? ==> r == Err(NotFound)
      ensures (FindByImdbIDAndIsDeletedTrue(old(movies), imdbID).None?
               && FindByImdbIDAndIsDeletedFalse(old(movies), imdbID).Some?) ==>
        var i := FindByImdbIDAndIsDeletedFalse(old(movies), imdbID).value;
        movies == old(movies)[i := old(movies)[i].(isDeleted := true)] && r == Ok(movies[i])
      ensures (FindByImdbIDAndIsDeletedTrue(old(movies), imdbID).None?
               && FindByImdbIDAndIsDeletedFalse(old(movies), imdbID).None?) ==>
        var reply := p.byId(Some(imdbID));
        (r.Ok? <==> reply.Answer? && reply.body.Some? && HasText(reply.body.value.imdbID))
        && (r.Ok? ==> r.value == DeletedCopy(reply.body.value) && movies == old(movies) + [Persisted(r.value)])
    {
      var movieInDatabase := FindByImdbIDAndIsDeletedFalse(movies, imdbID);
      var deletedMovie := FindByImdbIDAndIsDeletedTrue(movies, imdbID);
      if deletedMovie.Some? {
        return Err(NotFound);
      }
      if movieInDatabase.Some? {
        var i := movieInDatabase.value;
        var movie := movies[i].(isDeleted := true);
        AllRatedSet(movies, i, movie);
        movies := movies[i := movie];
        return Ok(movie);
      }
      var reply := p.byId(Some(imdbID));
      if reply.Unreachable? {
        return Err(NotFound);
      }
      var omdbMovie := reply.body;
      if omdbMovie.None? || omdbMovie.value.imdbID.None? || omdbMovie.value.imdbID.value == [] {
        return Err(NotFound);
      }
      var movie := DeletedRecord(omdbMovie.value);
      AllRatedAppend(movies, Persisted(movie));
      movies := movies + [Persisted(movie)];
      return Ok(movie);
    }

    /** updateMovieByImdbID. */
    method UpdateMovieByImdbID(imdbID: string, payload: Movie, p: Provider) returns (r: Result<Movie>)
      requires Valid()
      modifies this
      ensures Valid()
      ensures r.Err? ==> movies == old(movies)
      ensures !NonBlank(payload.title) ==> r == Err(EmptyValue)
      // the stored active record is updated in place
      ensures NonBlank(payload.title) ==>
        var active := FindByImdbIDAndIsDeletedFalse(old(movies), imdbID);
        var deleted := FindByImdbIDAndIsDeletedTrue(old(movies), imdbID);
        active.Some? ==>
          var m := old(movies)[active.value];
          if m.title.None? then r == Err(NullValue)
          else if deleted.Some? then r == Err(NotFound)
          else if IsNoChange(m, payload) then r == Err(NoChanges)
          else if ExistsByTitleIgnoreCase(old(movies), payload.title.value) then r == Err(AlreadyExists)
          else r == Ok(ApplyUpdate(m, payload)) && movies == old(movies)[active.value := r.value]
      // an unknown provider ID is materialised from the provider
      ensures NonBlank(payload.title) ==>
        var active := FindByImdbIDAndIsDeletedFalse(old(movies), imdbID);
        var deleted := FindByImdbIDAndIsDeletedTrue(old(movies), imdbID);
        active.None? ==>
          if !IsProviderId(imdbID) then r == Err(NotFound)
          else match p.byId(Some(imdbID))
            case Unreachable => r == Err(NotFound)
            case Answer(None) => r == Err(NotFound)
            case Answer(Some(o)) =>
              if o.title.None? then r == Err(NullValue)
              else if deleted.Some? then r == Err(NotFound)
              else r == Ok(FromProvider(o, payload)) && movies == old(movies) + [Persisted(r.value)]
      // a successful update of a stored record moves it to a title no record had
      ensures r.Ok? && FindByImdbIDAndIsDeletedFalse(old(movies), imdbID).Some? ==>
        r.value.title.Some? && !ExistsByTitleIgnoreCase(old(movies), r.value.title.value)
    {
      if payload.title.None? || IsBlank(payload.title.value) {
        return Err(EmptyValue);
      }
      var title := payload.title.value;
      var movieOptional := FindByImdbIDAndIsDeletedFalse(movies, imdbID);
      var deletedMovie := FindByImdbIDAndIsDeletedTrue(movies, imdbID);
      var omdbMovie: Option<Movie> := None;
      if movieOptional.None? && IsProviderId(imdbID) {
        var reply := p.byId(Some(imdbID));
        if reply.Unreachable? {
          return Err(NotFound);
        }
        omdbMovie := reply.body;
      }
      var titleExistInDb := ExistsByTitleIgnoreCase(movies, title);
      var existingInDb := false;
      if movieOptional.Some? {
        var current := movies[movieOptional.value].title;
        if current.None? {
          return Err(NullValue);
        }
        existingInDb := EqualsIgnoreCase(current.value, title);
      }
      var titleExistInOmdb := false;
      if omdbMovie.Some? {
        if omdbMovie.value.title.None? {
          return Err(NullValue);
        }
        titleExistInOmdb := EqualsIgnoreCase(omdbMovie.value.title.value, title);
      }

      if movieOptional.Some? && deletedMovie.None? {
        var i := movieOptional.value;
        var movie := movies[i];
        if IsNoChange(movie, payload) {
          return Err(NoChanges);
        }
        if titleExistInDb || existingInDb || titleExistInOmdb {
          return Err(AlreadyExists);
        }
        movie := UpdatedRecord(movie, payload);
        AllRatedSet(movies, i, movie);
        movies := movies[i := movie];
        return Ok(movie);
      } else if omdbMovie.Some? && deletedMovie.None? {
        var o := omdbMovie.value;
        // isNoChange(new Movie(), payload) is false here: see FreshRecordIsNeverNoChange
        var movie := ProviderRecord(o, payload);
        AllRatedAppend(movies, Persisted(movie));
        movies := movies + [Persisted(movie)];
        return Ok(movie);
      } else {
        return Err(NotFound);
      }
    }

    /** generateUniqueImdbID: draws until the minted identifier is not the ID
        of an active record. The random source is the sequence of draws. */
    method GenerateUniqueImdbID(draws: seq<nat>) returns (imdbID: string)
      requires DrawsInRange(draws) && HasFreeDraw(movies, draws)
      ensures IsLocalId(imdbID) && IsValidImdbId(imdbID)
      ensures !ExistsByImdbIDAndIsDeletedFalse(movies, imdbID)
      ensures imdbID == LocalId(draws[FirstFreeDraw(movies, draws)])
    {
      ghost var free :| 0 <= free < |draws| && IsFreeDraw(movies, draws[free]);
      var k := 0;
      imdbID := LocalId(draws[k]);
      while ExistsByImdbIDAndIsDeletedFalse(movies, imdbID)
        invariant 0 <= k <= free && imdbID == LocalId(draws[k])
        invariant forall j :: 0 <= j < k ==> !IsFreeDraw(movies, draws[j])
        decreases free - k
      {
        assert !IsFreeDraw(movies, draws[k]);
        assert k != free;
        k := k + 1;
        imdbID := LocalId(draws[k]);
      }
      assert IsFreeDraw(movies, draws[k]);
      ghost var first := FirstFreeDraw(movies, draws);
      assert !(first < k) && !(k < first);
      LocalIdIsNotProviderId(imdbID);
    }

    /** createMovieFront: refuses a title the provider or an active record
        already has, then a deleted one; otherwise saves a new record with a
        freshly minted ID. */
    method CreateMovieFront(newMovie: Movie, draws: seq<nat>, p: Provider) returns (r: Result<Movie>)
      requires Valid() && DrawsInRange(draws) && HasFreeDraw(movies, draws)
      modifies this
      ensures Valid()
      ensures r.Err? <==> CreateRefusal(old(movies), newMovie, p).Some?
      ensures r.Err? ==> r.error == CreateRefusal(old(movies), newMovie, p).value && movies == old(movies)
      ensures r.Ok? ==>
        r.value == FromInput(newMovie, LocalId(draws[FirstFreeDraw(old(movies), draws)]))
        && movies == old(movies) + [Persisted(r.value)]
      ensures r.Ok? ==> IsLocalId(r.value.imdbID.value) && !ExistsByImdbIDAndIsDeletedFalse(old(movies), r.value.imdbID.value)
    {
      if newMovie.title.None? {
        return Err(NullValue);
      }
      var title := newMovie.title.value;
      var reply := p.byTitle(title);
      if reply.Unreachable? {
        return Err(ProviderError);
      }
      var omdbMovie := reply.body;
      var existingTitleInDatabase := FindByTitleIgnoreCaseAndIsDeletedFalse(movies, title);
      var deletedMovie := FindByTitleIgnoreCaseAndIsDeletedTrue(movies, title);
      if (omdbMovie.Some? && omdbMovie.value.title.Some? && EqualsIgnoreCase(omdbMovie.value.title.value, title))
         || existingTitleInDatabase.Some? {
        return Err(AlreadyExists);
      }
      if deletedMovie.Some? {
        return Err(NotFound);
      }
      var imdbID := GenerateUniqueImdbID(draws);
      var movie := InputRecord(newMovie, imdbID);
      AllRatedAppend(movies, Persisted(movie));
      movies := movies + [Persisted(movie)];
      return Ok(movie);
    }

    /** createMovie: createMovieFront without returning the record. */
    method CreateMovie(newMovie: Movie, draws: seq<nat>, p: Provider) returns (r: Result<()>)
      requires Valid() && DrawsInRange(draws) && HasFreeDraw(movies, draws)
      modifies this
      ensures Valid()
      ensures r.Err? <==> CreateRefusal(old(movies), newMovie, p).Some?
      ensures r.Err? ==> r.error == CreateRefusal(old(movies), newMovie, p).value && movies == old(movies)
      ensures r.Ok? ==>
        movies == old(movies) + [Persisted(FromInput(newMovie, LocalId(draws[FirstFreeDraw(old(movies), draws)])))]
    {
      var created := CreateMovieFront(newMovie, draws, p);
      if created.Err? {
        return Err(created.error);
      }
      return Ok(());
    }

    /** addRating: appends ratings to the active record with this title, or
        materialises the provider's record with exactly these ratings. */
    method AddRating(title: string, ratings: seq<Rating>, p: Provider) returns (r: Result<Movie>)
      requires Valid()
      modifies this
      ensures Valid()
      ensures r.Err? ==> movies == old(movies)
      ensures IsBlank(title) ==> r == Err(EmptyValue)
      ensures !IsBlank(title) && FindByTitleContainingIgnoreCaseAndIsDeletedTrue(old(movies), title).Some? ==>
        r == Err(NotFound)
      ensures !IsBlank(title) && FindByTitleContainingIgnoreCaseAndIsDeletedTrue(old(movies), title).None? ==>
        var first := FirstMatch(old(movies), TitleContaining(title, false));
        if first.Some? && TitleMatches(old(movies)[first.value], Trim(title)) then
          var m := old(movies)[first.value];
          movies == old(movies)[first.value := m.(ratings := Some(m.ratings.value + ratings))]
          && r == Ok(movies[first.value])
        else match p.byTitle(title)
          case Unreachable => r == Err(ProviderError)
          case Answer(None) => r == Err(NullValue)
          case Answer(Some(o)) =>
            if o.title.Some? && first.None? then
              r == Ok(RatedCopy(o, ratings)) && movies == old(movies) + [r.value]
            else r == Err(NotFound)
    {
      if IsBlank(title) {
        return Err(EmptyValue);
      }
      var movieOpt := FirstMatch(movies, TitleContaining(title, false));
      var deletedMovie := FindByTitleContainingIgnoreCaseAndIsDeletedTrue(movies, title);
      if deletedMovie.Some? {
        return Err(NotFound);
      }
      if movieOpt.Some? {
        var i := movieOpt.value;
        var movie := movies[i];
        if EqualsIgnoreCase(movie.title.value, Trim(title)) {
          var appended := AppendRatings(movie.ratings.value, ratings);
          movie := movie.(ratings := Some(appended));
          AllRatedSet(movies, i, movie);
          movies := movies[i := movie];
          return Ok(movie);
        }
      }
      assert !(movieOpt.Some? && TitleMatches(movies[movieOpt.value], Trim(title)));
      r := AddProviderRating(title, ratings, p, movieOpt.None?);
    }

    /** The provider half of addRating: with no active record of this exact
        title, the provider's record is saved with exactly these ratings,
        unless some active record contains the title. */
    method AddProviderRating(title: string, ratings: seq<Rating>, p: Provider, noPartialMatch: bool)
      returns (r: Result<Movie>)
      requires Valid()
      modifies this
      ensures Valid()
      ensures r.Err? ==> movies == old(movies)
      ensures match p.byTitle(title)
        case Unreachable => r == Err(ProviderError)
        case Answer(None) => r == Err(NullValue)
        case Answer(Some(o)) =>
          if o.title.Some? && noPartialMatch then
            r == Ok(RatedCopy(o, ratings)) && movies == old(movies) + [r.value]
          else r == Err(NotFound)
    {
      var reply := p.byTitle(title);
      if reply.Unreachable? {
        return Err(ProviderError);
      }
      if reply.body.None? {
        return Err(NullValue);
      }
      var omdbMovie := reply.body.value;
      if omdbMovie.title.Some? && noPartialMatch {
        var movie := RatedRecord(omdbMovie, ratings);
        AllRatedAppend(movies, movie);
        movies := movies + [movie];
        return Ok(movie);
      }
      return Err(NotFound);
    }

    /** enableMovie: undeletes the deleted record with this title when no
        active record has it. */
    method EnableMovie(title: string) returns (r: Result<Movie>)
      requires Valid()
      modifies this
      ensures Valid()
      ensures var deleted := FindByTitleIgnoreCaseAndIsDeletedTrue(old(movies), title);
        var active := FindByTitleIgnoreCaseAndIsDeletedFalse(old(movies), title);
        if active.None? && deleted.Some? then
          movies == old(movies)[deleted.value := old(movies)[deleted.value].(isDeleted := false)]
          && r == Ok(movies[deleted.value])
        else movies == old(movies) && r == Err(if title == [] then EmptyValue else NotFound)
    {
      var movieOpt := FindByTitleIgnoreCaseAndIsDeletedTrue(movies, title);
      var enabledMovie := FindByTitleIgnoreCaseAndIsDeletedFalse(movies, title);
      if enabledMovie.None? && movieOpt.Some? {
        var i := movieOpt.value;
        var movie := movies[i].(isDeleted := false);
        AllRatedSet(movies, i, movie);
        movies := movies[i := movie];
        return Ok(movie);
      }
      if title == [] {
        return Err(EmptyValue);
      }
      if enabledMovie.Some? {
        return Err(NotFound);
      }
      return Err(NotFound);
    }
  }
}
