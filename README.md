# Movie reconciliation service, modelled in Dafny

This project models the service at the heart of a Spring movie catalogue:
`OmdbService`, which decides for every read and write whether the local
store of movie records or the external OMDb provider is authoritative, and
which enforces the soft-delete / soft-update lifecycle of stored movies, together
with the derived queries of `MovieRepository` that it relies on.

Modules, one per file:

- `Common` (common.dfy): `Option`, `Result` and the service's failures. `EmptyValue`, `NotFound`,
  `AlreadyExists` and `NoChanges` are the service's own exceptions. `ProviderError` is an uncaught
  provider exception. `NullValue` is a null dereference.
- `Text` (text.dfy): ASCII case folding, Java's `contains`, `trim` and blank tests.
- `Entities` (entities.dfy): `Movie`, `Rating`, `QueryResults`, and what a saved record reads back as.
- `Repository` (repository.dfy): the eight derived queries as functions over the stored sequence.
  A query that returns an `Optional` returns the position of the first match.
- `Omdb` (omdb.dfy): the provider as three total functions (lookup by title, lookup by ID, search).
  Each returns a body that may be null, or `Unreachable` when the HTTP client throws.
  It also holds `fetchFromOmdb`, `fetchMovieDetails` and `getMovieDetails`.
  `GetMovieDetails` is the provider's ID lookup itself and carries no contract of its own.
- `ImdbIds` (imdbids.dfy): the two identifier formats and the zero-padded local identifiers.
- `Search` (search.dfy): the two read-only searches as functions of the store and the provider.
- `Service` (service.dfy): class `OmdbService`, whose field `movies` is the store.
  Each public operation is a method that updates `movies` in place, as each `save` does.
  The module also holds the comparison helpers, the records the writes build, and identifier generation.
- `Scenarios` (scenarios.dfy): short client sequences over a given store (one or two calls) and what the service is guaranteed to answer.

The class invariant `Valid()` (`AllRated` of the store) says every stored record has a ratings collection.
A record saved without one reads back with an empty list, which is what `Persisted` states.

Two behaviours worth noting:

- `getMovieByTitle`'s deleted-record check (`findByTitleIgnoreCaseAndIsDeletedTrue`,
  OmdbService.java:51) uses exact title equality ignoring case, while active records match by substring.
- `searchMovieByQuery` queries the store before it checks the query (OmdbService.java:94-96), and it
  rejects only the empty string, so a query of spaces is searched.

## Model

| member | source | states |
|---|---|---|
| Text.BlankIffAllTrimmed | src/main/java/com/jakubkras/project/service/OmdbService.java:209 | a string is blank (`trim().isEmpty()`) exactly when every character is at most a space |
| Text.EqualsIgnoreCaseContains | src/main/java/com/jakubkras/project/repository/MovieRepository.java:15-17 | a title equal ignoring case also contains the argument ignoring case, so an exact-title match is also a substring match |
| Entities.Persisted | src/main/java/com/jakubkras/project/entity/Movie.java:62-65 | a saved record reads back with a ratings collection: an empty one if it had none, and every other field unchanged |
| Repository.AllMatchesAppend | src/main/java/com/jakubkras/project/repository/MovieRepository.java:13 | a list query over two stretches of the store is the first stretch's matches followed by the second's, so results keep store order |
| Repository.FindByTitleContainingIgnoreCaseAndIsDeletedFalse | src/main/java/com/jakubkras/project/repository/MovieRepository.java:13 | returns exactly the active records whose title contains the argument ignoring case; its head is the first such record in store order |
| Repository.FindByTitleIgnoreCaseAndIsDeletedTrue | src/main/java/com/jakubkras/project/repository/MovieRepository.java:15 | a deleted record whose title equals the argument ignoring case, or none exactly when no such record exists |
| Repository.FindByTitleContainingIgnoreCaseAndIsDeletedTrue | src/main/java/com/jakubkras/project/repository/MovieRepository.java:17 | a deleted record whose title contains the argument ignoring case, or none exactly when no such record exists |
| Repository.FindByTitleIgnoreCaseAndIsDeletedFalse | src/main/java/com/jakubkras/project/repository/MovieRepository.java:19 | an active record whose title equals the argument ignoring case, or none exactly when no such record exists |
| Repository.FindByImdbIDAndIsDeletedFalse | src/main/java/com/jakubkras/project/repository/MovieRepository.java:21 | an active record whose ID is exactly the argument (case-sensitive), or none exactly when no such record exists |
| Repository.FindByImdbIDAndIsDeletedTrue | src/main/java/com/jakubkras/project/repository/MovieRepository.java:23 | a deleted record whose ID is exactly the argument, or none exactly when no such record exists |
| Repository.ExistsByTitleIgnoreCase | src/main/java/com/jakubkras/project/repository/MovieRepository.java:25 | true iff some record, active or deleted, has the title ignoring case |
| Repository.ExistsByImdbIDAndIsDeletedFalse | src/main/java/com/jakubkras/project/repository/MovieRepository.java:27 | true iff some active record has exactly that ID |
| Repository.ActiveAndDeletedVariantsDisjoint | src/main/java/com/jakubkras/project/repository/MovieRepository.java:13-23 | the active and deleted variants of the same query never return the same record |
| Omdb.FetchFromOmdb | src/main/java/com/jakubkras/project/service/OmdbService.java:70-89 | fails iff the provider call throws; yields the provider's record iff it has a non-blank title, and nothing otherwise |
| Omdb.GetMovieDetails | src/main/java/com/jakubkras/project/service/OmdbService.java:510-518 | the provider's ID lookup, passed through unchecked; it has no contract of its own, and FetchMovieDetails states what its callers rely on |
| Omdb.FetchMovieDetails | src/main/java/com/jakubkras/project/service/OmdbService.java:132-150 | fails iff the ID lookup throws; a null record keeps the hit as it is, and a record gives its ID, title and plot |
| ImdbIds.LocalId | src/main/java/com/jakubkras/project/service/OmdbService.java:397 | `"ttt"` followed by the number zero-padded to six digits has the local identifier format |
| ImdbIds.ZeroPaddedRoundTrip | src/main/java/com/jakubkras/project/service/OmdbService.java:397 | reading back the zero-padded digits gives the number drawn |
| ImdbIds.LocalIdInjective | src/main/java/com/jakubkras/project/service/OmdbService.java:397 | different draws give different identifiers |
| ImdbIds.LocalIdIsNotProviderId | src/main/java/com/jakubkras/project/controller/OmdbController.java:272 | a minted identifier passes the endpoint's ID pattern, but never as a provider (`tt` plus seven digits) identifier |
| Search.Projections | src/main/java/com/jakubkras/project/service/OmdbService.java:100-106 | one summary per local match, in order, carrying its ID, title and plot |
| Search.ProviderHits | src/main/java/com/jakubkras/project/service/OmdbService.java:114-125 | a failure of the provider loop is always ProviderError, and it never yields more entries than there are hits |
| Search.ProviderHitsFailsIff | src/main/java/com/jakubkras/project/service/OmdbService.java:114-125 | the provider loop fails iff the detail lookup of some unsuppressed hit cannot reach the provider |
| Search.ProviderHitsContents | src/main/java/com/jakubkras/project/service/OmdbService.java:114-125 | a successful provider loop holds the details of every unsuppressed hit, and nothing that is not the detail of one |
| Search.ProviderHitsFailurePersists | src/main/java/com/jakubkras/project/service/OmdbService.java:114-125 | a detail lookup that throws aborts the whole provider loop |
| Search.ProviderHitsAppend | src/main/java/com/jakubkras/project/service/OmdbService.java:114-125 | the loop over two stretches of hits is the loop over the first followed by the loop over the second, with the first failure winning; with ProviderHitsContents this fixes provider order and one entry per surviving hit |
| Search.QueryFromProvider | src/main/java/com/jakubkras/project/service/OmdbService.java:112-125 | a failed search call gives ProviderError and an empty search body gives nothing; otherwise the contribution is the provider loop over the hits, and everything in it is the detail of an unsuppressed hit |
| Search.SearchByQuery | src/main/java/com/jakubkras/project/service/OmdbService.java:91-130 | an empty query gives EmptyValue, a failed search call gives ProviderError, and a result is never empty |
| Search.SearchByQueryMerge | src/main/java/com/jakubkras/project/service/OmdbService.java:91-130 | a result is exactly the local matches in store order followed by the provider loop's output, and every entry after the local part is the detail of a hit whose title neither a local match nor a deleted record has |
| Search.SearchByQueryNotFound | src/main/java/com/jakubkras/project/service/OmdbService.java:126-128 | NotFound exactly when there is no local match and the provider contributes nothing |
| Search.LocalInCategory | src/main/java/com/jakubkras/project/service/OmdbService.java:479-481 | fails (null genre) iff some local match has no genre; otherwise exactly the local matches whose genre contains the category |
| Search.LocalInCategoryAppend | src/main/java/com/jakubkras/project/service/OmdbService.java:479-481 | the local filter over two stretches of matches is the filter over the first followed by the filter over the second, so store order and repeats are kept |
| Search.ProviderInCategory | src/main/java/com/jakubkras/project/service/OmdbService.java:494-496 | succeeds iff every hit has a record with a genre; a failure is a provider or null error; on success the result is exactly the records of hits that are in the category |
| Search.ProviderInCategoryFailurePersists | src/main/java/com/jakubkras/project/service/OmdbService.java:494-496 | a failing detail lookup aborts the whole stream |
| Search.ProviderInCategoryAppend | src/main/java/com/jakubkras/project/service/OmdbService.java:494-496 | the provider stream over two stretches of hits is the stream over the first followed by the stream over the second, so provider order and repeats are kept and the first failure wins |
| Search.CategoryFromProvider | src/main/java/com/jakubkras/project/service/OmdbService.java:490-499 | a failed search call gives ProviderError and an empty search body gives nothing; otherwise the contribution is the provider stream over the hits, and everything in it is in the category |
| Search.SearchByCategory | src/main/java/com/jakubkras/project/service/OmdbService.java:469-507 | empty inputs give EmptyValue; a result is non-empty, entirely in the category, and includes every local match in the category |
| Search.SearchByCategoryConcatenates | src/main/java/com/jakubkras/project/service/OmdbService.java:483-498 | a result is the local part followed by the provider part |
| Search.SearchByCategoryNotFound | src/main/java/com/jakubkras/project/service/OmdbService.java:501-504 | NotFound exactly when both inputs are non-empty and neither the local nor the provider part finds anything |
| Search.CategoryKeepsDuplicates | src/main/java/com/jakubkras/project/service/OmdbService.java:483-498 | a local match the provider also returns appears twice |
| Service.RatingsEqualFrom | src/main/java/com/jakubkras/project/service/OmdbService.java:324-332 | the positional loop finds no difference iff the remaining lists are equal |
| Service.AreRatingsEquals | src/main/java/com/jakubkras/project/service/OmdbService.java:313-334 | null equals null; null never equals a list; two lists compare equal iff they have the same size and pairwise equal source and value, that is, iff they are equal |
| Service.IsNoChange | src/main/java/com/jakubkras/project/service/OmdbService.java:304-311 | true iff the records agree on every field but the ID, the two flags and the previous title |
| Service.FreshRecordIsNeverNoChange | src/main/java/com/jakubkras/project/service/OmdbService.java:268-272 | the no-change check in the provider branch of an update can never fire |
| Service.ApplyUpdate | src/main/java/com/jakubkras/project/service/OmdbService.java:247-262 | keeps the ID and deleted flag and sets updated; records the old title when the payload's previous title is null; each of title, genre, plot, awards and release year takes the payload's value when non-blank and keeps the stored one otherwise; ratings are replaced only with a non-empty list |
| Service.FromProvider | src/main/java/com/jakubkras/project/service/OmdbService.java:268-292 | the new record carries the provider's ID, the provider's title as previous title, updated=true and deleted=false; each of title, genre, plot, awards and release year is the payload's when non-empty, else the provider's; ratings are the payload's if non-empty, else the provider's |
| Service.FromInput | src/main/java/com/jakubkras/project/service/OmdbService.java:358-385 | a created record carries only the non-empty input fields and non-empty ratings, the given ID, both flags false and no previous title |
| Service.DeletedCopy | src/main/java/com/jakubkras/project/service/OmdbService.java:186-199 | the materialised record is the provider's data, deleted, not updated, with no previous title |
| Service.RatedCopy | src/main/java/com/jakubkras/project/service/OmdbService.java:442-461 | the materialised record is the provider's data with exactly the supplied ratings, active, not updated, no previous title |
| Service.UpdatedRecord | src/main/java/com/jakubkras/project/service/OmdbService.java:247-262 | the setter sequence of the stored-record update builds exactly ApplyUpdate of the record and the payload |
| Service.ProviderRecord | src/main/java/com/jakubkras/project/service/OmdbService.java:268-292 | the setter sequence of the provider branch builds exactly FromProvider of the provider record and the payload |
| Service.RatedRecord | src/main/java/com/jakubkras/project/service/OmdbService.java:442-461 | the setter sequence of addRating builds exactly RatedCopy of the provider record and the ratings |
| Service.DeletedRecord | src/main/java/com/jakubkras/project/service/OmdbService.java:186-199 | the setter sequence of deleteMovieByImdbID builds exactly DeletedCopy of the provider record |
| Service.InputRecord | src/main/java/com/jakubkras/project/service/OmdbService.java:358-385 | the setter sequence of createMovieFront builds exactly FromInput of the input and the minted identifier |
| Service.FirstFreeDraw | src/main/java/com/jakubkras/project/service/OmdbService.java:396-398 | the first draw whose identifier no active record has; every earlier draw was taken |
| Service.MintedIdMayBelongToDeletedRecord | src/main/java/com/jakubkras/project/service/OmdbService.java:396-398 | for any store in which only deleted records carry the identifier of a draw, that draw is free and its identifier is minted again, because only active records are checked |
| Service.CreateRefusal | src/main/java/com/jakubkras/project/service/OmdbService.java:338-356 | a null title is a null failure and a failed provider call a provider error; a provider title match or an active record with the title gives AlreadyExists; with neither, a deleted record with the title gives NotFound; creation goes ahead iff none of these holds |
| Service.CreateTwiceIsRefused | src/main/java/com/jakubkras/project/service/OmdbService.java:338-389 | after a creation with a non-empty title, creating the same input again is refused with AlreadyExists, and the created record is the only active record with that title |
| Service.AppendRatings | src/main/java/com/jakubkras/project/service/OmdbService.java:422-425 | the supplied ratings are appended after the existing ones, in order |
| Service.OmdbService.constructor | src/main/java/com/jakubkras/project/service/OmdbService.java:42-45 | the service starts over the given store |
| Service.OmdbService.GetMovieByTitle | src/main/java/com/jakubkras/project/service/OmdbService.java:47-68 | deleted exact-title record gives NotFound even with active matches; else the first active substring match; else the provider's unsaved record iff its title is non-blank; store unchanged |
| Service.OmdbService.AppendProviderHits | src/main/java/com/jakubkras/project/service/OmdbService.java:114-125 | the provider loop appends, in provider order, the detail of every hit that no local match and no deleted record shares a title with; it fails as ProviderHits does, and then nothing is appended |
| Service.OmdbService.SearchMovieByQuery | src/main/java/com/jakubkras/project/service/OmdbService.java:91-130 | the loops compute SearchByQuery on the current store; store unchanged |
| Service.OmdbService.SearchMovieByCategory | src/main/java/com/jakubkras/project/service/OmdbService.java:469-507 | computes SearchByCategory on the current store; store unchanged |
| Service.OmdbService.DeleteMovieByImdbID | src/main/java/com/jakubkras/project/service/OmdbService.java:155-204 | deleted ID gives NotFound; an active record gets only its deleted flag set; else a provider record with a non-empty ID is appended already deleted; every failure is NotFound and leaves the store unchanged |
| Service.OmdbService.UpdateMovieByImdbID | src/main/java/com/jakubkras/project/service/OmdbService.java:207-300 | blank title gives EmptyValue first; in the active branch NoChanges precedes AlreadyExists, which covers every stored title; success rewrites only that record and moves it to a title no record had; an unknown provider-format ID is materialised from the provider; every failure leaves the store unchanged |
| Service.OmdbService.GenerateUniqueImdbID | src/main/java/com/jakubkras/project/service/OmdbService.java:391-400 | returns the first drawn identifier that no active record has; it has the local format |
| Service.OmdbService.CreateMovieFront | src/main/java/com/jakubkras/project/service/OmdbService.java:545-596 | fails exactly as CreateRefusal says and changes nothing; otherwise appends and returns the record built from the input under a fresh local ID |
| Service.OmdbService.CreateMovie | src/main/java/com/jakubkras/project/service/OmdbService.java:338-389 | the same decision and the same appended record, without returning it |
| Service.OmdbService.AddRating | src/main/java/com/jakubkras/project/service/OmdbService.java:403-467 | blank title gives EmptyValue; a deleted record containing the title gives NotFound; an exact match on the first active match gets the ratings appended and nothing else changes; with no active match, a provider record with a title is appended with the supplied ratings; otherwise a failure and no change |
| Service.OmdbService.AddProviderRating | src/main/java/com/jakubkras/project/service/OmdbService.java:431-466 | an unreachable provider gives ProviderError and an empty answer NullValue; a provider record with a title is appended with exactly the supplied ratings when no active record contains the title; otherwise NotFound; every failure leaves the store unchanged |
| Service.OmdbService.EnableMovie | src/main/java/com/jakubkras/project/service/OmdbService.java:521-541 | with no active record of the title and a deleted one, only that record's deleted flag is cleared; otherwise EmptyValue for an empty title, else NotFound, and no change |
| Scenarios.EnableTwice | src/main/java/com/jakubkras/project/service/OmdbService.java:521-541 | enabling the same title twice fails the second time |
| Scenarios.DeleteTwice | src/main/java/com/jakubkras/project/service/OmdbService.java:155-204 | once a delete has left a deleted record under the ID, deleting it again gives NotFound |
| Scenarios.DeletedTitleIsHidden | src/main/java/com/jakubkras/project/service/OmdbService.java:47-58 | a deleted record with the title makes both the lookup and addRating fail with NotFound, and neither changes the store |
| Scenarios.ResubmitStoredRecord | src/main/java/com/jakubkras/project/service/OmdbService.java:235-241 | resubmitting a stored active record as its own update gives NoChanges and changes nothing |

## Left out

- HTTP transport (URL building, URL encoding, `RestTemplate`): the provider is modelled as total functions, so asking twice gives the same answer. Only whether a call throws, and what body it returns, is kept.
- Controllers, view names, response strings and the mapping of exceptions to HTTP statuses. Only the identifier pattern of the delete and update endpoints is kept, as `ImdbIds.IsValidImdbId`.
- JPA machinery: transactions, cascades, generated surrogate keys, and the `Rating.movie` back-pointer. The service sets it on every rating it saves except the provider-ratings fallback of updateMovieByImdbID (OmdbService.java:291).
- Service.OmdbService.UpdateMovieByImdbID: when the payload has no ratings, the provider branch keeps the provider's ratings on the new record. The source assigns them at OmdbService.java:291 without setting their owning movie, which `Rating.movie` declares non-null. So the source's save either fails or stores ratings that do not read back with the movie. The model does not capture that ownership.
- JPA's multiple-match failure: an `Optional` query that matches several rows throws in Spring Data. The model returns the first match instead.
- JPA constraints: the database's unique constraint on `imdb_id`, and bean validation of the non-null title at persist time. A save that either would reject is modelled as succeeding.
- Service.OmdbService.GenerateUniqueImdbID: the random source is a finite sequence of draws, and the method requires that one of them is free. The source loops until a free one comes.
- Unicode case folding: `equalsIgnoreCase` and the ignore-case queries are modelled with ASCII lower-casing. Java's `trim` is modelled exactly (characters up to a space).
- Null dereferences (a missing genre, a null provider body or title, a null stored title compared in an update, a null title passed to creation) are explicit `NullValue` failures. The exception is not modelled.
- A provider search hit with a null title is treated as unsuppressed by both checks. The in-memory `equalsIgnoreCase` against null is false. The derived query `findByTitleIgnoreCaseAndIsDeletedTrue(null)` would become `IS NULL` and match a deleted record with a null title. Bean validation rules such a record out, but the model's store can hold one (see the JPA constraints line above).
- Service.OmdbService.UpdateMovieByImdbID: the provider branch omits the no-change check that the source runs on a fresh record, because that check can never fire (`Service.FreshRecordIsNeverNoChange`).
