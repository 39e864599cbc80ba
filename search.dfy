/** What the two read-only searches return, as functions of the stored
    records and the provider's answers. */
module Search {
  import opened Common
  import opened Text
  import opened Entities
  import opened Repository
  import opened Omdb

  /** The summary of a stored record: its ID, title and plot. */
  function Project(m: Movie): QueryResults
  {
    QueryResults(m.imdbID, m.title, m.plot)
  }

  function Projections(ms: seq<Movie>): (r: seq<QueryResults>)
    ensures |r| == |ms|
    ensures forall i :: 0 <= i < |ms| ==> r[i] == Project(ms[i])
  {
    seq(|ms|, i requires 0 <= i < |ms| => Project(ms[i]))
  }

  /** A provider hit is left out of a query search when one of the local
      matches, or a deleted record, has its title ignoring case. A hit with
      a null title matches no stored record. */
  predicate Suppressed(store: seq<Movie>, local: seq<Movie>, hit: QueryResults)
  {
    hit.title.Some? &&
    ((exists m :: m in local && TitleMatches(m, hit.title.value))
     || FindByTitleIgnoreCaseAndIsDeletedTrue(store, hit.title.value).Some?)
  }

  /** The provider part of a query search: every hit that is not suppressed,
      replaced by its details, in the provider's order; the first failed
      detail lookup aborts the search. */
  function ProviderHits(store: seq<Movie>, local: seq<Movie>, p: Provider, hits: seq<QueryResults>)
    : (r: Result<seq<QueryResults>>)
    ensures r.Err? ==> r.error == ProviderError
    ensures r.Ok? ==> |r.value| <= |hits|
  {
    if hits == [] then Ok([])
    else
      var last := hits[|hits| - 1];
      assert hits == hits[..|hits| - 1] + [last];
      match ProviderHits(store, local, p, hits[..|hits| - 1])
      case Err(e) => Err(e)
      case Ok(acc) =>
        if Suppressed(store, local, last) then Ok(acc)
        else match FetchMovieDetails(p, last)
          case Err(e) => Err(e)
          case Ok(d) => Ok(acc + [d])
  }

  /** The provider part fails exactly when the detail lookup of some
      unsuppressed hit cannot reach the provider. */
  lemma {:induction false} ProviderHitsFailsIff(store: seq<Movie>, local: seq<Movie>, p: Provider,
                                               hits: seq<QueryResults>)
    ensures ProviderHits(store, local, p, hits).Err? <==>
      exists h :: h in hits && !Suppressed(store, local, h) && p.byId(h.imdbID).Unreachable?
    decreases |hits|
  {
    if hits != [] {
      var init, last := hits[..|hits| - 1], hits[|hits| - 1];
      assert hits == init + [last];
      ProviderHitsFailsIff(store, local, p, init);
    }
  }

  /** A successful provider part holds the details of every unsuppressed
      hit, and nothing but such details. */
  lemma {:induction false} ProviderHitsContents(store: seq<Movie>, local: seq<Movie>, p: Provider,
                                               hits: seq<QueryResults>)
    requires ProviderHits(store, local, p, hits).Ok?
    ensures forall h :: h in hits && !Suppressed(store, local, h) ==>
      FetchMovieDetails(p, h).Ok? && FetchMovieDetails(p, h).value in ProviderHits(store, local, p, hits).value
    ensures forall d :: d in ProviderHits(store, local, p, hits).value ==>
      exists h :: h in hits && !Suppressed(store, local, h) && FetchMovieDetails(p, h) == Ok(d)
    decreases |hits|
  {
    if hits != [] {
      var init, last := hits[..|hits| - 1], hits[|hits| - 1];
      assert hits == init + [last];
      ProviderHitsContents(store, local, p, init);
    }
  }

  /** One more hit of the provider loop: a suppressed hit adds nothing, an
      unsuppressed one adds its detail or fails. */
  lemma ProviderHitsStep(store: seq<Movie>, local: seq<Movie>, p: Provider, hits: seq<QueryResults>, k: nat)
    requires k < |hits|
    ensures ProviderHits(store, local, p, hits[..k + 1]) ==
      match ProviderHits(store, local, p, hits[..k])
      case Err(e) => Err(e)
      case Ok(acc) =>
        if Suppressed(store, local, hits[k]) then Ok(acc)
        else match FetchMovieDetails(p, hits[k])
          case Err(e) => Err(e)
          case Ok(d) => Ok(acc + [d])
  {
    assert hits[..k + 1][..k] == hits[..k];
  }

  /** A suppressed hit leaves the provider part of a prefix as it was. */
  lemma ProviderHitsSkip(store: seq<Movie>, local: seq<Movie>, p: Provider, hits: seq<QueryResults>, k: nat,
                         found: seq<QueryResults>)
    requires k < |hits| && Suppressed(store, local, hits[k])
    requires ProviderHits(store, local, p, hits[..k]) == Ok(found)
    ensures ProviderHits(store, local, p, hits[..k + 1]) == Ok(found)
  {
    ProviderHitsStep(store, local, p, hits, k);
  }

  /** An unsuppressed hit whose details arrive adds them at the end. */
  lemma ProviderHitsExtend(store: seq<Movie>, local: seq<Movie>, p: Provider, hits: seq<QueryResults>, k: nat,
                           found: seq<QueryResults>)
    requires k < |hits| && !Suppressed(store, local, hits[k]) && FetchMovieDetails(p, hits[k]).Ok?
    requires ProviderHits(store, local, p, hits[..k]) == Ok(found)
    ensures ProviderHits(store, local, p, hits[..k + 1]) == Ok(found + [FetchMovieDetails(p, hits[k]).value])
  {
    ProviderHitsStep(store, local, p, hits, k);
  }

  /** Once a prefix of the hits has failed, the whole provider part fails. */
  lemma {:induction false} ProviderHitsFailurePersists(store: seq<Movie>, local: seq<Movie>, p: Provider,
                                                       hits: seq<QueryResults>, k: nat)
    requires k <= |hits|
    requires ProviderHits(store, local, p, hits[..k]).Err?
    ensures ProviderHits(store, local, p, hits) == ProviderHits(store, local, p, hits[..k])
    decreases |hits| - k
  {
    if k < |hits| {
      assert hits[..k + 1][..k] == hits[..k];
      ProviderHitsFailurePersists(store, local, p, hits, k + 1);
    } else {
      assert hits[..k] == hits;
    }
  }

  /** The provider loop over two stretches of hits is the loop over the
      first followed by the loop over the second: entries keep the
      provider's order, one per surviving hit, and the first failure wins. */
  lemma {:induction false} ProviderHitsAppend(store: seq<Movie>, local: seq<Movie>, p: Provider,
                                              a: seq<QueryResults>, b: seq<QueryResults>)
    ensures ProviderHits(store, local, p, a + b) ==
      match ProviderHits(store, local, p, a)
      case Err(e) => Err(e)
      case Ok(x) =>
        match ProviderHits(store, local, p, b)
        case Err(e) => Err(e)
        case Ok(y) => Ok(x + y)
    decreases |b|
  {
    if b == [] {
      assert a + b == a;
      match ProviderHits(store, local, p, a)
      case Err(_) =>
      case Ok(x) => assert x + [] == x;
    } else {
      var b' := b[..|b| - 1];
      assert (a + b)[..|a + b| - 1] == a + b';
      assert (a + b)[|a + b| - 1] == b[|b| - 1];
      ProviderHitsAppend(store, local, p, a, b');
      match ProviderHits(store, local, p, a)
      case Err(_) =>
      case Ok(x) =>
        match ProviderHits(store, local, p, b')
        case Err(_) =>
        case Ok(y) =>
          assert x + y + [] == x + y;
          assert forall d :: x + y + [d] == x + (y + [d]);
    }
  }

  /** The provider's contribution to a query search. */
  function QueryFromProvider(store: seq<Movie>, local: seq<Movie>, p: Provider, query: string)
    : (r: Result<seq<QueryResults>>)
    ensures r.Err? ==> r.error == ProviderError
    ensures p.search(query).Unreachable? ==> r == Err(ProviderError)
    ensures p.search(query) == Answer(None) ==> r == Ok([])
    ensures forall hits :: p.search(query) == Answer(Some(hits)) ==> r == ProviderHits(store, local, p, hits)
    ensures r.Ok? ==> forall d :: d in r.value ==>
      p.search(query).Answer? && p.search(query).body.Some?
      && exists h :: h in p.search(query).body.value && !Suppressed(store, local, h) && FetchMovieDetails(p, h) == Ok(d)
  {
    match p.search(query)
    case Unreachable => Err(ProviderError)
    case Answer(None) => Ok([])
    case Answer(Some(hits)) =>
      var found := ProviderHits(store, local, p, hits);
      if found.Ok? then ProviderHitsContents(store, local, p, hits); found else found
  }

  /** searchMovieByQuery: the active local title matches first, then the
      surviving provider hits. */
  function SearchByQuery(store: seq<Movie>, query: string, p: Provider): (r: Result<seq<QueryResults>>)
    ensures query == [] ==> r == Err(EmptyValue)
    ensures query != [] && p.search(query).Unreachable? ==> r == Err(ProviderError)
    ensures r.Ok? ==> r.value != []
  {
    if query == [] then Err(EmptyValue)
    else
      var local := FindByTitleContainingIgnoreCaseAndIsDeletedFalse(store, query);
      match QueryFromProvider(store, local, p, query)
      case Err(e) => Err(e)
      case Ok(found) =>
        var all := Projections(local) + found;
        if all == [] then Err(NotFound) else Ok(all)
  }

  /** A successful query search lists the local matches first, in store
      order, and after them only details of provider hits that no local
      match and no deleted record shares a title with. */
  lemma SearchByQueryMerge(store: seq<Movie>, query: string, p: Provider)
    requires SearchByQuery(store, query, p).Ok?
    ensures var r := SearchByQuery(store, query, p).value;
      var local := FindByTitleContainingIgnoreCaseAndIsDeletedFalse(store, query);
      |local| <= |r| && r[..|local|] == Projections(local)
      && QueryFromProvider(store, local, p, query).Ok?
      && r[|local|..] == QueryFromProvider(store, local, p, query).value
      && forall i :: |local| <= i < |r| ==>
           p.search(query).Answer? && p.search(query).body.Some?
           && exists h :: h in p.search(query).body.value && !Suppressed(store, local, h) && FetchMovieDetails(p, h) == Ok(r[i])
  {
    var r := SearchByQuery(store, query, p).value;
    var local := FindByTitleContainingIgnoreCaseAndIsDeletedFalse(store, query);
    var found := QueryFromProvider(store, local, p, query).value;
    assert r == Projections(local) + found;
    SplitConcat(Projections(local), found);
    forall i | |local| <= i < |r|
      ensures p.search(query).Answer? && p.search(query).body.Some?
      ensures exists h :: h in p.search(query).body.value && !Suppressed(store, local, h) && FetchMovieDetails(p, h) == Ok(r[i])
    {
      assert r[i] == found[i - |local|] && r[i] in found;
    }
  }

  /** Cutting a concatenation where its first part ends gives back both parts. */
  lemma SplitConcat<T>(x: seq<T>, y: seq<T>)
    ensures (x + y)[..|x|] == x && (x + y)[|x|..] == y
  {
  }

  /** The query search is empty (NotFound) exactly when there is no active
      local match and the provider contributes nothing. */
  lemma SearchByQueryNotFound(store: seq<Movie>, query: string, p: Provider)
    ensures SearchByQuery(store, query, p) == Err(NotFound) <==>
      query != [] && FindByTitleContainingIgnoreCaseAndIsDeletedFalse(store, query) == []
      && QueryFromProvider(store, [], p, query) == Ok([])
  {
  }

  /** The genre test of searchMovieByCategory: a case-sensitive substring. */
  predicate InCategory(m: Movie, category: string)
  {
    m.genre.Some? && Contains(m.genre.value, category)
  }

  /** The local part of a category search: the local matches in the
      category, in store order; a match without a genre is dereferenced
      and fails. */
  function LocalInCategory(local: seq<Movie>, category: string): (r: Result<seq<Movie>>)
    ensures r.Err? <==> exists m :: m in local && m.genre.None?
    ensures r.Err? ==> r.error == NullValue
    ensures r.Ok? ==> |r.value| <= |local|
    ensures r.Ok? ==> forall m :: m in r.value <==> m in local && InCategory(m, category)
  {
    if local == [] then Ok([])
    else
      var last := local[|local| - 1];
      assert local == local[..|local| - 1] + [last];
      match LocalInCategory(local[..|local| - 1], category)
      case Err(e) => Err(e)
      case Ok(acc) =>
        if last.genre.None? then Err(NullValue)
        else if Contains(last.genre.value, category) then Ok(acc + [last])
        else Ok(acc)
  }

  /** The local filter over two stretches of matches is the filter over the
      first followed by the filter over the second: store order and
      multiplicity are kept. */
  lemma {:induction false} LocalInCategoryAppend(a: seq<Movie>, b: seq<Movie>, category: string)
    ensures LocalInCategory(a + b, category) ==
      match LocalInCategory(a, category)
      case Err(e) => Err(e)
      case Ok(x) =>
        match LocalInCategory(b, category)
        case Err(e) => Err(e)
        case Ok(y) => Ok(x + y)
    decreases |b|
  {
    if b == [] {
      assert a + b == a;
      match LocalInCategory(a, category)
      case Err(_) =>
      case Ok(x) => assert x + [] == x;
    } else {
      var b' := b[..|b| - 1];
      assert (a + b)[..|a + b| - 1] == a + b';
      assert (a + b)[|a + b| - 1] == b[|b| - 1];
      LocalInCategoryAppend(a, b', category);
      match LocalInCategory(a, category)
      case Err(_) =>
      case Ok(x) =>
        match LocalInCategory(b', category)
        case Err(_) =>
        case Ok(y) =>
          assert x + y + [] == x + y;
          assert forall m :: x + y + [m] == x + (y + [m]);
    }
  }

  /** The provider part of a category search: the details of every hit, kept
      when in the category, in the provider's order. A failed lookup is a
      provider error; a missing record or genre is dereferenced and fails. */
  function ProviderInCategory(p: Provider, hits: seq<QueryResults>, category: string): (r: Result<seq<Movie>>)
    ensures r.Err? ==> r.error == ProviderError || r.error == NullValue
    ensures r.Ok? ==> |r.value| <= |hits|
    ensures r.Ok? <==> forall h :: h in hits ==>
      GetMovieDetails(p, h.imdbID).Answer? && GetMovieDetails(p, h.imdbID).body.Some?
      && GetMovieDetails(p, h.imdbID).body.value.genre.Some?
    ensures r.Ok? ==> forall m :: m in r.value <==>
      InCategory(m, category) && exists h :: h in hits && GetMovieDetails(p, h.imdbID) == Answer(Some(m))
  {
    if hits == [] then Ok([])
    else
      var last := hits[|hits| - 1];
      assert hits == hits[..|hits| - 1] + [last];
      match ProviderInCategory(p, hits[..|hits| - 1], category)
      case Err(e) => Err(e)
      case Ok(acc) =>
        match GetMovieDetails(p, last.imdbID)
        case Unreachable => Err(ProviderError)
        case Answer(None) => Err(NullValue)
        case Answer(Some(m)) =>
          if m.genre.None? then Err(NullValue)
          else if Contains(m.genre.value, category) then Ok(acc + [m])
          else Ok(acc)
  }

  /** The provider stream over two stretches of hits is the stream over the
      first followed by the stream over the second: provider order and
      multiplicity are kept, and the first failure wins. */
  lemma {:induction false} ProviderInCategoryAppend(p: Provider, a: seq<QueryResults>, b: seq<QueryResults>,
                                                    category: string)
    ensures ProviderInCategory(p, a + b, category) ==
      match ProviderInCategory(p, a, category)
      case Err(e) => Err(e)
      case Ok(x) =>
        match ProviderInCategory(p, b, category)
        case Err(e) => Err(e)
        case Ok(y) => Ok(x + y)
    decreases |b|
  {
    if b == [] {
      assert a + b == a;
      match ProviderInCategory(p, a, category)
      case Err(_) =>
      case Ok(x) => assert x + [] == x;
    } else {
      var b' := b[..|b| - 1];
      assert (a + b)[..|a + b| - 1] == a + b';
      assert (a + b)[|a + b| - 1] == b[|b| - 1];
      ProviderInCategoryAppend(p, a, b', category);
      match ProviderInCategory(p, a, category)
      case Err(_) =>
      case Ok(x) =>
        match ProviderInCategory(p, b', category)
        case Err(_) =>
        case Ok(y) =>
          assert x + y + [] == x + y;
          assert forall m :: x + y + [m] == x + (y + [m]);
    }
  }

  /** Once a prefix of the hits has failed, the whole provider part fails. */
  lemma {:induction false} ProviderInCategoryFailurePersists(p: Provider, hits: seq<QueryResults>, category: string, k: nat)
    requires k <= |hits|
    requires ProviderInCategory(p, hits[..k], category).Err?
    ensures ProviderInCategory(p, hits, category) == ProviderInCategory(p, hits[..k], category)
    decreases |hits| - k
  {
    if k < |hits| {
      assert hits[..k + 1][..k] == hits[..k];
      ProviderInCategoryFailurePersists(p, hits, category, k + 1);
    } else {
      assert hits[..k] == hits;
    }
  }

  /** The provider's contribution to a category search. */
  function CategoryFromProvider(p: Provider, query: string, category: string): (r: Result<seq<Movie>>)
    ensures p.search(query).Unreachable? ==> r == Err(ProviderError)
    ensures p.search(query) == Answer(None) ==> r == Ok([])
    ensures forall hits :: p.search(query) == Answer(Some(hits)) ==> r == ProviderInCategory(p, hits, category)
    ensures r.Ok? ==> forall m :: m in r.value ==> InCategory(m, category)
  {
    match p.search(query)
    case Unreachable => Err(ProviderError)
    case Answer(None) => Ok([])
    case Answer(Some(hits)) => ProviderInCategory(p, hits, category)
  }

  /** searchMovieByCategory: the local matches in the category followed by
      the provider's records in the category. */
  function SearchByCategory(store: seq<Movie>, query: string, category: string, p: Provider): (r: Result<seq<Movie>>)
    ensures query == [] || category == [] ==> r == Err(EmptyValue)
    ensures r.Ok? ==> r.value != [] && forall m :: m in r.value ==> InCategory(m, category)
    ensures r.Ok? ==> forall m :: (m in FindByTitleContainingIgnoreCaseAndIsDeletedFalse(store, query)
      && InCategory(m, category)) ==> m in r.value
  {
    if query == [] || category == [] then Err(EmptyValue)
    else
      var local := FindByTitleContainingIgnoreCaseAndIsDeletedFalse(store, query);
      match LocalInCategory(local, category)
      case Err(e) => Err(e)
      case Ok(inDb) =>
        match CategoryFromProvider(p, query, category)
        case Err(e) => Err(e)
        case Ok(found) =>
          var all := inDb + found;
          if all == [] then Err(NotFound) else Ok(all)
  }

  /** A successful category search is exactly the local part followed by the
      provider part: nothing is merged or dropped between them. */
  lemma SearchByCategoryConcatenates(store: seq<Movie>, query: string, category: string, p: Provider)
    requires SearchByCategory(store, query, category, p).Ok?
    ensures var local := FindByTitleContainingIgnoreCaseAndIsDeletedFalse(store, query);
      LocalInCategory(local, category).Ok? && CategoryFromProvider(p, query, category).Ok?
      && SearchByCategory(store, query, category, p).value
         == LocalInCategory(local, category).value + CategoryFromProvider(p, query, category).value
  {
  }

  /** The category search is empty (NotFound) exactly when both inputs are
      non-empty and neither the local part nor the provider part finds
      anything. */
  lemma SearchByCategoryNotFound(store: seq<Movie>, query: string, category: string, p: Provider)
    ensures SearchByCategory(store, query, category, p) == Err(NotFound) <==>
      query != [] && category != []
      && LocalInCategory(FindByTitleContainingIgnoreCaseAndIsDeletedFalse(store, query), category) == Ok([])
      && CategoryFromProvider(p, query, category) == Ok([])
  {
  }

  /** The category search does not de-duplicate: a local match in the
      category that the provider also returns appears twice. */
  lemma CategoryKeepsDuplicates(store: seq<Movie>, query: string, category: string, p: Provider,
                                m: Movie, h: QueryResults)
    requires SearchByCategory(store, query, category, p).Ok?
    requires m in FindByTitleContainingIgnoreCaseAndIsDeletedFalse(store, query) && InCategory(m, category)
    requires p.search(query).Answer? && p.search(query).body.Some? && h in p.search(query).body.value
    requires GetMovieDetails(p, h.imdbID) == Answer(Some(m))
    ensures var r := SearchByCategory(store, query, category, p).value;
      exists i, j :: 0 <= i < j < |r| && r[i] == m && r[j] == m
  {
    SearchByCategoryConcatenates(store, query, category, p);
    var local := FindByTitleContainingIgnoreCaseAndIsDeletedFalse(store, query);
    var inDb := LocalInCategory(local, category).value;
    var found := CategoryFromProvider(p, query, category).value;
    assert m in found by {
      var hits := p.search(query).body.value;
      assert CategoryFromProvider(p, query, category) == ProviderInCategory(p, hits, category);
      assert h in hits && GetMovieDetails(p, h.imdbID) == Answer(Some(m));
    }
    TwiceInConcat(inDb, found, m);
  }

  /** An element of both parts occurs twice in their concatenation. */
  lemma TwiceInConcat<T>(x: seq<T>, y: seq<T>, m: T)
    requires m in x && m in y
    ensures exists i, j :: 0 <= i < j < |x + y| && (x + y)[i] == m && (x + y)[j] == m
  {
    var i :| 0 <= i < |x| && x[i] == m;
    var j :| 0 <= j < |y| && y[j] == m;
    assert (x + y)[i] == m && (x + y)[|x| + j] == m;
  }
}
