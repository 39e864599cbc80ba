/** The derived queries of the movie repository, as read-only functions over
    the sequence of stored records (in the store's retrieval order). A query
    that returns one record returns its position, so that callers can update
    that record in place; several matches yield the first. */
module Repository {
  import opened Common
  import opened Text
  import opened Entities

  /** The property a derived query filters on. */
  datatype Query =
    | TitleContaining(text: string, deleted: bool)   // ...TitleContainingIgnoreCaseAndIsDeleted<deleted>
    | TitleIs(text: string, deleted: bool)           // ...TitleIgnoreCaseAndIsDeleted<deleted>
    | ImdbIdIs(id: string, deleted: bool)            // ...ImdbIDAndIsDeleted<deleted>
    | TitleIsAnyFlag(text: string)                   // ...TitleIgnoreCase

  /** Title equal to `t` ignoring case; a null title never matches. */
  predicate TitleMatches(m: Movie, t: string)
  {
    m.title.Some? && EqualsIgnoreCase(m.title.value, t)
  }

  /** Title contains `t` ignoring case; a null title never matches. */
  predicate TitleContains(m: Movie, t: string)
  {
    m.title.Some? && ContainsIgnoreCase(m.title.value, t)
  }

  predicate Matches(q: Query, m: Movie)
  {
    match q
    case TitleContaining(t, d) => TitleContains(m, t) && m.isDeleted == d
    case TitleIs(t, d) => TitleMatches(m, t) && m.isDeleted == d
    case ImdbIdIs(id, d) => m.imdbID == Some(id) && m.isDeleted == d
    case TitleIsAnyFlag(t) => TitleMatches(m, t)
  }

  /** Position of the first record matching `q`, if any. */
  function FirstMatch(store: seq<Movie>, q: Query): (r: Option<nat>)
    ensures r.Some? ==> r.value < |store| && Matches(q, store[r.value])
    ensures r.Some? ==> forall j :: 0 <= j < r.value ==> !Matches(q, store[j])
    ensures r.None? <==> forall j :: 0 <= j < |store| ==> !Matches(q, store[j])
  {
    if store == [] then None
    else if Matches(q, store[0]) then Some(0)
    else match FirstMatch(store[1..], q)
      case None => None
      case Some(k) => Some(k + 1)
  }

  /** All records matching `q`, in store order. */
  function AllMatches(store: seq<Movie>, q: Query): (r: seq<Movie>)
    ensures |r| <= |store|
    ensures forall m :: m in r <==> m in store && Matches(q, m)
    ensures r == [] <==> FirstMatch(store, q).None?
    ensures r != [] ==> r[0] == store[FirstMatch(store, q).value]
  {
    if store == [] then []
    else if Matches(q, store[0]) then [store[0]] + AllMatches(store[1..], q)
    else AllMatches(store[1..], q)
  }

  /** The matches in a concatenation are the matches of the first part
      followed by those of the second: AllMatches keeps store order. */
  lemma {:induction false} AllMatchesAppend(a: seq<Movie>, b: seq<Movie>, q: Query)
    ensures AllMatches(a + b, q) == AllMatches(a, q) + AllMatches(b, q)
  {
    if a == [] {
      assert a + b == b;
    } else {
      assert (a + b)[0] == a[0];
      assert (a + b)[1..] == a[1..] + b;
      AllMatchesAppend(a[1..], b, q);
      if Matches(q, a[0]) {
        calc {
          AllMatches(a + b, q);
          [a[0]] + AllMatches(a[1..] + b, q);
          [a[0]] + (AllMatches(a[1..], q) + AllMatches(b, q));
          ([a[0]] + AllMatches(a[1..], q)) + AllMatches(b, q);
        }
      }
    }
  }

  function FindByTitleContainingIgnoreCaseAndIsDeletedFalse(store: seq<Movie>, title: string): (r: seq<Movie>)
    ensures forall m :: m in r <==> m in store && !m.isDeleted && TitleContains(m, title)
    ensures r != [] ==>
      (exists i :: 0 <= i < |store| && r[0] == store[i] && !store[i].isDeleted && TitleContains(store[i], title)
        && forall j :: 0 <= j < i ==> !(!store[j].isDeleted && TitleContains(store[j], title)))
  {
    AllMatches(store, TitleContaining(title, false))
  }

  function FindByTitleIgnoreCaseAndIsDeletedTrue(store: seq<Movie>, title: string): (r: Option<nat>)
    ensures r.Some? ==> r.value < |store| && store[r.value].isDeleted && TitleMatches(store[r.value], title)
    ensures r.None? <==> forall j :: 0 <= j < |store| ==> !(store[j].isDeleted && TitleMatches(store[j], title))
  {
    FirstMatch(store, TitleIs(title, true))
  }

  function FindByTitleContainingIgnoreCaseAndIsDeletedTrue(store: seq<Movie>, title: string): (r: Option<nat>)
    ensures r.Some? ==> r.value < |store| && store[r.value].isDeleted && TitleContains(store[r.value], title)
    ensures r.None? <==> forall j :: 0 <= j < |store| ==> !(store[j].isDeleted && TitleContains(store[j], title))
  {
    FirstMatch(store, TitleContaining(title, true))
  }

  function FindByTitleIgnoreCaseAndIsDeletedFalse(store: seq<Movie>, title: string): (r: Option<nat>)
    ensures r.Some? ==> r.value < |store| && !store[r.value].isDeleted && TitleMatches(store[r.value], title)
    ensures r.None? <==> forall j :: 0 <= j < |store| ==> !(!store[j].isDeleted && TitleMatches(store[j], title))
  {
    FirstMatch(store, TitleIs(title, false))
  }

  function FindByImdbIDAndIsDeletedFalse(store: seq<Movie>, imdbID: string): (r: Option<nat>)
    ensures r.Some? ==> r.value < |store| && !store[r.value].isDeleted && store[r.value].imdbID == Some(imdbID)
    ensures r.None? <==> forall j :: 0 <= j < |store| ==> !(!store[j].isDeleted && store[j].imdbID == Some(imdbID))
  {
    FirstMatch(store, ImdbIdIs(imdbID, false))
  }

  function FindByImdbIDAndIsDeletedTrue(store: seq<Movie>, imdbID: string): (r: Option<nat>)
    ensures r.Some? ==> r.value < |store| && store[r.value].isDeleted && store[r.value].imdbID == Some(imdbID)
    ensures r.None? <==> forall j :: 0 <= j < |store| ==> !(store[j].isDeleted && store[j].imdbID == Some(imdbID))
  {
    FirstMatch(store, ImdbIdIs(imdbID, true))
  }

  /** True iff some record, active or deleted, has this title ignoring case. */
  function ExistsByTitleIgnoreCase(store: seq<Movie>, title: string): (r: bool)
    ensures r <==> exists j :: 0 <= j < |store| && TitleMatches(store[j], title)
  {
    FirstMatch(store, TitleIsAnyFlag(title)).Some?
  }

  /** True iff some active record has exactly this ID. */
  function ExistsByImdbIDAndIsDeletedFalse(store: seq<Movie>, imdbID: string): (r: bool)
    ensures r <==> exists j :: 0 <= j < |store| && !store[j].isDeleted && store[j].imdbID == Some(imdbID)
  {
    FindByImdbIDAndIsDeletedFalse(store, imdbID).Some?
  }

  /** The active and the deleted variant of a query never return the same record. */
  lemma ActiveAndDeletedVariantsDisjoint(store: seq<Movie>, title: string, imdbID: string)
    ensures var d := FindByTitleContainingIgnoreCaseAndIsDeletedTrue(store, title);
      d.Some? ==> store[d.value] !in FindByTitleContainingIgnoreCaseAndIsDeletedFalse(store, title)
    ensures FindByTitleIgnoreCaseAndIsDeletedTrue(store, title).None?
      || FindByTitleIgnoreCaseAndIsDeletedTrue(store, title) != FindByTitleIgnoreCaseAndIsDeletedFalse(store, title)
    ensures FindByImdbIDAndIsDeletedTrue(store, imdbID).None?
      || FindByImdbIDAndIsDeletedTrue(store, imdbID) != FindByImdbIDAndIsDeletedFalse(store, imdbID)
  {
  }
}
