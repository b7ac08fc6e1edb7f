/** Search strategies and the factory that picks one by a case-insensitive search-type name. */
module Strategies {

  import opened Wrappers
  import opened Text
  import opened Books
  import opened Repository

  datatype SearchStrategy = TitleSearch | AuthorSearch | IsbnSearch

  const UnknownSearchPrefix := "Unknown search type: "

  /** `SearchStrategyFactory.getSearchStrategy`: only the lower-cased key matters; an unknown key is an error naming it as given. */
  function GetSearchStrategy(searchType: string): (r: Result<SearchStrategy>)
    ensures r == Ok(TitleSearch) <==> MatchesIgnoringCase(searchType, "title")
    ensures r == Ok(AuthorSearch) <==> MatchesIgnoringCase(searchType, "author")
    ensures r == Ok(IsbnSearch) <==> MatchesIgnoringCase(searchType, "isbn")
    ensures r.Err? ==> r.error == UnknownSearchPrefix + searchType
  {
    ToLowerMatches(searchType, "title");
    ToLowerMatches(searchType, "author");
    ToLowerMatches(searchType, "isbn");
    var key := ToLower(searchType);
    if key == "title" then Ok(TitleSearch)
    else if key == "author" then Ok(AuthorSearch)
    else if key == "isbn" then Ok(IsbnSearch)
    else Err(UnknownSearchPrefix + searchType)
  }

  /** Keys that agree once lower-cased select the same strategy (or fail alike). */
  lemma SameLowerCaseSameStrategy(a: string, b: string)
    requires ToLower(a) == ToLower(b)
    ensures GetSearchStrategy(a).Ok? == GetSearchStrategy(b).Ok?
    ensures GetSearchStrategy(a).Ok? ==> GetSearchStrategy(a) == GetSearchStrategy(b)
  {
  }

  /** An optional lookup result as a list: empty, or the one record found. */
  function AsList(found: Option<Book>): (r: seq<Book>)
    ensures |r| <= 1
    ensures r == [] <==> found.None?
    ensures forall b :: b in r <==> found == Some(b)
  {
    match found
    case Some(b) => [b]
    case None => []
  }

  /**
   * `IsbnSearchStrategy.search`: the term goes to the store's exact ISBN lookup unchanged; the
   * answer has at most one record, which holds that ISBN and is the stored record.
   */
  function SearchByIsbn(term: string, store: Store): (r: Result<seq<Book>>)
    requires store.Valid()
    ensures r.Ok? ==> |r.value| <= 1
    ensures r.Ok? ==> forall b :: b in r.value ==>
      b.id.Some? && store.HoldsIsbn(b.id.value, term) && store.books[b.id.value] == b
    ensures r == Ok([]) <==> forall i :: !store.HoldsIsbn(i, term)
    ensures r.Err? <==> exists i, j :: i != j && store.HoldsIsbn(i, term) && store.HoldsIsbn(j, term)
  {
    match store.FindByIsbn(term)
    case Err(e) => Err(e)
    case Ok(found) => Ok(AsList(found))
  }

  /** Runs a strategy against the repository; title and author matching are the store's own queries. */
  function Search(strategy: SearchStrategy, term: string, repository: BookRepository): (r: Result<seq<Book>>)
    reads repository
    requires repository.store.Valid()
    ensures strategy != IsbnSearch ==> r.Ok?
    ensures strategy == TitleSearch ==> r.value == repository.findByTitleContainingIgnoreCase(repository.store.books, term)
    ensures strategy == AuthorSearch ==> r.value == repository.findByAuthor(repository.store.books, term)
    ensures strategy == IsbnSearch ==> r == SearchByIsbn(term, repository.store)
  {
    match strategy
    case TitleSearch => Ok(repository.findByTitleContainingIgnoreCase(repository.store.books, term))
    case AuthorSearch => Ok(repository.findByAuthor(repository.store.books, term))
    case IsbnSearch => SearchByIsbn(term, repository.store)
  }
}
