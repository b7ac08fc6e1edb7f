/**
 * The backing store, kept abstract: a map from identifier to record plus a counter that hands
 * out fresh identifiers. The queries the store answers by itself (all records, by author, by
 * title fragment) are parameters of the repository.
 */
module Repository {

  import opened Wrappers
  import opened Books

  /** Message of the exception a single-result query raises when several records match. */
  const IncorrectResultSize := "IncorrectResultSizeDataAccessException"

  datatype Store = Store(books: map<Id, Book>, nextId: Id) {

    /** Every record is filed under its own identifier, and the counter is past every identifier in use. */
    ghost predicate Valid() {
      forall id :: id in books ==> id < nextId && books[id].id == Some(id)
    }

    /** `findById`. */
    function FindById(id: Id): (r: Option<Book>)
      ensures r.Some? <==> id in books
      ensures r.Some? ==> r.value == books[id]
    {
      if id in books then Some(books[id]) else None
    }

    /**
     * `save`: a record without an identifier gets the next fresh one; a record with one is
     * written under it, replacing whatever was there.
     */
    function Save(b: Book): (r: (Store, Book))
      ensures r.1.id.Some? && r.0.books == books[r.1.id.value := r.1]
      ensures b.id.None? ==> r.1 == b.(id := Some(nextId)) && r.0.nextId == nextId + 1
      ensures b.id.Some? ==> r.1 == b
      ensures Valid() && b.id.None? ==> r.1.id.value !in books
      ensures Valid() ==> r.0.Valid()
    {
      match b.id
      case None =>
        var saved := b.(id := Some(nextId));
        (Store(books[nextId := saved], nextId + 1), saved)
      case Some(id) =>
        (Store(books[id := b], if id < nextId then nextId else id + 1), b)
    }

    /** `deleteById`: removes the record if there is one, and does nothing otherwise. */
    function DeleteById(id: Id): (r: Store)
      ensures r.books == books - {id} && r.nextId == nextId
      ensures Valid() ==> r.Valid()
    {
      Store(books - {id}, nextId)
    }

    predicate HoldsIsbn(id: Id, isbn: string) {
      id in books && books[id].isbn == Some(isbn)
    }

    /** The smallest identifier from `from` on whose record has exactly this ISBN. */
    function IsbnHolderFrom(isbn: string, from: Id): (r: Option<Id>)
      ensures r.Some? ==> from <= r.value < nextId && HoldsIsbn(r.value, isbn)
      ensures r.Some? ==> forall j :: from <= j < r.value ==> !HoldsIsbn(j, isbn)
      ensures r.None? ==> forall j :: from <= j < nextId ==> !HoldsIsbn(j, isbn)
      decreases if from < nextId then nextId - from else 0
    {
      if from >= nextId then None
      else if HoldsIsbn(from, isbn) then Some(from)
      else IsbnHolderFrom(isbn, from + 1)
    }

    /**
     * `findByIsbn`: an exact match on the ISBN; no match gives nothing, and a second match makes
     * the single-result query fail.
     */
    function FindByIsbn(isbn: string): (r: Result<Option<Book>>)
      requires Valid()
      ensures r.Err? <==> exists i, j :: i != j && HoldsIsbn(i, isbn) && HoldsIsbn(j, isbn)
      ensures r == Ok(None) <==> forall i :: !HoldsIsbn(i, isbn)
      ensures r.Ok? && r.value.Some? ==>
        r.value.value.id.Some? && HoldsIsbn(r.value.value.id.value, isbn) && books[r.value.value.id.value] == r.value.value
    {
      match IsbnHolderFrom(isbn, 0)
      case None => Ok(None)
      case Some(i) =>
        match IsbnHolderFrom(isbn, i + 1)
        case Some(_) => Err(IncorrectResultSize)
        case None => Ok(Some(books[i]))
    }
  }

  /** The repository object that the service and every command share. */
  class BookRepository {
    var store: Store
    const findAll: map<Id, Book> -> seq<Book>
    const findByAuthor: (map<Id, Book>, string) -> seq<Book>
    const findByTitleContainingIgnoreCase: (map<Id, Book>, string) -> seq<Book>

    constructor (
      findAll: map<Id, Book> -> seq<Book>,
      findByAuthor: (map<Id, Book>, string) -> seq<Book>,
      findByTitleContainingIgnoreCase: (map<Id, Book>, string) -> seq<Book>)
      ensures store == Store(map[], 1) && store.Valid()
      ensures this.findAll == findAll && this.findByAuthor == findByAuthor
      ensures this.findByTitleContainingIgnoreCase == findByTitleContainingIgnoreCase
    {
      store := Store(map[], 1);
      this.findAll := findAll;
      this.findByAuthor := findByAuthor;
      this.findByTitleContainingIgnoreCase := findByTitleContainingIgnoreCase;
    }

    method Save(b: Book) returns (saved: Book)
      modifies this
      ensures (store, saved) == old(store).Save(b)
    {
      var (next, result) := store.Save(b);
      store, saved := next, result;
    }

    method DeleteById(id: Id)
      modifies this
      ensures store == old(store).DeleteById(id)
    {
      store := store.DeleteById(id);
    }
  }
}
