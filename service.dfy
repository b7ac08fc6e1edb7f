/**
 * The catalog service: reads go straight to the store or to a search strategy; creates and
 * deletes are validated, wrapped in a command and run through the operation log; updates are
 * written directly and are not undoable.
 */
module Service {

  import opened Wrappers
  import opened Text
  import opened Books
  import opened Repository
  import opened Validation
  import opened Builder
  import opened Strategies
  import opened Commands
  import opened Invoker

  class BookService {
    const repository: BookRepository
    const invoker: CommandInvoker
    /** `UpdateBookValidator.validate`; its source is not part of this model, so it is a parameter. */
    const updateValidator: Book -> Outcome

    /** The store is consistent and every logged command works on this service's store. */
    ghost predicate Valid()
      reads this, repository, invoker
    {
      && repository.store.Valid()
      && forall c :: c in invoker.history ==> c.Repository() == repository
    }

    constructor (repository: BookRepository, invoker: CommandInvoker, updateValidator: Book -> Outcome)
      requires repository.store.Valid()
      requires forall c :: c in invoker.history ==> c.Repository() == repository
      ensures this.repository == repository && this.invoker == invoker
      ensures this.updateValidator == updateValidator
      ensures Valid()
    {
      this.repository := repository;
      this.invoker := invoker;
      this.updateValidator := updateValidator;
    }

    // ------------------------------------------------------------------------ reads

    function GetAllBooks(): seq<Book>
      reads repository
    {
      repository.findAll(repository.store.books)
    }

    function GetBookById(id: Id): (r: Option<Book>)
      reads repository
      ensures r.Some? <==> id in repository.store.books
      ensures r.Some? ==> r.value == repository.store.books[id]
    {
      repository.store.FindById(id)
    }

    /** Dispatches on the search type, case-insensitively; an unknown type is an error. */
    function SearchBooks(searchType: string, searchTerm: string): (r: Result<seq<Book>>)
      reads repository
      requires repository.store.Valid()
      ensures GetSearchStrategy(searchType).Err? ==> r == Err(UnknownSearchPrefix + searchType)
      ensures MatchesIgnoringCase(searchType, "title") ==>
        r == Ok(repository.findByTitleContainingIgnoreCase(repository.store.books, searchTerm))
      ensures MatchesIgnoringCase(searchType, "author") ==>
        r == Ok(repository.findByAuthor(repository.store.books, searchTerm))
      ensures MatchesIgnoringCase(searchType, "isbn") ==> r == SearchByIsbn(searchTerm, repository.store)
    {
      match GetSearchStrategy(searchType)
      case Err(e) => Err(e)
      case Ok(strategy) => Search(strategy, searchTerm, repository)
    }

    /**
     * The first (and only) record of the ISBN search: the stored record holding exactly that
     * ISBN, nothing when no record holds it, and the store's error when several do.
     */
    function GetBookByIsbn(isbn: string): (r: Result<Option<Book>>)
      reads repository
      requires repository.store.Valid()
      ensures r.Ok? && r.value.Some? ==>
        var b := r.value.value;
        b.id.Some? && repository.store.HoldsIsbn(b.id.value, isbn) && repository.store.books[b.id.value] == b
      ensures r == Ok(None) <==> forall i :: !repository.store.HoldsIsbn(i, isbn)
      ensures r.Err? <==>
        exists i, j :: i != j && repository.store.HoldsIsbn(i, isbn) && repository.store.HoldsIsbn(j, isbn)
    {
      match SearchBooks("isbn", isbn)
      case Err(e) => Err(e)
      case Ok(books) => Ok(if books == [] then None else Some(books[0]))
    }

    function GetBooksByAuthor(author: string): (r: Result<seq<Book>>)
      reads repository
      requires repository.store.Valid()
      ensures r == SearchBooks("author", author)
      ensures r == Ok(repository.findByAuthor(repository.store.books, author))
    {
      SearchBooks("author", author)
    }

    function SearchBooksByTitle(title: string): (r: Result<seq<Book>>)
      reads repository
      requires repository.store.Valid()
      ensures r == SearchBooks("title", title)
      ensures r == Ok(repository.findByTitleContainingIgnoreCase(repository.store.books, title))
    {
      SearchBooks("title", title)
    }

    // ------------------------------------------------------------------------ writes

    /**
     * The effect of `saveBook(book)` returning `r`: a book the standard validator refuses
     * changes nothing and reports the validator's message; an accepted one is saved through a
     * new Save command appended to the log, and the stored record is returned.
     */
    twostate predicate SaveEffect(book: Option<Book>, new r: Result<Book>)
      reads this, repository, invoker, set c | c in invoker.history :: c.Object()
    {
      var verdict := ValidateStandard(book);
      && (verdict.Fail? ==>
            && r == Err(verdict.error)
            && repository.store == old(repository.store)
            && invoker.history == old(invoker.history))
      && (verdict.Pass? ==>
            && r.Ok?
            && (repository.store, r.value) == old(repository.store).Save(book.value)
            && |invoker.history| == |old(invoker.history)| + 1
            && invoker.history[..|old(invoker.history)|] == old(invoker.history)
            && var last := invoker.history[|invoker.history| - 1];
               last.Save? && fresh(last.saveCommand) && last.saveCommand.repository == repository
               && last.State() == SaveState(book, r.value.id))
    }

    method SaveBook(book: Option<Book>) returns (r: Result<Book>)
      requires Valid()
      modifies repository, invoker
      ensures Valid()
      ensures SaveEffect(book, r)
    {
      var kind := GetValidator("standard");
      assert kind == Ok(StandardValidator);
      var verdict := ValidateStandard(book);
      if verdict.Fail? {
        return Err(verdict.error);
      }
      var savedId := LogSave(book.value);
      var found := repository.store.FindById(savedId);
      r := Ok(found.GetOr(book.value));
    }

    /** Wraps a book in a new Save command and runs it through the log; a present book always saves. */
    method LogSave(book: Book) returns (savedId: Id)
      requires Valid()
      modifies repository, invoker
      ensures Valid()
      ensures var (store, saved) := old(repository.store).Save(book);
        repository.store == store && saved.id == Some(savedId)
      ensures |invoker.history| == |old(invoker.history)| + 1
      ensures invoker.history[..|old(invoker.history)|] == old(invoker.history)
      ensures var last := invoker.history[|invoker.history| - 1];
        last.Save? && fresh(last.saveCommand) && last.saveCommand.repository == repository
        && last.State() == SaveState(Some(book), Some(savedId))
    {
      var command := new SaveBookCommand(repository, Some(book));
      var outcome := invoker.ExecuteCommand(Save(command));
      assert outcome.Pass?;
      savedId := command.savedBookId.value;
    }

    /**
     * Builds the book from the request fields, applies the builder's presence checks (title,
     * author, ISBN) and then saves it as `SaveBook` does. A null price is kept as null.
     */
    method SaveBookWithBuilder(
      title: Option<string>, author: Option<string>, isbn: Option<string>,
      publicationYear: Option<int>, price: Option<real>)
      returns (r: Result<Book>)
      requires Valid()
      modifies repository, invoker
      ensures Valid()
      ensures FirstFailure(RequiredRules(title, author, isbn)).Fail? ==>
        && r == Err(FirstFailure(RequiredRules(title, author, isbn)).error)
        && repository.store == old(repository.store)
        && invoker.history == old(invoker.history)
      ensures FirstFailure(RequiredRules(title, author, isbn)).Pass? ==>
        SaveEffect(Some(Book(None, title, author, isbn, publicationYear, price)), r)
    {
      var builder := new BookBuilder();
      builder := builder.Title(title);
      builder := builder.Author(author);
      builder := builder.Isbn(isbn);
      builder := builder.PublicationYear(publicationYear);
      builder := builder.Price(price);
      var checked := builder.Validate();
      RequiredRulesFailWhenBlank(title, author, isbn);
      if checked.Err? {
        return Err(checked.error);
      }
      var book := checked.value.Build();
      assert book == Book(None, title, author, isbn, publicationYear, price);
      r := SaveBook(Some(book));
    }

    /**
     * `saveBookWithBuilder` as written: a null `Double` price is unboxed for the `double`
     * overload of the builder's price setter and throws before anything else happens.
     */
    method SaveBookWithBuilderAsWritten(
      title: Option<string>, author: Option<string>, isbn: Option<string>,
      publicationYear: Option<int>, price: Option<real>)
      returns (r: Result<Book>)
      requires Valid()
      modifies repository, invoker
      ensures Valid()
      ensures price.None? ==>
        && r == Err(NullPointer)
        && repository.store == old(repository.store)
        && invoker.history == old(invoker.history)
      ensures price.Some? && FirstFailure(RequiredRules(title, author, isbn)).Fail? ==>
        && r == Err(FirstFailure(RequiredRules(title, author, isbn)).error)
        && repository.store == old(repository.store)
        && invoker.history == old(invoker.history)
      ensures price.Some? && FirstFailure(RequiredRules(title, author, isbn)).Pass? ==>
        SaveEffect(Some(Book(None, title, author, isbn, publicationYear, price)), r)
    {
      if price.None? {
        return Err(NullPointer);
      }
      r := SaveBookWithBuilder(title, author, isbn, publicationYear, price);
    }

    /**
     * Overwrites the five descriptive fields of an existing record in place and saves it,
     * keeping its id. The log is not involved, so an update cannot be undone.
     */
    method UpdateBook(id: Id, bookDetails: Book) returns (r: Result<Book>)
      requires Valid()
      modifies repository
      ensures Valid()
      ensures invoker.history == old(invoker.history)
      ensures id !in old(repository.store.books) ==>
        r == Err(NotFoundPrefix + NatToString(id)) && repository.store == old(repository.store)
      ensures id in old(repository.store.books) && updateValidator(bookDetails).Fail? ==>
        r == Err(updateValidator(bookDetails).error) && repository.store == old(repository.store)
      ensures id in old(repository.store.books) && updateValidator(bookDetails).Pass? ==>
        var updated := CopyWithoutId(bookDetails).(id := Some(id));
        && r == Ok(updated)
        && repository.store == old(repository.store).(books := old(repository.store.books)[id := updated])
    {
      var found := repository.store.FindById(id);
      if found.None? {
        return Err(NotFoundPrefix + NatToString(id));
      }
      var kind := GetValidator("update");
      var verdict := ApplyValidator(kind.value, updateValidator, bookDetails);
      if verdict.Fail? {
        return Err(verdict.error);
      }
      var book := found.value.(
        title := bookDetails.title,
        author := bookDetails.author,
        isbn := bookDetails.isbn,
        publicationYear := bookDetails.publicationYear,
        price := bookDetails.price);
      var saved := repository.Save(book);
      return Ok(saved);
    }

    /**
     * Deletes through a Delete command on the log: a missing id fails and changes nothing;
     * otherwise the record is removed and the command, holding its snapshot, is logged.
     */
    method DeleteBook(id: Id) returns (r: Outcome)
      requires Valid()
      modifies repository, invoker
      ensures Valid()
      ensures id !in old(repository.store.books) ==>
        && r == Fail(NotFoundPrefix + NatToString(id))
        && repository.store == old(repository.store)
        && invoker.history == old(invoker.history)
      ensures id in old(repository.store.books) ==>
        && r.Pass?
        && repository.store == old(repository.store).DeleteById(id)
        && |invoker.history| == |old(invoker.history)| + 1
        && invoker.history[..|old(invoker.history)|] == old(invoker.history)
        && var last := invoker.history[|invoker.history| - 1];
           last.Delete? && fresh(last.deleteCommand)
           && last.State() == DeleteState(id, Some(old(repository.store.books[id])))
    {
      var command := new DeleteBookCommand(repository, id);
      r := invoker.ExecuteCommand(Delete(command));
    }

    /** Passes straight to the log's undo. */
    method UndoLastOperation()
      requires Valid()
      modifies invoker, if invoker.history == [] then {} else invoker.history[|invoker.history| - 1].Footprint()
      ensures Valid()
      ensures old(invoker.history) == [] ==> invoker.history == [] && repository.store == old(repository.store)
      ensures old(invoker.history) != [] ==>
        var last := old(invoker.history[|invoker.history| - 1]);
        && invoker.history == old(invoker.history[..|invoker.history| - 1])
        && (last.State(), repository.store) == UndoStep(old(last.State()), old(repository.store))
    {
      if invoker.history != [] {
        assert invoker.history[|invoker.history| - 1] in invoker.history;
      }
      invoker.UndoLastCommand();
    }

    method GetOperationHistory() returns (descriptions: seq<string>)
      ensures |descriptions| == |invoker.history|
      ensures forall i :: 0 <= i < |invoker.history| ==> descriptions[i] == invoker.history[i].Description()
    {
      descriptions := invoker.GetCommandHistory();
    }

    method ClearOperationHistory()
      requires Valid()
      modifies invoker
      ensures Valid()
      ensures invoker.history == []
    {
      invoker.ClearHistory();
    }
  }

  lemma VisibleFirstCharIsNotBlank(s: string)
    requires s != [] && !IsTrimmable(s[0])
    ensures !IsNullOrBlank(Some(s))
  {
    TrimEmptyIffAllTrimmable(s);
  }

  lemma TenCharsWithoutHyphenIsValidIsbn(s: string)
    requires |s| == 10 && forall i :: 0 <= i < |s| ==> s[i] != '-' && UnitWidth(s[i]) == 1
    ensures IsValidIsbn(s)
  {
    assert '-' !in multiset(s);
  }

  /** A request whose fields all start with a visible character and whose ISBN has ten hyphen-free characters of one UTF-16 unit each passes both the builder's presence checks and the standard rules. */
  lemma PlainRequestIsValid(title: string, author: string, isbn: string)
    requires title != [] && !IsTrimmable(title[0])
    requires author != [] && !IsTrimmable(author[0])
    requires isbn != [] && !IsTrimmable(isbn[0])
    requires |isbn| == 10 && forall i :: 0 <= i < |isbn| ==> isbn[i] != '-' && UnitWidth(isbn[i]) == 1
    ensures FirstFailure(RequiredRules(Some(title), Some(author), Some(isbn))).Pass?
    ensures SatisfiesStandardRules(Book(None, Some(title), Some(author), Some(isbn), None, None))
  {
    VisibleFirstCharIsNotBlank(title);
    VisibleFirstCharIsNotBlank(author);
    VisibleFirstCharIsNotBlank(isbn);
    TenCharsWithoutHyphenIsValidIsbn(isbn);
    var rules := RequiredRules(Some(title), Some(author), Some(isbn));
    assert forall i :: 0 <= i < |rules| ==> rules[i].0;
  }

  /**
   * A create request with a valid title, author and ISBN and no price: the builder path as
   * written refuses it, the corrected one saves it with a null price.
   */
  method NullPriceCounterexample() returns (asWritten: Result<Book>, corrected: Result<Book>)
    ensures asWritten == Err(NullPointer)
    ensures corrected.Ok? && corrected.value.price.None? && corrected.value.id.Some?
  {
    var noMatches := (books: map<Id, Book>, term: string) => [];
    var repository := new BookRepository(books => [], noMatches, noMatches);
    var invoker := new CommandInvoker();
    var service := new BookService(repository, invoker, b => Pass);
    var title, author, isbn := Some("Dune"), Some("Frank Herbert"), Some("0441013597");
    PlainRequestIsValid(title.value, author.value, isbn.value);
    asWritten := service.SaveBookWithBuilderAsWritten(title, author, isbn, None, None);
    corrected := service.SaveBookWithBuilder(title, author, isbn, None, None);
  }
}
