/**
 * The two reversible catalog operations. Each is an object that captures state when it runs
 * (the identifier it saved, or a snapshot of the record it deleted) and uses only that state
 * to undo itself. `CommandState` and the two step functions are the value-level meaning of the
 * objects; the classes are proved against them.
 */
module Commands {

  import opened Wrappers
  import opened Text
  import opened Books
  import opened Repository

  const NotFoundPrefix := "Book not found with id: "

  /** What a command has captured: the book to save and the id it got, or the id to delete and the record removed. */
  datatype CommandState =
    | SaveState(book: Option<Book>, savedBookId: Option<Id>)
    | DeleteState(bookId: Id, deletedBook: Option<Book>)

  /**
   * `execute`. Saving a null book fails before the store is touched; deleting an id with no
   * record fails with a not-found error. Nothing is captured on failure.
   */
  function ExecuteStep(c: CommandState, s: Store): (r: Result<(CommandState, Store)>)
    ensures c.SaveState? ==> (r.Err? <==> c.book.None?)
    ensures c.DeleteState? ==> (r.Err? <==> c.bookId !in s.books)
    ensures c.DeleteState? && r.Err? ==> r.error == NotFoundPrefix + NatToString(c.bookId)
    ensures c.DeleteState? && r.Ok? ==>
      r.value == (DeleteState(c.bookId, Some(s.books[c.bookId])), s.DeleteById(c.bookId))
    ensures c.SaveState? && r.Ok? ==>
      var (saved, s') := (s.Save(c.book.value).1, s.Save(c.book.value).0);
      r.value == (SaveState(c.book, saved.id), s') && r.value.0.savedBookId.Some?
    ensures s.Valid() && r.Ok? ==> r.value.1.Valid()
  {
    match c
    case SaveState(book, _) =>
      if book.None? then Err(NullPointer)
      else
        var (s', saved) := s.Save(book.value);
        Ok((SaveState(book, saved.id), s'))
    case DeleteState(id, _) =>
      match s.FindById(id)
      case None => Err(NotFoundPrefix + NatToString(id))
      case Some(b) => Ok((DeleteState(id, Some(b)), s.DeleteById(id)))
  }

  /**
   * `undo`. A save that has an id deletes it and forgets it; a delete that has a snapshot
   * saves a copy of it with no id, so the store files it under a fresh one, and keeps the
   * snapshot. Without captured state, nothing happens.
   */
  function UndoStep(c: CommandState, s: Store): (r: (CommandState, Store))
    ensures c.SaveState? ==> r.0 == SaveState(c.book, None)
    ensures c.SaveState? && c.savedBookId.Some? ==>
      r.1.books == s.books - {c.savedBookId.value} && r.1.nextId == s.nextId
    ensures c.DeleteState? ==> r.0 == c
    ensures c.DeleteState? && c.deletedBook.Some? ==>
      && r.1.books == s.books[s.nextId := CopyWithoutId(c.deletedBook.value).(id := Some(s.nextId))]
      && r.1.nextId == s.nextId + 1
    ensures (c.SaveState? && c.savedBookId.None?) || (c.DeleteState? && c.deletedBook.None?) ==> r == (c, s)
    ensures s.Valid() ==> r.1.Valid()
  {
    match c
    case SaveState(book, savedBookId) =>
      if savedBookId.Some? then (SaveState(book, None), s.DeleteById(savedBookId.value)) else (c, s)
    case DeleteState(_, deletedBook) =>
      if deletedBook.Some? then (c, s.Save(CopyWithoutId(deletedBook.value)).0) else (c, s)
  }

  const SavePrefix := "Save book: "
  const DeletePrefix := "Delete book with ID: "

  /** `SaveBookCommand.getDescription`: the prefix, then the title ("null" when absent), or "Unknown" for a null book. */
  function SaveDescription(book: Option<Book>): (r: string)
    ensures |SavePrefix| <= |r| && r[..|SavePrefix|] == SavePrefix
    ensures book.None? ==> r[|SavePrefix|..] == "Unknown"
    ensures book.Some? && book.value.title.Some? ==> r[|SavePrefix|..] == book.value.title.value
    ensures book.Some? && book.value.title.None? ==> r[|SavePrefix|..] == "null"
  {
    SavePrefix + if book.Some? then ConcatForm(book.value.title) else "Unknown"
  }

  /** `DeleteBookCommand.getDescription`: the prefix, then the id in decimal, which reads back as the id. */
  function DeleteDescription(bookId: Id): (r: string)
    ensures |DeletePrefix| < |r| && r[..|DeletePrefix|] == DeletePrefix
    ensures forall i :: |DeletePrefix| <= i < |r| ==> '0' <= r[i] <= '9'
    ensures DigitsValue(r[|DeletePrefix|..]) == bookId
  {
    NatToStringRoundTrip(bookId);
    var r := DeletePrefix + NatToString(bookId);
    assert r[|DeletePrefix|..] == NatToString(bookId);
    r
  }

  /** The history tells deletes of different ids apart: distinct ids never share a description. */
  lemma DeleteDescriptionsDiffer(a: Id, b: Id)
    requires a != b
    ensures DeleteDescription(a) != DeleteDescription(b)
  {
  }

  /** Two saves of books with different titles have different descriptions. */
  lemma SaveDescriptionsShowTitle(a: Book, b: Book)
    requires a.title.Some? && b.title.Some? && a.title != b.title
    ensures SaveDescription(Some(a)) != SaveDescription(Some(b))
  {
    assert SaveDescription(Some(a))[|SavePrefix|..] == a.title.value;
    assert SaveDescription(Some(b))[|SavePrefix|..] == b.title.value;
  }

  // ---------------------------------------------------------------- properties of the steps

  /**
   * Undoing a save of a new record removes exactly that record: the store holds what it held
   * before (only the id counter has moved on), and the command forgets the id.
   */
  lemma SaveThenUndoRestoresStore(s: Store, b: Book)
    requires s.Valid() && b.id.None?
    ensures ExecuteStep(SaveState(Some(b), None), s).Ok?
    ensures
      var (c1, s1) := ExecuteStep(SaveState(Some(b), None), s).value;
      && c1.savedBookId == Some(s.nextId)
      && s1.books == s.books[s.nextId := b.(id := Some(s.nextId))]
      && UndoStep(c1, s1) == (SaveState(Some(b), None), Store(s.books, s.nextId + 1))
  {
    var s1 := ExecuteStep(SaveState(Some(b), None), s).value.1;
    assert s.nextId !in s.books;
    assert s1.books - {s.nextId} == s.books;
  }

  /** A second undo of a save changes nothing: the first one cleared the captured id. */
  lemma SaveUndoTwiceIsUndoOnce(c: CommandState, s: Store)
    requires c.SaveState?
    ensures UndoStep(UndoStep(c, s).0, UndoStep(c, s).1) == UndoStep(c, s)
  {
  }

  /**
   * Undoing a save that overwrote an existing record deletes that record: the undo does not
   * bring back what the save replaced.
   */
  lemma UndoOfOverwritingSaveDeletesRecord(s: Store, b: Book)
    requires s.Valid() && b.id.Some? && b.id.value in s.books
    ensures ExecuteStep(SaveState(Some(b), None), s).Ok?
    ensures
      var (c1, s1) := ExecuteStep(SaveState(Some(b), None), s).value;
      UndoStep(c1, s1).1.books == s.books - {b.id.value}
  {
    var id := b.id.value;
    var s1 := ExecuteStep(SaveState(Some(b), None), s).value.1;
    assert s1.books == s.books[id := b];
    assert s1.books - {id} == s.books - {id};
  }

  /**
   * Deleting a record and undoing the delete puts back a record with the same title, author,
   * ISBN, year and price, under the next fresh id, which is never the id that was deleted.
   */
  lemma DeleteThenUndoRestoresUnderFreshId(s: Store, id: Id)
    requires s.Valid() && id in s.books
    ensures ExecuteStep(DeleteState(id, None), s).Ok?
    ensures
      var (c1, s1) := ExecuteStep(DeleteState(id, None), s).value;
      var (c2, s2) := UndoStep(c1, s1);
      && c1 == c2 == DeleteState(id, Some(s.books[id]))
      && s.nextId != id
      && s2.books == (s.books - {id})[s.nextId := CopyWithoutId(s.books[id]).(id := Some(s.nextId))]
      && id !in s2.books
      && CopyWithoutId(s2.books[s.nextId]) == CopyWithoutId(s.books[id])
  {
  }

  /** A delete's undo keeps its snapshot, so undoing it twice files two copies under two fresh ids. */
  lemma DeleteUndoTwiceRestoresTwice(s: Store, bookId: Id, snapshot: Book)
    requires s.Valid()
    ensures
      var c := DeleteState(bookId, Some(snapshot));
      var (c1, s1) := UndoStep(c, s);
      var (c2, s2) := UndoStep(c1, s1);
      && c2 == c
      && s2.books == s.books[s.nextId := CopyWithoutId(snapshot).(id := Some(s.nextId))]
                            [s.nextId + 1 := CopyWithoutId(snapshot).(id := Some(s.nextId + 1))]
      && s.nextId !in s.books && s.nextId + 1 !in s.books
  {
  }

  /**
   * Saving A, saving B and undoing once leaves the store holding A but not B.
   */
  lemma SaveSaveUndoKeepsFirst(s: Store, a: Book, b: Book)
    requires s.Valid() && a.id.None? && b.id.None?
    ensures
      var (ca, sa) := ExecuteStep(SaveState(Some(a), None), s).value;
      var (cb, sb) := ExecuteStep(SaveState(Some(b), None), sa).value;
      var (_, su) := UndoStep(cb, sb);
      && su.books == sa.books
      && sa.books == s.books[s.nextId := a.(id := Some(s.nextId))]
      && s.nextId + 1 !in su.books
  {
    var sa := ExecuteStep(SaveState(Some(a), None), s).value.1;
    SaveThenUndoRestoresStore(sa, b);
  }

  /**
   * Save a new book, delete it, then undo both in LIFO order: the delete's undo restores it
   * under a new id, so the save's undo deletes an id that no longer exists and the restored
   * copy stays. The catalog does not return to where it started.
   */
  lemma UndoBothLeavesRestoredCopy(s: Store, b: Book)
    requires s.Valid() && b.id.None?
    ensures
      var n := s.nextId;
      var (cs, s1) := ExecuteStep(SaveState(Some(b), None), s).value;
      var (cd, s2) := ExecuteStep(DeleteState(n, None), s1).value;
      var (_, s3) := UndoStep(cd, s2);
      var (_, s4) := UndoStep(cs, s3);
      && s4.books == s.books[n + 1 := b.(id := Some(n + 1))]
      && s4.books != s.books
  {
    var n := s.nextId;
    var s1 := ExecuteStep(SaveState(Some(b), None), s).value.1;
    assert n in s1.books;
    var s2 := ExecuteStep(DeleteState(n, None), s1).value.1;
    assert s2.books == s.books by {
      assert n !in s.books;
    }
    assert n + 1 !in s.books;
  }

  // ---------------------------------------------------------------- the command objects

  class SaveBookCommand {
    const repository: BookRepository
    const book: Option<Book>
    /** `getSavedBookId`: null until `execute` has run, and again after `undo`. */
    var savedBookId: Option<Id>

    constructor (repository: BookRepository, book: Option<Book>)
      ensures this.repository == repository && this.book == book && savedBookId.None?
    {
      this.repository := repository;
      this.book := book;
      savedBookId := None;
    }

    function State(): CommandState
      reads this
    {
      SaveState(book, savedBookId)
    }

    method Execute() returns (r: Outcome)
      modifies this, repository
      ensures ExecuteStep(old(State()), old(repository.store))
           == if r.Pass? then Ok((State(), repository.store)) else Err(r.error)
      ensures r.Fail? ==> State() == old(State()) && repository.store == old(repository.store)
    {
      if book.None? {
        return Fail(NullPointer);
      }
      var saved := repository.Save(book.value);
      savedBookId := saved.id;
      return Pass;
    }

    method Undo()
      modifies this, repository
      ensures (State(), repository.store) == UndoStep(old(State()), old(repository.store))
    {
      if savedBookId.Some? {
        repository.DeleteById(savedBookId.value);
        savedBookId := None;
      }
    }

    function Description(): string {
      SaveDescription(book)
    }
  }

  class DeleteBookCommand {
    const repository: BookRepository
    const bookId: Id
    /** `getDeletedBook`: null until `execute` has found the record. */
    var deletedBook: Option<Book>

    constructor (repository: BookRepository, bookId: Id)
      ensures this.repository == repository && this.bookId == bookId && deletedBook.None?
    {
      this.repository := repository;
      this.bookId := bookId;
      deletedBook := None;
    }

    function State(): CommandState
      reads this
    {
      DeleteState(bookId, deletedBook)
    }

    method Execute() returns (r: Outcome)
      modifies this, repository
      ensures ExecuteStep(old(State()), old(repository.store))
           == if r.Pass? then Ok((State(), repository.store)) else Err(r.error)
      ensures r.Fail? ==> State() == old(State()) && repository.store == old(repository.store)
    {
      var found := repository.store.FindById(bookId);
      if found.None? {
        return Fail(NotFoundPrefix + NatToString(bookId));
      }
      deletedBook := found;
      repository.DeleteById(bookId);
      return Pass;
    }

    /** Never clears the snapshot. */
    method Undo()
      modifies repository
      ensures (State(), repository.store) == UndoStep(old(State()), old(repository.store))
    {
      if deletedBook.Some? {
        var restored := repository.Save(CopyWithoutId(deletedBook.value));
      }
    }

    function Description(): string {
      DeleteDescription(bookId)
    }
  }

  /** The `Command` interface as a closed union of its two implementations. */
  datatype Command = Save(saveCommand: SaveBookCommand) | Delete(deleteCommand: DeleteBookCommand) {

    function Object(): object {
      match this
      case Save(c) => c
      case Delete(c) => c
    }

    function Repository(): BookRepository {
      match this
      case Save(c) => c.repository
      case Delete(c) => c.repository
    }

    /** Everything running or undoing the command may change. */
    function Footprint(): set<object> {
      {Object(), Repository()}
    }

    function State(): CommandState
      reads Object()
    {
      match this
      case Save(c) => c.State()
      case Delete(c) => c.State()
    }

    function Description(): string {
      match this
      case Save(c) => c.Description()
      case Delete(c) => c.Description()
    }
  }

  method Execute(command: Command) returns (r: Outcome)
    modifies command.Footprint()
    ensures ExecuteStep(old(command.State()), old(command.Repository().store))
         == if r.Pass? then Ok((command.State(), command.Repository().store)) else Err(r.error)
    ensures r.Fail? ==>
      command.State() == old(command.State()) && command.Repository().store == old(command.Repository().store)
  {
    match command
    case Save(c) => r := c.Execute();
    case Delete(c) => r := c.Execute();
  }

  method Undo(command: Command)
    modifies command.Footprint()
    ensures (command.State(), command.Repository().store)
         == UndoStep(old(command.State()), old(command.Repository().store))
  {
    match command
    case Save(c) => c.Undo();
    case Delete(c) => c.Undo();
  }
}
