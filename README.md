# Book catalog: undo log, validation and search dispatch

A Dafny model of the core of a small book-catalog service. The service keeps book records
(title, author, ISBN, publication year, price) in a store keyed by a generated id. Creates and
deletes are wrapped in command objects. A command captures what it needs to reverse itself:
the id it saved, or a snapshot of the record it deleted. Commands that ran are kept in an
operation log that undoes the most recent one first. Before a create, a standard rule set is
applied, chosen by name from a validator factory. Searches are dispatched by a
case-insensitive search-type name to a title, author or ISBN strategy.

Modules:

- `Wrappers`: `Option`, `Result` and `Outcome` (pass, or fail with a message). An exception
  is modelled as a `Err`/`Fail` carrying its message.
- `Text`: the Java string operations the rules use. These are `trim()`, `replaceAll("-", "")`,
  `toLowerCase()` and the decimal form of a `Long`.
- `Books`: the `Book` record. Every field is optional because the entity allows nulls.
- `Repository`: the store as a value, `Store(books, nextId)`, with its `save`, `findById`,
  `deleteById` and `findByIsbn` semantics. It also defines the shared `BookRepository`
  object whose `store` field the operations update.
- `Validation`: the standard validator as an ordered chain of checks, the ISBN format check
  and the validator factory.
- `Builder`: the fluent builder as a class whose setters update its fields in place.
- `Strategies`: the search-strategy factory and the ISBN strategy.
- `Commands`: `ExecuteStep` and `UndoStep` give the meaning of the two commands on values. The
  `SaveBookCommand` and `DeleteBookCommand` classes are proved against them. A closed
  datatype `Command` stands for the command interface.
- `Invoker`: the operation log, a class holding a sequence of commands.
- `Service`: the service class, with its reads, create (directly and through the builder),
  update, delete, undo and history operations.

Undo is not an inverse. Three lemmas spell this out.

- Undoing a delete files a copy under a new id, never the old one
  (`DeleteThenUndoRestoresUnderFreshId`).
- Undoing a save that overwrote a record deletes that record (`UndoOfOverwritingSaveDeletesRecord`).
- Save, delete, undo, undo leaves a restored copy that was not there before
  (`UndoBothLeavesRestoredCopy`).

## Model

| member | source | states |
|---|---|---|
| Text.TrimEmptyIffAllTrimmable | book-catalog-service/src/main/java/com/example/bookcatalog/validator/StandardBookValidator.java:15 | Java `trim()` of a string is empty exactly when every character is at most U+0020, so "null or blank" means absent or made only of such characters |
| Text.IsNullOrBlank | book-catalog-service/src/main/java/com/example/bookcatalog/validator/StandardBookValidator.java:15 | (definition, no contract) `x == null \|\| x.trim().isEmpty()`; by `TrimEmptyIffAllTrimmable` it holds exactly when the value is null or every character is at most U+0020 |
| Text.RemoveCharLength | book-catalog-service/src/main/java/com/example/bookcatalog/validator/StandardBookValidator.java:42 | removing every `-` (`replaceAll("-", "")`) shortens the text by exactly the number of hyphens it held |
| Text.Utf16Length | book-catalog-service/src/main/java/com/example/bookcatalog/validator/StandardBookValidator.java:43 | `String.length()` counts UTF-16 units: between the character count and twice it, and equal to the character count exactly when no character lies above U+FFFF |
| Text.Utf16LengthAppend | book-catalog-service/src/main/java/com/example/bookcatalog/validator/StandardBookValidator.java:43 | the UTF-16 length of a concatenation is the sum of the two lengths |
| Text.RemoveCharUtf16Length | book-catalog-service/src/main/java/com/example/bookcatalog/validator/StandardBookValidator.java:42-43 | removing every `-` shortens the UTF-16 length by exactly the number of hyphens |
| Text.ToLowerMatches | book-catalog-service/src/main/java/com/example/bookcatalog/validator/BookValidatorFactory.java:20 | lower-casing a key yields a given lower-case word exactly when the key equals that word letter by letter up to ASCII case |
| Text.NatToString | book-catalog-service/src/main/java/com/example/bookcatalog/command/DeleteBookCommand.java:45 | the decimal form of an id used in messages and descriptions is non-empty and made only of digits |
| Text.NatToStringRoundTrip | book-catalog-service/src/main/java/com/example/bookcatalog/command/DeleteBookCommand.java:45 | reading the decimal form of an id back gives the id, so distinct ids have distinct messages |
| Books.CopyWithoutId | book-catalog-service/src/main/java/com/example/bookcatalog/command/DeleteBookCommand.java:31-36 | the restored book carries every field of the snapshot except the id, which is null |
| Repository.Store.FindById | book-catalog-service/src/main/java/com/example/bookcatalog/repository/BookRepository.java:13 | `findById` finds a record exactly when the id is stored, and returns the stored record |
| Repository.Store.Save | book-catalog-service/src/main/java/com/example/bookcatalog/repository/BookRepository.java:13 | `save` of a book with no id files it under a fresh id that no record had and advances the counter; a book with an id is written under that id; the id invariant of the store is kept |
| Repository.Store.DeleteById | book-catalog-service/src/main/java/com/example/bookcatalog/repository/BookRepository.java:13 | `deleteById` removes that id and nothing else, and is a no-op when the id is absent |
| Repository.Store.FindByIsbn | book-catalog-service/src/main/java/com/example/bookcatalog/repository/BookRepository.java:15 | `findByIsbn`: nothing exactly when no record holds the ISBN, an error exactly when two records hold it, otherwise the stored record holding it |
| Repository.BookRepository.constructor | book-catalog-service/src/main/java/com/example/bookcatalog/repository/BookRepository.java:13 | the shared repository starts empty with the first id at 1 |
| Repository.BookRepository.Save | book-catalog-service/src/main/java/com/example/bookcatalog/repository/BookRepository.java:13 | the repository object moves to the store `Store.Save` computes and returns the saved record |
| Repository.BookRepository.DeleteById | book-catalog-service/src/main/java/com/example/bookcatalog/repository/BookRepository.java:13 | the repository object moves to the store `Store.DeleteById` computes |
| Validation.FirstFailure | book-catalog-service/src/main/java/com/example/bookcatalog/validator/StandardBookValidator.java:10-39 | an ordered chain of checks passes exactly when all checks hold; otherwise it reports the message of a failing check with every earlier check holding |
| Validation.FirstFailureAt | book-catalog-service/src/main/java/com/example/bookcatalog/validator/StandardBookValidator.java:10-39 | when check k is the first to fail, exactly its message is reported |
| Validation.IsValidIsbn | book-catalog-service/src/main/java/com/example/bookcatalog/validator/StandardBookValidator.java:41-44 | an ISBN is accepted exactly when its UTF-16 length minus its hyphen count is 10 or 13 (for text without characters above U+FFFF, its character count); nothing else about it is checked |
| Validation.AstralCharacterCountsTwice | book-catalog-service/src/main/java/com/example/bookcatalog/validator/StandardBookValidator.java:41-44 | nine non-hyphen characters followed by one character above U+FFFF (such as "123456789" and U+1F600) make ten characters but eleven UTF-16 units, and are refused |
| Validation.ValidateStandard | book-catalog-service/src/main/java/com/example/bookcatalog/validator/StandardBookValidator.java:10-39 | a null book fails with "Book cannot be null"; a book passes exactly when title, author and ISBN are non-blank, the ISBN length is right, the year (if any) is in 1000..2030 and the price (if any) is not negative |
| Validation.FirstFailingStandardRule | book-catalog-service/src/main/java/com/example/bookcatalog/validator/StandardBookValidator.java:15-38 | when one standard check is the first to fail, the validator reports that check's message |
| Validation.ValidateStandardFollowsRuleOrder | book-catalog-service/src/main/java/com/example/bookcatalog/validator/StandardBookValidator.java:10-39 | the validator's result equals the first failure of the six checks in the order title, author, ISBN presence, ISBN format, year, price |
| Validation.GetValidator | book-catalog-service/src/main/java/com/example/bookcatalog/validator/BookValidatorFactory.java:19-28 | the standard validator is chosen exactly for keys that spell "standard" in any ASCII case, the update one exactly for "update"; any other key is an error "Unknown validator type: " + key as given |
| Validation.ApplyValidator | book-catalog-service/src/main/java/com/example/bookcatalog/service/BookService.java:91 | running the standard validator passes exactly the books meeting every standard rule and otherwise reports one of its six messages; the update validator gives whatever the update rule set says |
| Builder.BookBuilder.constructor | book-catalog-service/src/main/java/com/example/bookcatalog/builder/BookBuilder.java:14-15 | a new builder has every field null |
| Builder.BookBuilder.Title | book-catalog-service/src/main/java/com/example/bookcatalog/builder/BookBuilder.java:17-20 | sets the title, returns the same builder, leaves the other fields |
| Builder.BookBuilder.Author | book-catalog-service/src/main/java/com/example/bookcatalog/builder/BookBuilder.java:22-25 | sets the author, returns the same builder, leaves the other fields |
| Builder.BookBuilder.Isbn | book-catalog-service/src/main/java/com/example/bookcatalog/builder/BookBuilder.java:27-30 | sets the ISBN, returns the same builder, leaves the other fields |
| Builder.BookBuilder.PublicationYear | book-catalog-service/src/main/java/com/example/bookcatalog/builder/BookBuilder.java:32-35 | sets the year, returns the same builder, leaves the other fields |
| Builder.BookBuilder.Price | book-catalog-service/src/main/java/com/example/bookcatalog/builder/BookBuilder.java:37-40 | the `BigDecimal` overload: sets the price (null allowed), returns the same builder, leaves the other fields |
| Builder.BookBuilder.Build | book-catalog-service/src/main/java/com/example/bookcatalog/builder/BookBuilder.java:47-55 | the built book has no id and exactly the builder's five fields |
| Builder.BookBuilder.Validate | book-catalog-service/src/main/java/com/example/bookcatalog/builder/BookBuilder.java:61-72 | succeeds, returning the same builder, exactly when title, author and ISBN are non-blank; otherwise fails with the message of the first missing one in that order |
| Builder.RequiredRulesFailWhenBlank | book-catalog-service/src/main/java/com/example/bookcatalog/builder/BookBuilder.java:61-72 | the builder's three presence checks fail exactly when one of title, author, ISBN is null or blank |
| Builder.StandardPresenceFailure | book-catalog-service/src/main/java/com/example/bookcatalog/validator/StandardBookValidator.java:15-25 | the standard validator reports a missing title, author or ISBN exactly when one of them is null or blank |
| Builder.RequiredRulesMatchStandardPresence | book-catalog-service/src/main/java/com/example/bookcatalog/builder/BookBuilder.java:61-72 | the builder refuses exactly the books the standard validator refuses for a missing title, author or ISBN, and never for ISBN length, year or price |
| Strategies.GetSearchStrategy | book-catalog-service/src/main/java/com/example/bookcatalog/strategy/SearchStrategyFactory.java:22-33 | title, author and ISBN search are chosen exactly for keys spelling "title", "author", "isbn" in any ASCII case; any other key is an error "Unknown search type: " + key as given |
| Strategies.SameLowerCaseSameStrategy | book-catalog-service/src/main/java/com/example/bookcatalog/strategy/SearchStrategyFactory.java:23 | two keys with the same lower-case form select the same strategy or both fail |
| Strategies.AsList | book-catalog-service/src/main/java/com/example/bookcatalog/strategy/IsbnSearchStrategy.java:17 | the optional result becomes an empty list or the one-element list of the record found |
| Strategies.SearchByIsbn | book-catalog-service/src/main/java/com/example/bookcatalog/strategy/IsbnSearchStrategy.java:15-18 | the ISBN search returns at most one record, which is stored and holds exactly that ISBN; it is empty exactly when no record holds it and an error exactly when two do |
| Strategies.Search | book-catalog-service/src/main/java/com/example/bookcatalog/strategy/IsbnSearchStrategy.java:15-18 | the title and author strategies never fail and return the store's title-contains and author queries on the current records (TitleSearchStrategy.java lines 13-15); the ISBN strategy is `SearchByIsbn` |
| Commands.ExecuteStep | book-catalog-service/src/main/java/com/example/bookcatalog/command/SaveBookCommand.java:18-23 | executing a save fails exactly for a null book, otherwise saves it and captures the new id; executing a delete (DeleteBookCommand.java lines 18-24) fails with "Book not found with id: " + id exactly when the id is absent, otherwise snapshots and removes the record; the store invariant is kept |
| Commands.UndoStep | book-catalog-service/src/main/java/com/example/bookcatalog/command/SaveBookCommand.java:26-33 | undoing a save with a captured id deletes exactly that id and clears it; without an id, nothing happens; undoing a delete with a snapshot (DeleteBookCommand.java lines 27-41) files a copy without the id under the next fresh id and keeps the snapshot; without a snapshot, nothing happens; the store invariant is kept |
| Commands.SaveDescription | book-catalog-service/src/main/java/com/example/bookcatalog/command/SaveBookCommand.java:36-38 | "Save book: " followed by the title, by "null" for a missing title, or by "Unknown" for a null book |
| Commands.DeleteDescription | book-catalog-service/src/main/java/com/example/bookcatalog/command/DeleteBookCommand.java:44-46 | "Delete book with ID: " followed by decimal digits that read back as the id |
| Commands.DeleteDescriptionsDiffer | book-catalog-service/src/main/java/com/example/bookcatalog/command/DeleteBookCommand.java:44-46 | the description "Delete book with ID: " + id differs for different ids, so the history tells deletes apart |
| Commands.SaveDescriptionsShowTitle | book-catalog-service/src/main/java/com/example/bookcatalog/command/SaveBookCommand.java:36-38 | saves of books with different titles have different descriptions |
| Commands.SaveThenUndoRestoresStore | book-catalog-service/src/main/java/com/example/bookcatalog/command/SaveBookCommand.java:18-33 | saving a new book and undoing gives back exactly the previous records and clears the captured id |
| Commands.SaveUndoTwiceIsUndoOnce | book-catalog-service/src/main/java/com/example/bookcatalog/command/SaveBookCommand.java:26-33 | a second undo of a save changes nothing because the first cleared the id |
| Commands.UndoOfOverwritingSaveDeletesRecord | book-catalog-service/src/main/java/com/example/bookcatalog/command/SaveBookCommand.java:26-33 | undoing a save that overwrote an existing record deletes the record instead of restoring the old version |
| Commands.DeleteThenUndoRestoresUnderFreshId | book-catalog-service/src/main/java/com/example/bookcatalog/command/DeleteBookCommand.java:27-41 | deleting and undoing puts back a record with the same five fields under the next fresh id, never the deleted id; the snapshot is kept |
| Commands.DeleteUndoTwiceRestoresTwice | book-catalog-service/src/main/java/com/example/bookcatalog/command/DeleteBookCommand.java:27-41 | the snapshot is never cleared, so a second undo of the same delete files a second copy under another fresh id |
| Commands.SaveSaveUndoKeepsFirst | book-catalog-service/src/main/java/com/example/bookcatalog/command/CommandInvoker.java:22-28 | save A, save B, undo: the store holds A and not B |
| Commands.UndoBothLeavesRestoredCopy | book-catalog-service/src/main/java/com/example/bookcatalog/command/CommandInvoker.java:22-28 | save, delete, undo, undo: the delete's undo restores under a new id, so the save's undo misses it and the catalog keeps a copy it did not have |
| Commands.SaveBookCommand.constructor | book-catalog-service/src/main/java/com/example/bookcatalog/command/SaveBookCommand.java:12-15 | a new save command holds the repository and book and no saved id |
| Commands.SaveBookCommand.Execute | book-catalog-service/src/main/java/com/example/bookcatalog/command/SaveBookCommand.java:18-23 | the command and its repository move exactly as `ExecuteStep` says; a failure changes nothing |
| Commands.SaveBookCommand.Undo | book-catalog-service/src/main/java/com/example/bookcatalog/command/SaveBookCommand.java:26-33 | the command and its repository move exactly as `UndoStep` says |
| Commands.DeleteBookCommand.constructor | book-catalog-service/src/main/java/com/example/bookcatalog/command/DeleteBookCommand.java:12-15 | a new delete command holds the repository and id and no snapshot |
| Commands.DeleteBookCommand.Execute | book-catalog-service/src/main/java/com/example/bookcatalog/command/DeleteBookCommand.java:18-24 | the command and its repository move exactly as `ExecuteStep` says; a failure changes nothing |
| Commands.DeleteBookCommand.Undo | book-catalog-service/src/main/java/com/example/bookcatalog/command/DeleteBookCommand.java:27-41 | the repository moves exactly as `UndoStep` says and the snapshot stays |
| Commands.Execute | book-catalog-service/src/main/java/com/example/bookcatalog/command/Command.java:4 | running either kind of command follows `ExecuteStep` |
| Commands.Undo | book-catalog-service/src/main/java/com/example/bookcatalog/command/Command.java:5 | undoing either kind of command follows `UndoStep` |
| Invoker.CommandInvoker.constructor | book-catalog-service/src/main/java/com/example/bookcatalog/command/CommandInvoker.java:13-15 | the log starts empty |
| Invoker.CommandInvoker.ExecuteCommand | book-catalog-service/src/main/java/com/example/bookcatalog/command/CommandInvoker.java:17-20 | runs the command as `ExecuteStep` says and appends it to the log only when it succeeded |
| Invoker.CommandInvoker.UndoLastCommand | book-catalog-service/src/main/java/com/example/bookcatalog/command/CommandInvoker.java:22-28 | an empty log stays empty; otherwise the last command is undone as `UndoStep` says and then dropped, the rest of the log unchanged |
| Invoker.CommandInvoker.GetCommandHistory | book-catalog-service/src/main/java/com/example/bookcatalog/command/CommandInvoker.java:30-36 | one description per logged command, in log order |
| Invoker.CommandInvoker.ClearHistory | book-catalog-service/src/main/java/com/example/bookcatalog/command/CommandInvoker.java:38-40 | empties the log without undoing anything |
| Invoker.CommandInvoker.GetHistorySize | book-catalog-service/src/main/java/com/example/bookcatalog/command/CommandInvoker.java:42-44 | the number of logged commands |
| Invoker.CommandInvoker.HasCommands | book-catalog-service/src/main/java/com/example/bookcatalog/command/CommandInvoker.java:46-48 | true exactly when the log is not empty |
| Service.BookService.constructor | book-catalog-service/src/main/java/com/example/bookcatalog/service/BookService.java:28-36 | the service shares the given repository and log |
| Service.BookService.GetAllBooks | book-catalog-service/src/main/java/com/example/bookcatalog/service/BookService.java:38-40 | (definition, no contract) the store's `findAll` on the current records, which is a parameter of the repository |
| Service.BookService.GetBookById | book-catalog-service/src/main/java/com/example/bookcatalog/service/BookService.java:42-44 | finds a record exactly when the id is stored, and returns it |
| Service.BookService.SearchBooks | book-catalog-service/src/main/java/com/example/bookcatalog/service/BookService.java:59-62 | an unknown key is an error; a key spelling title, author or isbn runs that strategy against the current store |
| Service.BookService.GetBookByIsbn | book-catalog-service/src/main/java/com/example/bookcatalog/service/BookService.java:46-49 | the first record of the ISBN search: the stored holder, nothing exactly when no record holds it, an error exactly when two do |
| Service.BookService.GetBooksByAuthor | book-catalog-service/src/main/java/com/example/bookcatalog/service/BookService.java:51-53 | the author search with key "author" |
| Service.BookService.SearchBooksByTitle | book-catalog-service/src/main/java/com/example/bookcatalog/service/BookService.java:55-57 | the title search with key "title" |
| Service.BookService.SaveBook | book-catalog-service/src/main/java/com/example/bookcatalog/service/BookService.java:64-72 | a book the standard validator refuses changes nothing and reports its message; an accepted one is saved through a new Save command appended to the log and the stored record is returned |
| Service.BookService.LogSave | book-catalog-service/src/main/java/com/example/bookcatalog/service/BookService.java:68-69 | a present book always saves: the store moves as `Store.Save` says and a fresh Save command holding the new id is appended to the log |
| Service.BookService.SaveBookWithBuilder | book-catalog-service/src/main/java/com/example/bookcatalog/service/BookService.java:74-84 | with a null price accepted: the builder's first missing field is reported with nothing changed; otherwise the built book is saved as `SaveBook` does |
| Service.BookService.SaveBookWithBuilderAsWritten | book-catalog-service/src/main/java/com/example/bookcatalog/service/BookService.java:74-84 | as written: a null price fails before anything changes; otherwise as `SaveBookWithBuilder` |
| Service.BookService.UpdateBook | book-catalog-service/src/main/java/com/example/bookcatalog/service/BookService.java:86-100 | a missing id fails with "Book not found with id: " + id; a refusal by the update rules reports it; otherwise the five fields are overwritten under the same id; the log never changes |
| Service.BookService.DeleteBook | book-catalog-service/src/main/java/com/example/bookcatalog/service/BookService.java:102-105 | a missing id fails and changes nothing; otherwise the record is removed and a Delete command holding its snapshot is appended to the log |
| Service.BookService.UndoLastOperation | book-catalog-service/src/main/java/com/example/bookcatalog/service/BookService.java:107-109 | an empty log changes nothing; otherwise the last command is undone on this service's store and dropped |
| Service.BookService.GetOperationHistory | book-catalog-service/src/main/java/com/example/bookcatalog/service/BookService.java:111-113 | one description per logged command, in log order |
| Service.BookService.ClearOperationHistory | book-catalog-service/src/main/java/com/example/bookcatalog/service/BookService.java:115-117 | empties the log; the store is untouched |
| Service.VisibleFirstCharIsNotBlank | book-catalog-service/src/main/java/com/example/bookcatalog/validator/StandardBookValidator.java:15 | a string starting with a character above U+0020 is not blank |
| Service.TenCharsWithoutHyphenIsValidIsbn | book-catalog-service/src/main/java/com/example/bookcatalog/validator/StandardBookValidator.java:41-44 | ten one-unit characters without a hyphen are a well-formed ISBN |
| Service.PlainRequestIsValid | book-catalog-service/src/main/java/com/example/bookcatalog/builder/BookBuilder.java:61-72 | a request with visible title, author and a ten-unit ISBN without hyphens passes both the builder's checks and the standard rules |
| Service.NullPriceCounterexample | book-catalog-service/src/main/java/com/example/bookcatalog/service/BookService.java:74-84 | a valid create request without a price: the as-written path fails with a null-pointer error, the corrected one saves it with a null price under a new id |

## Left out

- Console output in the commands, the logging decorator and the HTTP controller are not modelled. They add no logic to the core.
- The persistence framework is modelled only as far as the core depends on it. `save` of a record with no id assigns the next id of a counter starting at 1. `save` of a record with an id writes it under that id and moves the counter past it. `deleteById` of an absent id does nothing, as in Spring Data JPA 3.0 and later. Under 2.x it throws `EmptyResultDataAccessException`; then a save's undo after the record was already deleted fails, keeps its captured id, and stays in the log. `findByIsbn` matches the ISBN exactly and fails when two records hold it.
- Repository.BookRepository: `findAll`, `findByAuthor` and `findByTitleContainingIgnoreCase` are derived queries whose matching rules belong to the framework. They are parameters of the repository object, so title and author search results are stated only as "what that query returns for the current records".
- Service.BookService.UpdateBook: the update rule set (`UpdateBookValidator`) is not part of this model. It is a parameter of the service, `updateValidator`.
- Builder.BookBuilder.Price: only the `BigDecimal` overload is modelled, with prices as exact reals. The `double` overload is captured only by the null-price behaviour of `SaveBookWithBuilderAsWritten`. Binary floating point is left out.
- Validation.IsValidIsbn: lengths are Java's UTF-16 units (`Utf16Length`); surrogate code units on their own cannot appear in a Dafny string, so ill-formed UTF-16 text is not modelled.
- Text.ToLower: it lowers only ASCII `A`-`Z`. `String.toLowerCase()` also depends on the default locale and lowers non-ASCII letters (under a Turkish locale, `"ISBN"` does not lower to `"isbn"`). This is left out.
- Text.NatToString: ids are unbounded naturals, not 64-bit `Long`. Negative ids and a null delete id cannot be expressed.
- Commands.ExecuteStep: for a null book, the message is a placeholder (`NullPointerException`) rather than the JVM's message text.
- Invoker.CommandInvoker.UndoLastCommand: the code calls `undo()` before removing the entry, not after (`CommandInvoker.java` lines 25-26), and the model follows that order; so an undo that throws leaves its entry in the log. No store call fails in this model, so undo always completes and that case cannot be shown.
- Record identity: books are values. Java's in-place mutation of the fetched entity in `updateBook` is modelled as writing the updated value back under the same id, and aliasing between entity objects is not captured.
- Concurrency: every operation runs to completion, one at a time.

## Findings

| source | as written | input that shows it | evidently intended | confidence | as-written member | corrected member |
|---|---|---|---|---|---|---|
| book-catalog-service/src/main/java/com/example/bookcatalog/service/BookService.java:74-84 | `saveBookWithBuilder` passes its `Double price` to `price(...)`. Overload resolution picks `price(double)` (`book-catalog-service/src/main/java/com/example/bookcatalog/builder/BookBuilder.java:42-45`), which unboxes the argument, so a null price throws `NullPointerException` before any check. | a create request with title "Dune", author "Frank Herbert", ISBN "0441013597" and no price. The controller (`book-catalog-service/src/main/java/com/example/bookcatalog/controller/BookController.java:66`) declares the price optional, so every create without a price is answered 400. | a missing price stays null, as the `BigDecimal` overload and the standard validator both allow | not executed | Service.BookService.SaveBookWithBuilderAsWritten | Service.BookService.SaveBookWithBuilder |
