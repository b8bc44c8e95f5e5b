# Users with books: a verified model

This project models the core of a small Spring service that stores users
(PERSON: full name, title, age) and their books (BOOK: owner id, title,
author, page count) and offers four transactional workflows on "a user
together with the user's books": create, update, get and delete. The model
is written in Dafny and every contract below is proved.

Modules, one per layer of the program:

- `Dto` (Dto.dfy): the records the layers exchange (`UserDto`, `BookDto`,
  the request and response bodies), the two error kinds
  (`InvalidRequestData` with its message, `NotFound` with the id), and the
  request-to-record mappers, which copy fields. A Java reference that may be
  null is an `Option`.
- `Validation` (Validation.dfy): `isValidUserData` and `isValidBookData` as
  predicates, with Java's `String.isBlank` and `Character.isWhitespace`
  written out.
- `Storage` (Storage.dfy): the class `Database` holding the two tables as
  maps from id to row, plus one identity counter per table. Its methods are
  the effects of single statements (INSERT, UPDATE ... WHERE ID, DELETE ...
  WHERE ID, SELECT ID ... WHERE USER_ID), the repository `save`
  (merge-or-persist), and the rollback of an enclosing transaction.
  `Valid()` says every stored id was handed out by its counter.
- `TemplateServices` (TemplateServices.dfy): `UserServiceImplTemplate` and
  `BookServiceImplTemplate`, the hand-written SQL implementations.
- `JpaServices` (JpaServices.dfy): `UserServiceImpl` and `BookServiceImpl`,
  the repository-backed implementations that the facade calls.
- `Facade` (Facade.dfy): `UserDataFacade` and its four workflows. The stream
  pipeline that filters the book list is the pure function `KeepOnlyValid`.
  The inserted rows are `NewBooks`. The cascade of a user delete is
  `CascadeDelete`. The lemmas about these functions carry the ownership,
  replacement, cascade and idempotence properties.

Each workflow returns a `Result`. An exception becomes a `Failure`.
`@Transactional` is modelled as follows: a workflow that ends in a
`Failure` leaves both tables as they were. Only `createUserWithBooks` writes
before it can fail, because the user is inserted before the book list is
checked. That path calls `Database.Rollback`. The id counters are not rolled
back, because identity columns and sequences are not transactional. A
failed create therefore consumes a user id without storing a row.

Three places where the code says less, or other, than its own comments or
surroundings suggest; the model follows the code:

- The Javadoc of `UserValidator.isValidUserData`
  (validation/UserValidator.java:8) speaks of an age "not exceeding 120",
  but line 25 tests `< 120`. The model's check is 0 < age < 120.
- In `getUserWithBooks`, the null check at facade/UserDataFacade.java:150
  can never fire: the service reports an absent user by throwing its own
  `NotFoundException` first.
- The owned-ids query at service/impl/BookServiceImplTemplate.java:158-162
  has no ORDER BY, so its result is specified as a set of distinct ids, not
  as a list in creation order.

"Storage unchanged on error" is stated for the tables and the book
counter. The user counter stays put when the user part is rejected and
advances by one once the user has been inserted, even when the transaction
is then rolled back.

## Model

| member | source | states |
|---|---|---|
| Dto.MapUser | src/main/java/com/edu/ulab/app/facade/UserDataFacade.java:55-57 | the mapped user is null exactly when the request's user part is null; a mapped user has no id yet |
| Validation.IsWhitespace | src/main/java/com/edu/ulab/app/validation/UserValidator.java:17 | the whitespace `isBlank` skips is exactly Character.isWhitespace: a Unicode space, line or paragraph separator other than the three no-break spaces, or one of the controls tab to carriage return and U+001C to U+001F |
| Validation.IndexOfNonWhitespace | src/main/java/com/edu/ulab/app/validation/UserValidator.java:17 | the scan stops at the first non-whitespace character, or at the end; everything before it is whitespace |
| Validation.IsBlank | src/main/java/com/edu/ulab/app/validation/UserValidator.java:17 | a string is blank, judged by whether the scan reaches its end, if and only if every character is whitespace |
| Validation.HasText | src/main/java/com/edu/ulab/app/validation/UserValidator.java:17-23 | a field that passes the non-null and not-blank test is present and holds at least one non-whitespace character |
| Validation.IsValidUserData | src/main/java/com/edu/ulab/app/validation/UserValidator.java:12-30 | a valid user has a non-empty full name and title and an age in 1..119; UserAgeBoundaries, BlankUserTextRejected and UserValidatorIgnoresId give the converse cases |
| Validation.IsValidBookData | src/main/java/com/edu/ulab/app/validation/BookValidator.java:12-26 | a valid book has a non-empty title and author and a positive page count; BookPageCountBoundaries, BlankBookTextRejected and BookValidatorIgnoresIds give the converse cases |
| Validation.UserAgeBoundaries | src/main/java/com/edu/ulab/app/validation/UserValidator.java:25 | with good text fields, ages 1 and 119 pass; 120, 0 and every negative age fail |
| Validation.BlankUserTextRejected | src/main/java/com/edu/ulab/app/validation/UserValidator.java:17-23 | a null, empty or whitespace-only full name or title makes the user invalid |
| Validation.UserValidatorIgnoresId | src/main/java/com/edu/ulab/app/validation/UserValidator.java:12-30 | changing the id never changes the verdict |
| Validation.BookPageCountBoundaries | src/main/java/com/edu/ulab/app/validation/BookValidator.java:15 | with good text fields, page count 0 fails and 1 passes |
| Validation.BlankBookTextRejected | src/main/java/com/edu/ulab/app/validation/BookValidator.java:17-23 | a null, empty or whitespace-only title or author makes the book invalid |
| Validation.BookValidatorIgnoresIds | src/main/java/com/edu/ulab/app/validation/BookValidator.java:12-26 | changing the id or the owner never changes the verdict |
| Validation.BlankExamples | src/main/java/com/edu/ulab/app/validation/UserValidator.java:17 | "", spaces and tabs, and the ideographic space are blank; a string holding a letter is not, and neither is the non-breaking space |
| Storage.UserRoundTrip | src/main/java/com/edu/ulab/app/service/impl/UserServiceImpl.java:35-44 | storing a user and reading the row back gives the same record with the new id filled in; reading a row and storing the record gives the same row |
| Storage.BookRoundTrip | src/main/java/com/edu/ulab/app/service/impl/BookServiceImpl.java:37-46 | storing a book and reading the row back gives the same record with the new id filled in; reading a row and storing the record gives the same row |
| Storage.OwnedBy | src/main/java/com/edu/ulab/app/service/impl/BookServiceImplTemplate.java:158-162 | the books a user owns are stored books |
| Storage.OwnedByDisjoint | src/main/java/com/edu/ulab/app/service/impl/BookServiceImplTemplate.java:158-162 | two different users never own the same book |
| Storage.Database.InsertPerson | src/main/java/com/edu/ulab/app/service/impl/UserServiceImplTemplate.java:37-50 | the new row gets the counter's id, which no row had; nothing else changes |
| Storage.Database.UpdatePerson | src/main/java/com/edu/ulab/app/service/impl/UserServiceImplTemplate.java:66-78 | only the row with that id is overwritten; an absent id changes nothing |
| Storage.Database.DeletePerson | src/main/java/com/edu/ulab/app/service/impl/UserServiceImplTemplate.java:123-130 | at most the row with that id disappears |
| Storage.Database.InsertBook | src/main/java/com/edu/ulab/app/service/impl/BookServiceImplTemplate.java:35-51 | the new row gets the counter's id, which no row had; nothing else changes |
| Storage.Database.UpdateBook | src/main/java/com/edu/ulab/app/service/impl/BookServiceImplTemplate.java:67-82 | only the row with that id is overwritten; an absent id changes nothing |
| Storage.Database.DeleteBook | src/main/java/com/edu/ulab/app/service/impl/BookServiceImplTemplate.java:136-143 | at most the row with that id disappears |
| Storage.Database.SavePerson | src/main/java/com/edu/ulab/app/service/impl/UserServiceImpl.java:60 | an id naming a stored row is updated in place; a null or unknown id is stored under a fresh id |
| Storage.Database.SaveBook | src/main/java/com/edu/ulab/app/service/impl/BookServiceImpl.java:62 | the same merge-or-persist rule for books |
| Storage.Database.SelectBookIdsByUser | src/main/java/com/edu/ulab/app/service/impl/BookServiceImplTemplate.java:158-162 | the scan returns exactly the ids of the books whose owner is the given id, each once |
| Storage.Database.Rollback | src/main/java/com/edu/ulab/app/facade/UserDataFacade.java:51 | both tables return to their contents at the start of the transaction; the counters keep their values |
| TemplateServices.UserServiceImplTemplate.CreateUser | src/main/java/com/edu/ulab/app/service/impl/UserServiceImplTemplate.java:35-54 | always inserts under a fresh id and returns the record with that id; any incoming id is ignored |
| TemplateServices.UserServiceImplTemplate.UpdateUser | src/main/java/com/edu/ulab/app/service/impl/UserServiceImplTemplate.java:64-89 | an existing id is overwritten in place, keeps its id and leaves every other row alone; a null or unknown id acts as create |
| TemplateServices.UserServiceImplTemplate.GetUserById | src/main/java/com/edu/ulab/app/service/impl/UserServiceImplTemplate.java:98-112 | returns the stored row with its id exactly when the id is present, otherwise null; reads only |
| TemplateServices.UserServiceImplTemplate.DeleteUserById | src/main/java/com/edu/ulab/app/service/impl/UserServiceImplTemplate.java:121-133 | removes the row if present; an absent id is a no-op; books are untouched |
| TemplateServices.BookServiceImplTemplate.CreateBook | src/main/java/com/edu/ulab/app/service/impl/BookServiceImplTemplate.java:33-55 | inserts title, author, page count and owner under a fresh id and returns the record with that id |
| TemplateServices.BookServiceImplTemplate.UpdateBook | src/main/java/com/edu/ulab/app/service/impl/BookServiceImplTemplate.java:65-93 | an existing id has all four columns overwritten and keeps its id; a null or unknown id acts as create |
| TemplateServices.BookServiceImplTemplate.GetBookById | src/main/java/com/edu/ulab/app/service/impl/BookServiceImplTemplate.java:102-125 | returns the row with its id exactly when present, otherwise null; a NULL owner reads back as 0; reads only |
| TemplateServices.BookServiceImplTemplate.DeleteBookById | src/main/java/com/edu/ulab/app/service/impl/BookServiceImplTemplate.java:134-146 | removes the row if present; an absent id is a no-op; other rows are untouched |
| TemplateServices.BookServiceImplTemplate.FindAllBooksIdByUserId | src/main/java/com/edu/ulab/app/service/impl/BookServiceImplTemplate.java:156-166 | returns exactly the ids of the books owned by the given id, each once (empty when none); reads only |
| JpaServices.UserServiceImpl.CreateUser | src/main/java/com/edu/ulab/app/service/impl/UserServiceImpl.java:32-45 | the returned user equals the input except for its id, which is the id the row is stored under (fresh for a record without id) |
| JpaServices.UserServiceImpl.UpdateUser | src/main/java/com/edu/ulab/app/service/impl/UserServiceImpl.java:54-67 | an existing id keeps its id and takes the new fields; a null or unknown id yields a new user with a fresh id |
| JpaServices.UserServiceImpl.GetUserById | src/main/java/com/edu/ulab/app/service/impl/UserServiceImpl.java:75-86 | succeeds exactly when the id is non-null and stored, with the stored fields; otherwise fails with NotFound for that id |
| JpaServices.UserServiceImpl.DeleteUserById | src/main/java/com/edu/ulab/app/service/impl/UserServiceImpl.java:94-104 | removes a present user; an absent or null id is a silent no-op |
| JpaServices.BookServiceImpl.CreateBook | src/main/java/com/edu/ulab/app/service/impl/BookServiceImpl.java:34-47 | the returned book equals the input except for its id, which is the id the row is stored under; owner and fields are stored as given |
| JpaServices.BookServiceImpl.UpdateBook | src/main/java/com/edu/ulab/app/service/impl/BookServiceImpl.java:56-69 | an existing id keeps its id and takes the new fields; a null or unknown id yields a new book |
| JpaServices.BookServiceImpl.GetBookById | src/main/java/com/edu/ulab/app/service/impl/BookServiceImpl.java:77-87 | returns the stored book exactly when present, otherwise null |
| JpaServices.BookServiceImpl.DeleteBookById | src/main/java/com/edu/ulab/app/service/impl/BookServiceImpl.java:95-101 | removes the book when it exists; an absent id is a no-op |
| JpaServices.BookServiceImpl.FindAllBooksIdByUserId | src/main/java/com/edu/ulab/app/service/impl/BookServiceImpl.java:110-117 | returns exactly the ids of the books owned by the given id, each once |
| Facade.KeptFrom | src/main/java/com/edu/ulab/app/facade/UserDataFacade.java:68-70 | one entry yields at most one record, and only a valid one without id or owner |
| Facade.KeepOnlyValid | src/main/java/com/edu/ulab/app/facade/UserDataFacade.java:66-70 | the kept records are no more than the entries, and each is valid and has neither id nor owner |
| Facade.KeepOnlyValidAppend | src/main/java/com/edu/ulab/app/facade/UserDataFacade.java:66-70 | filtering distributes over concatenation, so kept records keep their input order |
| Facade.KeepOnlyValidMembers | src/main/java/com/edu/ulab/app/facade/UserDataFacade.java:68-70 | a record is kept if and only if it is valid and some non-null entry maps to it |
| Facade.KeepOnlyValidKeepsAllValid | src/main/java/com/edu/ulab/app/facade/UserDataFacade.java:66-70 | when every entry is non-null and valid, nothing is dropped and the k-th kept record is the k-th mapped entry |
| Facade.KeepOnlyValidDropsBlankTitle | src/main/java/com/edu/ulab/app/facade/UserDataFacade.java:68-70 | a list with one complete book and one book with an empty title keeps the first only |
| Facade.NewBooks | src/main/java/com/edu/ulab/app/facade/UserDataFacade.java:71-75 | the rows the pipeline creates lie in the id range first .. first + n - 1 |
| Facade.NewBooksAt | src/main/java/com/edu/ulab/app/facade/UserDataFacade.java:71-75 | the rows created by the pipeline occupy exactly the ids first .. first + n - 1, the k-th holding the k-th kept record with its owner set |
| Facade.NewBooksOwned | src/main/java/com/edu/ulab/app/facade/UserDataFacade.java:71 | every created row is owned by the user the workflow stored |
| Facade.InsertedRows | src/main/java/com/edu/ulab/app/facade/UserDataFacade.java:71-75 | each created id was free before and now holds its kept record, owned by the user |
| Facade.CascadeDelete | src/main/java/com/edu/ulab/app/facade/UserDataFacade.java:172-182 | the cascade only removes rows; every remaining row is unchanged |
| Facade.CascadeDeleteEffect | src/main/java/com/edu/ulab/app/facade/UserDataFacade.java:172-182 | after the cascade the user owns no book and every book of another owner is unchanged |
| Facade.CascadeDeleteIdempotent | src/main/java/com/edu/ulab/app/facade/UserDataFacade.java:167-185 | a second cascade for the same user removes nothing more |
| Facade.CascadeDeleteNothingOwned | src/main/java/com/edu/ulab/app/facade/UserDataFacade.java:112-116 | a user id above every stored owner loses no book to the cascade |
| Facade.OwnedAfterCreate | src/main/java/com/edu/ulab/app/facade/UserDataFacade.java:118-124 | creating books above every existing id adds exactly the new ids to the owner's set |
| Facade.OwnedAfterReplace | src/main/java/com/edu/ulab/app/facade/UserDataFacade.java:112-126 | after the cascade and the inserts the owner's books are exactly the inserted ones, and none of them reuses an id the owner had before |
| Facade.UserDataFacade.CreateIfValid | src/main/java/com/edu/ulab/app/facade/UserDataFacade.java:68-75 | one entry is created, owned by the user, exactly when it is non-null and valid, under the next id |
| Facade.UserDataFacade.CreateValidBooks | src/main/java/com/edu/ulab/app/facade/UserDataFacade.java:66-76 | creates the kept records in input order under consecutive fresh ids, returns those ids in that order, and touches no user |
| Facade.UserDataFacade.DeleteBooksById | src/main/java/com/edu/ulab/app/facade/UserDataFacade.java:114-116 | the books table loses exactly the listed ids; absent ids are no-ops |
| Facade.UserDataFacade.CreateUserWithBooks | src/main/java/com/edu/ulab/app/facade/UserDataFacade.java:51-83 | fails on a null user, an invalid user and a null book list, in that order, with both tables and the book counter unchanged; the user counter is unchanged on the first two failures and advanced by one from the user insert on; succeeds otherwise, storing the user under a fresh id and one book per kept entry, with the returned ids in input order and the book counter advanced by their number; keeps every book owner an issued user id |
| Facade.UserDataFacade.UpdateUserWithBooks | src/main/java/com/edu/ulab/app/facade/UserDataFacade.java:95-133 | fails on a null id, a null user, an invalid user and a null book list, in that order, changing nothing; otherwise upserts the user (the user counter advancing only for an unknown id), replaces the user's books wholesale with the kept entries, advances the book counter by their number, and returns exactly the ids the user now owns, none of them an old one; for an unknown id, when every stored owner is an issued user id, the books change exactly as in create |
| Facade.UserDataFacade.GetUserWithBooks | src/main/java/com/edu/ulab/app/facade/UserDataFacade.java:143-159 | a null id is invalid, an absent user is NotFound, otherwise the id with exactly the ids of the books the user owns; reads only |
| Facade.UserDataFacade.DeleteUserWithBooks | src/main/java/com/edu/ulab/app/facade/UserDataFacade.java:167-185 | a null id changes nothing; otherwise the user row is gone and so is every book the id owned, whether or not the user row existed; other rows are untouched; never fails |
| Facade.UserDataFacade.DeleteUserWithBooksTwice | src/main/java/com/edu/ulab/app/facade/UserDataFacade.java:167-185 | deleting twice has the same effect as deleting once |

## Left out

- Logging, Spring wiring and dependency injection are not modelled. They carry no logic.
- The transaction machinery is reduced to the rollback described above. A storage call that fails at run time (a lost connection, a constraint violation) is not modelled: storage operations always succeed.
- `UserMapper` and `BookMapper` are not part of this model. Their generated code is not available, so mapping is modelled as a field copy. A null user request maps to a null record.
- A null `UserBookRequest` passed to a workflow raises a NullPointerException in the code. The model's request is a value and is never null.
- Java `Long` ids are unbounded integers. Overflow of the identity counters is not modelled.
- Concurrent interleaving of workflows is not modelled. Each method runs alone.
- The owned-ids query returns its ids in ascending order in the model. The contracts state only the set and the absence of duplicates, because the query has no ORDER BY.
- The text of `NotFoundException` is not modelled. The error carries the looked-up id.
- Strings are sequences of Unicode scalar values. A string holding a lone UTF-16 surrogate cannot be represented.
- TemplateServices.BookServiceImplTemplate.CreateBook: requires a non-null owner. A null owner makes `setLong` unbox null and throw, which is not modelled.
- TemplateServices.BookServiceImplTemplate.UpdateBook: requires a non-null owner, for the same reason.
- TemplateServices.BookServiceImplTemplate.GetBookById: reads the page count back as an unbounded integer. The code writes it with `setLong` (service/impl/BookServiceImplTemplate.java:44) but reads it with `rs.getInt` (line 115), so a page count outside the 32-bit range cannot be read back; that narrowing is not modelled.
- TemplateServices.UserServiceImplTemplate.GetUserById: takes a non-null id. A null id throws from unboxing in `setLong`, which is not modelled. The same holds for `DeleteUserById`, and for `GetBookById`, `DeleteBookById` and `FindAllBooksIdByUserId` of the book template.
- JpaServices.BookServiceImpl.GetBookById: takes a non-null id. `findById(null)` throws IllegalArgumentException, which is not modelled. The same holds for `existsById(null)` in `DeleteBookById`, and for unboxing the owner id in `FindAllBooksIdByUserId`. The facade always passes non-null ids to these.
- JpaServices.UserServiceImpl.GetUserById: a null id yields `NotFound` for that null id. This follows the service's own test, where the repository is a mock. The real repository's `findById(null)` throws IllegalArgumentException instead, which is not modelled. The facade never passes a null id here.
- JpaServices.UserServiceImpl.DeleteUserById: the swallowed exception for an absent id is modelled as a no-op. In Spring, that exception also marks the surrounding transaction rollback-only, so a facade delete of an absent user would end in an UnexpectedRollbackException at commit. The model's transactions have no rollback-only state.
- Identity counters are not rolled back by `Storage.Database.Rollback`. This is a modelling choice that matches sequence-backed ids. A failed create therefore leaves `nextUserId` advanced.
- The template services are not called by the facade. They are modelled over the same `Database` so that both implementations are stated against one table model.
