/** The two tables both service implementations work on: PERSON and BOOK,
    each keyed by a storage-assigned id taken from its own counter.

    Each method of `Database` is the effect of one SQL statement (or one
    repository call) on the tables; the services are built from them. */
module Storage {
  import opened Dto

  /** A PERSON row. */
  datatype Person = Person(fullName: Option<string>, title: Option<string>, age: int)

  /** A BOOK row; the owner column USER_ID may hold NULL. */
  datatype Book = Book(userId: Option<int>, title: Option<string>, author: Option<string>, pageCount: int)

  /** The columns a user record writes (its id is never a column value). */
  function PersonOf(user: UserDto): Person
  {
    Person(user.fullName, user.title, user.age)
  }

  /** The record read back from a PERSON row. */
  function UserDtoOf(id: int, row: Person): UserDto
  {
    UserDto(Some(id), row.fullName, row.title, row.age)
  }

  function BookOf(book: BookDto): Book
  {
    Book(book.userId, book.title, book.author, book.pageCount)
  }

  function BookDtoOf(id: int, row: Book): BookDto
  {
    BookDto(Some(id), row.userId, row.title, row.author, row.pageCount)
  }

  /** Writing a record and reading it back under its new id gives the record
      with that id filled in; reading a row and writing the record back gives
      the same row. */
  lemma UserRoundTrip(user: UserDto, row: Person, id: int)
    ensures UserDtoOf(id, PersonOf(user)) == user.(id := Some(id))
    ensures UserDtoOf(id, row).id == Some(id) && PersonOf(UserDtoOf(id, row)) == row
  {
  }

  lemma BookRoundTrip(book: BookDto, row: Book, id: int)
    ensures BookDtoOf(id, BookOf(book)) == book.(id := Some(id))
    ensures BookDtoOf(id, row).id == Some(id) && BookOf(BookDtoOf(id, row)) == row
  {
  }

  /** The ids of the books whose owner column equals `userId`. */
  function OwnedBy(books: map<int, Book>, userId: int): (owned: set<int>)
    ensures owned <= books.Keys
  {
    set id | id in books && books[id].userId == Some(userId)
  }

  /** A book has one owner column, so no book belongs to two users. */
  lemma OwnedByDisjoint(books: map<int, Book>, userId: int, otherId: int)
    requires userId != otherId
    ensures OwnedBy(books, userId) !! OwnedBy(books, otherId)
  {
  }

  /** The ids a list holds. */
  function Elements(ids: seq<int>): set<int>
  {
    set id | id in ids
  }

  /** A list holding exactly the owned ids holds the set OwnedBy. */
  lemma OwnedIdsElements(ids: seq<int>, books: map<int, Book>, userId: int)
    requires forall id :: id in ids <==> id in books && books[id].userId == Some(userId)
    ensures Elements(ids) == OwnedBy(books, userId)
  {
    assert forall id :: id in Elements(ids) <==> id in OwnedBy(books, userId);
  }

  /** No id occurs twice. */
  predicate Distinct(ids: seq<int>)
  {
    forall i, j :: 0 <= i < j < |ids| ==> ids[i] != ids[j]
  }

  class Database {
    var users: map<int, Person>
    var books: map<int, Book>
    /** The next id the PERSON identity column hands out. */
    var nextUserId: int
    /** The next id the BOOK identity column hands out. */
    var nextBookId: int

    /** Every stored id was handed out by its counter, which starts at 1, so
        the counter value is always fresh. */
    ghost predicate Valid()
      reads this
    {
      && 1 <= nextUserId && 1 <= nextBookId
      && (forall id :: id in users ==> 1 <= id < nextUserId)
      && (forall id :: id in books ==> 1 <= id < nextBookId)
    }

    /** Every owner id stored in BOOK is one the PERSON counter has handed
        out. Nothing enforces it (there is no foreign-key check); the facade
        workflows preserve it. */
    ghost predicate OwnersIssued()
      reads this
    {
      forall id :: id in books && books[id].userId.Some? ==> books[id].userId.value < nextUserId
    }

    constructor ()
      ensures Valid() && OwnersIssued()
      ensures users == map[] && books == map[]
      ensures nextUserId == 1 && nextBookId == 1
    {
      users, books := map[], map[];
      nextUserId, nextBookId := 1, 1;
    }

    /** INSERT INTO PERSON: a new row under a fresh generated key. */
    method InsertPerson(row: Person) returns (id: int)
      requires Valid()
      modifies this
      ensures Valid()
      ensures id == old(nextUserId) && id !in old(users)
      ensures users == old(users)[id := row] && nextUserId == old(nextUserId) + 1
      ensures books == old(books) && nextBookId == old(nextBookId)
    {
      id := nextUserId;
      users := users[id := row];
      nextUserId := nextUserId + 1;
    }

    /** UPDATE PERSON ... WHERE ID = ?: touches that row only, and no row when
        the id is absent. */
    method UpdatePerson(id: int, row: Person)
      requires Valid()
      modifies this
      ensures Valid()
      ensures users == if id in old(users) then old(users)[id := row] else old(users)
      ensures books == old(books) && nextUserId == old(nextUserId) && nextBookId == old(nextBookId)
    {
      if id in users {
        users := users[id := row];
      }
    }

    /** DELETE FROM PERSON WHERE ID = ?: removes at most that row. */
    method DeletePerson(id: int)
      requires Valid()
      modifies this
      ensures Valid()
      ensures users == old(users) - {id}
      ensures books == old(books) && nextUserId == old(nextUserId) && nextBookId == old(nextBookId)
    {
      users := users - {id};
    }

    /** INSERT INTO BOOK: a new row under a fresh generated key. */
    method InsertBook(row: Book) returns (id: int)
      requires Valid()
      modifies this
      ensures Valid()
      ensures id == old(nextBookId) && id !in old(books)
      ensures books == old(books)[id := row] && nextBookId == old(nextBookId) + 1
      ensures users == old(users) && nextUserId == old(nextUserId)
    {
      id := nextBookId;
      books := books[id := row];
      nextBookId := nextBookId + 1;
    }

    /** UPDATE BOOK ... WHERE ID = ?. */
    method UpdateBook(id: int, row: Book)
      requires Valid()
      modifies this
      ensures Valid()
      ensures books == if id in old(books) then old(books)[id := row] else old(books)
      ensures users == old(users) && nextUserId == old(nextUserId) && nextBookId == old(nextBookId)
    {
      if id in books {
        books := books[id := row];
      }
    }

    /** DELETE FROM BOOK WHERE ID = ?. */
    method DeleteBook(id: int)
      requires Valid()
      modifies this
      ensures Valid()
      ensures books == old(books) - {id}
      ensures users == old(users) && nextUserId == old(nextUserId) && nextBookId == old(nextBookId)
    {
      books := books - {id};
    }

    /** The repository's save of a PERSON entity: an entity whose id names a
        stored row is merged into that row; one with a null id, or with an id
        no row has, is persisted under a freshly generated id. Returns the id
        the entity is stored under. */
    method SavePerson(id: Option<int>, row: Person) returns (savedId: int)
      requires Valid()
      modifies this
      ensures Valid()
      ensures id.Some? && id.value in old(users) ==>
                savedId == id.value && nextUserId == old(nextUserId)
      ensures !(id.Some? && id.value in old(users)) ==>
                savedId == old(nextUserId) && nextUserId == old(nextUserId) + 1
      ensures users == old(users)[savedId := row]
      ensures books == old(books) && nextBookId == old(nextBookId)
    {
      if id.Some? && id.value in users {
        UpdatePerson(id.value, row);
        savedId := id.value;
      } else {
        savedId := InsertPerson(row);
      }
    }

    /** The repository's save of a BOOK entity, with the same merge-or-persist
        rule. */
    method SaveBook(id: Option<int>, row: Book) returns (savedId: int)
      requires Valid()
      modifies this
      ensures Valid()
      ensures id.Some? && id.value in old(books) ==>
                savedId == id.value && nextBookId == old(nextBookId)
      ensures !(id.Some? && id.value in old(books)) ==>
                savedId == old(nextBookId) && nextBookId == old(nextBookId) + 1
      ensures books == old(books)[savedId := row]
      ensures users == old(users) && nextUserId == old(nextUserId)
    {
      if id.Some? && id.value in books {
        UpdateBook(id.value, row);
        savedId := id.value;
      } else {
        savedId := InsertBook(row);
      }
    }

    /** SELECT ID FROM BOOK WHERE USER_ID = ?: a scan of the table keeping
        the matching rows. The scan visits keys in ascending order; the query
        has no ORDER BY, so callers may rely on the set of ids only. */
    method SelectBookIdsByUser(userId: int) returns (ids: seq<int>)
      requires Valid()
      ensures forall id :: id in ids <==> id in OwnedBy(books, userId)
      ensures Distinct(ids)
    {
      ids := [];
      var key := 1;
      while key < nextBookId
        invariant 1 <= key <= nextBookId
        invariant forall id :: id in ids <==> id in books && id < key && books[id].userId == Some(userId)
        invariant forall i :: 0 <= i < |ids| ==> ids[i] < key
        invariant Distinct(ids)
      {
        if key in books && books[key].userId == Some(userId) {
          ids := ids + [key];
        }
        key := key + 1;
      }
    }

    /** The rollback of an enclosing transaction: both tables return to the
        contents they had when it began. The id counters are not rolled back,
        as identity columns and sequences are not transactional. */
    method Rollback(users0: map<int, Person>, books0: map<int, Book>)
      requires Valid()
      requires forall id :: id in users0 ==> 1 <= id < nextUserId
      requires forall id :: id in books0 ==> 1 <= id < nextBookId
      modifies this
      ensures Valid()
      ensures users == users0 && books == books0
      ensures nextUserId == old(nextUserId) && nextBookId == old(nextBookId)
    {
      users, books := users0, books0;
    }
  }
}
