/** The JDBC-template services UserServiceImplTemplate and
    BookServiceImplTemplate: every operation spelled out as SQL statements on
    the PERSON and BOOK tables. */
module TemplateServices {
  import opened Dto
  import opened Storage

  class UserServiceImplTemplate {
    const db: Database

    constructor (db: Database)
      ensures this.db == db
    {
      this.db := db;
    }

    /** createUser: INSERT, then the generated key is written into the
        record, which is returned. Any id the record carried is ignored. */
    method CreateUser(user: UserDto) returns (created: UserDto)
      requires db.Valid()
      modifies db
      ensures db.Valid()
      ensures created == user.(id := Some(old(db.nextUserId)))
      ensures old(db.nextUserId) !in old(db.users)
      ensures db.users == old(db.users)[old(db.nextUserId) := PersonOf(user)]
      ensures db.nextUserId == old(db.nextUserId) + 1
      ensures db.books == old(db.books) && db.nextBookId == old(db.nextBookId)
    {
      var id := db.InsertPerson(PersonOf(user));
      created := user.(id := Some(id));
    }

    /** updateUser, an upsert: a record whose id names a stored row
        overwrites that row and is returned as is; any other record (null id
        or unknown id) is created under a fresh id. */
    method UpdateUser(user: UserDto) returns (updated: UserDto)
      requires db.Valid()
      modifies db
      ensures db.Valid()
      ensures user.id.Some? && user.id.value in old(db.users) ==>
                && updated == user
                && db.users == old(db.users)[user.id.value := PersonOf(user)]
                && db.nextUserId == old(db.nextUserId)
      ensures !(user.id.Some? && user.id.value in old(db.users)) ==>
                && updated == user.(id := Some(old(db.nextUserId)))
                && db.users == old(db.users)[old(db.nextUserId) := PersonOf(user)]
                && db.nextUserId == old(db.nextUserId) + 1
      ensures db.books == old(db.books) && db.nextBookId == old(db.nextBookId)
    {
      var existing: Option<UserDto> := None;
      if user.id.Some? {
        existing := GetUserById(user.id.value);
      }
      if existing.Some? {
        db.UpdatePerson(user.id.value, PersonOf(user));
        updated := user;
      } else {
        updated := CreateUser(user);
      }
    }

    /** getUserById: the stored row as a record, or null when the id is absent. */
    method GetUserById(id: int) returns (user: Option<UserDto>)
      ensures user.Some? <==> id in db.users
      ensures user.Some? ==> user.value.id == Some(id) && PersonOf(user.value) == db.users[id]
    {
      if id in db.users {
        user := Some(UserDtoOf(id, db.users[id]));
      } else {
        user := None;
      }
    }

    /** deleteUserById: DELETE ... WHERE ID = ?; an absent id deletes nothing
        and raises nothing. */
    method DeleteUserById(id: int)
      requires db.Valid()
      modifies db
      ensures db.Valid()
      ensures db.users == old(db.users) - {id}
      ensures db.books == old(db.books)
      ensures db.nextUserId == old(db.nextUserId) && db.nextBookId == old(db.nextBookId)
    {
      db.DeletePerson(id);
    }
  }

  /** The owner column as a primitive long reads it: NULL becomes 0. */
  function OwnerColumn(row: Book): (owner: int)
    ensures row.userId.Some? ==> owner == row.userId.value
    ensures row.userId.None? ==> owner == 0
  {
    match row.userId
    case Some(userId) => userId
    case None => 0
  }

  class BookServiceImplTemplate {
    const db: Database

    constructor (db: Database)
      ensures this.db == db
    {
      this.db := db;
    }

    /** createBook: INSERT with title, author, page count and owner, then the
        generated key is written into the record. */
    method CreateBook(book: BookDto) returns (created: BookDto)
      requires db.Valid()
      requires book.userId.Some?
      modifies db
      ensures db.Valid()
      ensures created == book.(id := Some(old(db.nextBookId)))
      ensures old(db.nextBookId) !in old(db.books)
      ensures db.books == old(db.books)[old(db.nextBookId) := BookOf(book)]
      ensures db.nextBookId == old(db.nextBookId) + 1
      ensures db.users == old(db.users) && db.nextUserId == old(db.nextUserId)
    {
      var id := db.InsertBook(BookOf(book));
      created := book.(id := Some(id));
    }

    /** updateBook, an upsert like updateUser: an existing id has all four
        columns overwritten, owner included; a null or unknown id creates a
        new book. */
    method UpdateBook(book: BookDto) returns (updated: BookDto)
      requires db.Valid()
      requires book.userId.Some?
      modifies db
      ensures db.Valid()
      ensures book.id.Some? && book.id.value in old(db.books) ==>
                && updated == book
                && db.books == old(db.books)[book.id.value := BookOf(book)]
                && db.nextBookId == old(db.nextBookId)
      ensures !(book.id.Some? && book.id.value in old(db.books)) ==>
                && updated == book.(id := Some(old(db.nextBookId)))
                && db.books == old(db.books)[old(db.nextBookId) := BookOf(book)]
                && db.nextBookId == old(db.nextBookId) + 1
      ensures db.users == old(db.users) && db.nextUserId == old(db.nextUserId)
    {
      var existing: Option<BookDto> := None;
      if book.id.Some? {
        existing := GetBookById(book.id.value);
      }
      if existing.Some? {
        db.UpdateBook(book.id.value, BookOf(book));
        updated := book;
      } else {
        updated := CreateBook(book);
      }
    }

    /** getBookById: the stored row as a record, or null when the id is
        absent. The owner column is read as a primitive long, so a NULL
        owner comes back as owner 0. */
    method GetBookById(id: int) returns (book: Option<BookDto>)
      ensures book.Some? <==> id in db.books
      ensures book.Some? ==>
                && book.value.id == Some(id)
                && book.value.userId == Some(OwnerColumn(db.books[id]))
                && book.value.title == db.books[id].title
                && book.value.author == db.books[id].author
                && book.value.pageCount == db.books[id].pageCount
      ensures book.Some? && db.books[id].userId.None? ==> book.value.userId == Some(0)
    {
      if id in db.books {
        var row := db.books[id];
        book := Some(BookDto(Some(id), Some(OwnerColumn(row)), row.title, row.author, row.pageCount));
      } else {
        book := None;
      }
    }

    /** deleteBookById: DELETE ... WHERE ID = ?; an absent id is a no-op. */
    method DeleteBookById(id: int)
      requires db.Valid()
      modifies db
      ensures db.Valid()
      ensures db.books == old(db.books) - {id}
      ensures db.users == old(db.users)
      ensures db.nextUserId == old(db.nextUserId) && db.nextBookId == old(db.nextBookId)
    {
      db.DeleteBook(id);
    }

    /** findAllBooksIdByUserId: the ids of exactly the books owned by
        `userId`, each once; empty (never null) when there are none. */
    method FindAllBooksIdByUserId(userId: int) returns (ids: seq<int>)
      requires db.Valid()
      ensures forall id :: id in ids <==> id in db.books && db.books[id].userId == Some(userId)
      ensures Distinct(ids)
    {
      ids := db.SelectBookIdsByUser(userId);
    }
  }
}
