/** The repository-backed services UserServiceImpl and BookServiceImpl, the
    ones the facade calls. Both tables are reached through the repositories'
    save, findById, existsById, deleteById and the owner query. */
module JpaServices {
  import opened Dto
  import opened Storage

  class UserServiceImpl {
    const db: Database

    constructor (db: Database)
      ensures this.db == db
    {
      this.db := db;
    }

    /** createUser: save the mapped entity and return it, with the id it was
        stored under. A record without an id always gets a fresh one. */
    method CreateUser(user: UserDto) returns (saved: UserDto)
      requires db.Valid()
      modifies db
      ensures db.Valid()
      ensures saved.id.Some? && saved == user.(id := saved.id)
      ensures user.id.Some? && user.id.value in old(db.users) ==>
                saved.id == user.id && db.nextUserId == old(db.nextUserId)
      ensures !(user.id.Some? && user.id.value in old(db.users)) ==>
                saved.id == Some(old(db.nextUserId)) && db.nextUserId == old(db.nextUserId) + 1
      ensures db.users == old(db.users)[saved.id.value := PersonOf(user)]
      ensures db.books == old(db.books) && db.nextBookId == old(db.nextBookId)
    {
      var id := db.SavePerson(user.id, PersonOf(user));
      saved := UserDtoOf(id, db.users[id]);
    }

    /** updateUser: the same save; an existing id keeps its id and takes the
        new fields, an unknown or null id yields a new user. */
    method UpdateUser(user: UserDto) returns (saved: UserDto)
      requires db.Valid()
      modifies db
      ensures db.Valid()
      ensures saved.id.Some? && saved == user.(id := saved.id)
      ensures user.id.Some? && user.id.value in old(db.users) ==>
                saved.id == user.id && db.nextUserId == old(db.nextUserId)
      ensures !(user.id.Some? && user.id.value in old(db.users)) ==>
                saved.id == Some(old(db.nextUserId)) && db.nextUserId == old(db.nextUserId) + 1
      ensures db.users == old(db.users)[saved.id.value := PersonOf(user)]
      ensures db.books == old(db.books) && db.nextBookId == old(db.nextBookId)
    {
      var id := db.SavePerson(user.id, PersonOf(user));
      saved := UserDtoOf(id, db.users[id]);
    }

    /** getUserById: the stored user, or NotFound when the id is absent or null. */
    method GetUserById(id: Option<int>) returns (r: Result<UserDto, Error>)
      ensures r.Success? <==> id.Some? && id.value in db.users
      ensures r.Success? ==> r.value.id == id && PersonOf(r.value) == db.users[id.value]
      ensures r.Failure? ==> r.error == NotFound(id)
    {
      if id.Some? && id.value in db.users {
        r := Success(UserDtoOf(id.value, db.users[id.value]));
      } else {
        r := Failure(NotFound(id));
      }
    }

    /** deleteUserById: deleteById; the failure on an absent or null id is
        caught and ignored, so those are no-ops. */
    method DeleteUserById(id: Option<int>)
      requires db.Valid()
      modifies db
      ensures db.Valid()
      ensures db.users == if id.Some? then old(db.users) - {id.value} else old(db.users)
      ensures db.books == old(db.books)
      ensures db.nextUserId == old(db.nextUserId) && db.nextBookId == old(db.nextBookId)
    {
      if id.Some? && id.value in db.users {
        db.DeletePerson(id.value);
      }
    }
  }

  class BookServiceImpl {
    const db: Database

    constructor (db: Database)
      ensures this.db == db
    {
      this.db := db;
    }

    /** createBook: save the mapped entity and return it with its id; owner,
        title, author and page count are stored as given. */
    method CreateBook(book: BookDto) returns (saved: BookDto)
      requires db.Valid()
      modifies db
      ensures db.Valid()
      ensures saved.id.Some? && saved == book.(id := saved.id)
      ensures book.id.Some? && book.id.value in old(db.books) ==>
                saved.id == book.id && db.nextBookId == old(db.nextBookId)
      ensures !(book.id.Some? && book.id.value in old(db.books)) ==>
                saved.id == Some(old(db.nextBookId)) && db.nextBookId == old(db.nextBookId) + 1
      ensures db.books == old(db.books)[saved.id.value := BookOf(book)]
      ensures db.users == old(db.users) && db.nextUserId == old(db.nextUserId)
    {
      var id := db.SaveBook(book.id, BookOf(book));
      saved := BookDtoOf(id, db.books[id]);
    }

    /** updateBook: the same save; an existing id keeps its id, an unknown or
        null id yields a new book. */
    method UpdateBook(book: BookDto) returns (saved: BookDto)
      requires db.Valid()
      modifies db
      ensures db.Valid()
      ensures saved.id.Some? && saved == book.(id := saved.id)
      ensures book.id.Some? && book.id.value in old(db.books) ==>
                saved.id == book.id && db.nextBookId == old(db.nextBookId)
      ensures !(book.id.Some? && book.id.value in old(db.books)) ==>
                saved.id == Some(old(db.nextBookId)) && db.nextBookId == old(db.nextBookId) + 1
      ensures db.books == old(db.books)[saved.id.value := BookOf(book)]
      ensures db.users == old(db.users) && db.nextUserId == old(db.nextUserId)
    {
      var id := db.SaveBook(book.id, BookOf(book));
      saved := BookDtoOf(id, db.books[id]);
    }

    /** getBookById: findById(id).orElse(null), mapped; null when absent. */
    method GetBookById(id: int) returns (book: Option<BookDto>)
      ensures book.Some? <==> id in db.books
      ensures book.Some? ==> book.value.id == Some(id) && BookOf(book.value) == db.books[id]
    {
      if id in db.books {
        book := Some(BookDtoOf(id, db.books[id]));
      } else {
        book := None;
      }
    }

    /** deleteBookById: deleteById guarded by existsById, so an absent id is a
        no-op and raises nothing. */
    method DeleteBookById(id: int)
      requires db.Valid()
      modifies db
      ensures db.Valid()
      ensures db.books == old(db.books) - {id}
      ensures db.users == old(db.users)
      ensures db.nextUserId == old(db.nextUserId) && db.nextBookId == old(db.nextBookId)
    {
      if id in db.books {
        db.DeleteBook(id);
      }
    }

    /** findAllBooksIdByUserId: the repository query for the ids of exactly the
        books owned by `userId`, each once. */
    method FindAllBooksIdByUserId(userId: int) returns (ids: seq<int>)
      requires db.Valid()
      ensures forall id :: id in ids <==> id in db.books && db.books[id].userId == Some(userId)
      ensures Distinct(ids)
    {
      ids := db.SelectBookIdsByUser(userId);
    }
  }
}
