/** UserDataFacade: the four "user together with the user's books"
    workflows, composed from the repository-backed services and the
    validators. Each workflow is one transaction: an error result leaves both
    tables as they were. */
module Facade {
  import opened Dto
  import opened Validation
  import opened Storage
  import opened JpaServices

  /** What one entry of the book list contributes to the stored books: a
      null entry nothing, an entry whose mapped record fails validation
      nothing, any other entry its mapped record. */
  function KeptFrom(entry: Option<BookRequest>): (kept: seq<BookDto>)
    ensures |kept| <= 1
    ensures forall b :: b in kept ==> IsValidBookData(b) && b.id.None? && b.userId.None?
  {
    match entry
    case None => []
    case Some(request) => if IsValidBookData(MapBook(request)) then [MapBook(request)] else []
  }

  /** keepOnlyValid: the book-list pipeline's two filters (non-null, then
      valid) over the mapped records, keeping input order. Dropped entries are
      not reported. */
  function KeepOnlyValid(requests: seq<Option<BookRequest>>): (kept: seq<BookDto>)
    ensures |kept| <= |requests|
    ensures forall b :: b in kept ==> IsValidBookData(b) && b.id.None? && b.userId.None?
  {
    if requests == [] then [] else KeptFrom(requests[0]) + KeepOnlyValid(requests[1..])
  }

  /** Filtering distributes over concatenation: the kept records of a list
      are those of its first part followed by those of its second part, so
      the relative order of kept entries is the input order. */
  lemma {:induction false} KeepOnlyValidAppend(a: seq<Option<BookRequest>>, b: seq<Option<BookRequest>>)
    ensures KeepOnlyValid(a + b) == KeepOnlyValid(a) + KeepOnlyValid(b)
  {
    if a == [] {
      assert a + b == b;
    } else {
      assert (a + b)[1..] == a[1..] + b;
      KeepOnlyValidAppend(a[1..], b);
    }
  }

  /** A record is kept exactly when some entry is non-null and maps to it
      and it passes validation. */
  lemma {:induction false} KeepOnlyValidMembers(requests: seq<Option<BookRequest>>, book: BookDto)
    ensures book in KeepOnlyValid(requests) <==>
              IsValidBookData(book) &&
              exists i :: 0 <= i < |requests| && requests[i].Some? && MapBook(requests[i].value) == book
  {
    if requests != [] {
      KeepOnlyValidMembers(requests[1..], book);
      if exists i :: 0 <= i < |requests[1..]| && requests[1..][i].Some? && MapBook(requests[1..][i].value) == book {
        var i :| 0 <= i < |requests[1..]| && requests[1..][i].Some? && MapBook(requests[1..][i].value) == book;
        assert requests[i + 1] == requests[1..][i];
      }
      if exists i :: 0 <= i < |requests| && requests[i].Some? && MapBook(requests[i].value) == book {
        var i :| 0 <= i < |requests| && requests[i].Some? && MapBook(requests[i].value) == book;
        if i > 0 {
          assert requests[1..][i - 1] == requests[i];
        }
      }
    }
  }

  /** When every entry is present and valid nothing is dropped: the kept
      records are the mapped entries, one for one, in order. */
  lemma {:induction false} KeepOnlyValidKeepsAllValid(requests: seq<Option<BookRequest>>)
    requires forall i :: 0 <= i < |requests| ==> requests[i].Some? && IsValidBookData(MapBook(requests[i].value))
    ensures |KeepOnlyValid(requests)| == |requests|
    ensures forall i :: 0 <= i < |requests| ==> KeepOnlyValid(requests)[i] == MapBook(requests[i].value)
  {
    if requests != [] {
      KeepOnlyValidKeepsAllValid(requests[1..]);
    }
  }

  /** A request with one complete book and one whose title is empty keeps
      the first only: one id is created, and the blank entry is dropped
      without an error. */
  lemma KeepOnlyValidDropsBlankTitle()
    ensures KeepOnlyValid([Some(BookRequest(Some("T1"), Some("Au"), 100)),
                           Some(BookRequest(Some(""), Some("Au"), 50))]) ==
              [MapBook(BookRequest(Some("T1"), Some("Au"), 100))]
  {
    var complete := BookRequest(Some("T1"), Some("Au"), 100);
    var blank := BookRequest(Some(""), Some("Au"), 50);
    assert "T1"[0] == 'T' && "Au"[0] == 'A';
    assert IsValidBookData(MapBook(complete));
    assert !IsValidBookData(MapBook(blank));
    var requests := [Some(complete), Some(blank)];
    assert requests[1..] == [Some(blank)];
    assert requests[1..][1..] == [];
  }

  /** The book rows a workflow inserts for `owner`: the k-th kept record
      under id first + k, with its owner set. */
  function NewBooks(first: int, kept: seq<BookDto>, owner: int): (rows: map<int, Book>)
    ensures forall id :: id in rows ==> first <= id < first + |kept|
    decreases |kept|
  {
    if kept == [] then map[]
    else
      var last := |kept| - 1;
      NewBooks(first, kept[..last], owner)[first + last := BookOf(kept[last].(userId := Some(owner)))]
  }

  /** The inserted rows occupy exactly the ids first .. first + |kept| - 1,
      the k-th holding the k-th kept record, owned by `owner`. */
  lemma {:induction false} NewBooksAt(first: int, kept: seq<BookDto>, owner: int)
    ensures forall id :: id in NewBooks(first, kept, owner) <==> first <= id < first + |kept|
    ensures forall k :: 0 <= k < |kept| ==>
              NewBooks(first, kept, owner)[first + k] == BookOf(kept[k].(userId := Some(owner)))
    decreases |kept|
  {
    if kept != [] {
      var last := |kept| - 1;
      NewBooksAt(first, kept[..last], owner);
    }
  }

  /** Every inserted row is owned by `owner`, so the owner's set among them
      is all of them. */
  lemma NewBooksOwned(first: int, kept: seq<BookDto>, owner: int)
    ensures forall id :: id in NewBooks(first, kept, owner) ==> NewBooks(first, kept, owner)[id].userId == Some(owner)
    ensures OwnedBy(NewBooks(first, kept, owner), owner) == NewBooks(first, kept, owner).Keys
  {
    NewBooksAt(first, kept, owner);
    forall id | id in NewBooks(first, kept, owner)
      ensures NewBooks(first, kept, owner)[id].userId == Some(owner)
    {
      assert NewBooks(first, kept, owner)[first + (id - first)].userId == Some(owner);
    }
  }

  /** Inserting two runs of records one after the other is inserting their
      concatenation. */
  lemma {:induction false} NewBooksSplit(first: int, kept: seq<BookDto>, more: seq<BookDto>, owner: int)
    ensures NewBooks(first, kept + more, owner) == NewBooks(first, kept, owner) + NewBooks(first + |kept|, more, owner)
    decreases |more|
  {
    if more == [] {
      assert kept + more == kept;
    } else {
      var last := |more| - 1;
      assert (kept + more)[..|kept| + last] == kept + more[..last];
      NewBooksSplit(first, kept, more[..last], owner);
    }
  }

  /** Filtering a list extended by one entry keeps what the list keeps,
      then what the entry contributes. */
  lemma KeepOnlyValidSnoc(prefix: seq<Option<BookRequest>>, entry: Option<BookRequest>)
    ensures KeepOnlyValid(prefix + [entry]) == KeepOnlyValid(prefix) + KeptFrom(entry)
  {
    KeepOnlyValidAppend(prefix, [entry]);
    assert [entry][1..] == [];
  }

  /** Inserting after rows already inserted continues the numbering. */
  lemma NewBooksStep(base: map<int, Book>, first: int, kept: seq<BookDto>, more: seq<BookDto>, owner: int)
    ensures base + NewBooks(first, kept + more, owner) ==
              (base + NewBooks(first, kept, owner)) + NewBooks(first + |kept|, more, owner)
  {
    NewBooksSplit(first, kept, more, owner);
  }

  /** `books` holds the k-th kept record, owned by `owner`, under id
      first + k, for every k; none of those ids is in `base`. */
  ghost predicate StoredFrom(books: map<int, Book>, base: map<int, Book>, first: int, kept: seq<BookDto>, owner: int)
  {
    forall k :: 0 <= k < |kept| ==>
      && first + k !in base
      && first + k in books
      && books[first + k] == BookOf(kept[k].(userId := Some(owner)))
  }

  /** Rows inserted above every existing id land where StoredFrom says. */
  lemma InsertedRows(books: map<int, Book>, base: map<int, Book>, first: int, kept: seq<BookDto>, owner: int)
    requires forall id :: id in base ==> id < first
    requires books == base + NewBooks(first, kept, owner)
    ensures StoredFrom(books, base, first, kept, owner)
  {
    NewBooksAt(first, kept, owner);
  }

  /** `ids` are the ids a run of inserts receives from the BOOK counter
      when it starts at `first`: first, first + 1, and so on. */
  ghost predicate Consecutive(ids: seq<int>, first: int)
  {
    forall k :: 0 <= k < |ids| ==> ids[k] == first + k
  }

  /** Two runs of inserts one after the other receive consecutive ids. */
  lemma ConsecutiveAppend(a: seq<int>, b: seq<int>, first: int)
    requires Consecutive(a, first) && Consecutive(b, first + |a|)
    ensures Consecutive(a + b, first)
  {
    assert forall k :: |a| <= k < |a + b| ==> (a + b)[k] == b[k - |a|];
  }

  /** The cascade of a user delete: every book whose owner is `userId` is gone. */
  function CascadeDelete(books: map<int, Book>, userId: int): (remaining: map<int, Book>)
    ensures forall id :: id in remaining ==> id in books && remaining[id] == books[id]
  {
    books - OwnedBy(books, userId)
  }

  /** After the cascade the user owns nothing, and every book of another
      owner is untouched. */
  lemma CascadeDeleteEffect(books: map<int, Book>, userId: int)
    ensures OwnedBy(CascadeDelete(books, userId), userId) == {}
    ensures forall id :: id in books && books[id].userId != Some(userId) ==>
              id in CascadeDelete(books, userId) && CascadeDelete(books, userId)[id] == books[id]
  {
  }

  /** A second cascade for the same user removes nothing. */
  lemma CascadeDeleteIdempotent(books: map<int, Book>, userId: int)
    ensures CascadeDelete(CascadeDelete(books, userId), userId) == CascadeDelete(books, userId)
  {
    CascadeDeleteEffect(books, userId);
  }

  /** A user who owns nothing is untouched by the cascade. */
  lemma CascadeDeleteNothingOwned(books: map<int, Book>, userId: int)
    requires forall id :: id in books && books[id].userId.Some? ==> books[id].userId.value < userId
    ensures CascadeDelete(books, userId) == books
  {
    assert forall id :: id !in OwnedBy(books, userId);
  }

  /** Creating books next to existing ones (whose ids are all below the new
      ones) adds exactly the new ids to the owner's set. */
  lemma OwnedAfterCreate(books: map<int, Book>, first: int, kept: seq<BookDto>, owner: int)
    requires forall id :: id in books ==> id < first
    ensures OwnedBy(books + NewBooks(first, kept, owner), owner) ==
              OwnedBy(books, owner) + NewBooks(first, kept, owner).Keys
  {
    NewBooksOwned(first, kept, owner);
  }

  /** Wholesale replacement: after the cascade and the inserts, the owner's
      books are exactly the inserted ones, and none of them reuses an id the
      owner had before. */
  lemma OwnedAfterReplace(books: map<int, Book>, first: int, kept: seq<BookDto>, owner: int)
    requires forall id :: id in books ==> id < first
    ensures OwnedBy(CascadeDelete(books, owner) + NewBooks(first, kept, owner), owner) ==
              NewBooks(first, kept, owner).Keys
    ensures OwnedBy(books, owner) !! NewBooks(first, kept, owner).Keys
  {
    CascadeDeleteEffect(books, owner);
    OwnedAfterCreate(CascadeDelete(books, owner), first, kept, owner);
  }

  class UserDataFacade {
    const db: Database
    const userService: UserServiceImpl
    const bookService: BookServiceImpl

    /** Both services work on the same tables. */
    ghost predicate Valid()
      reads db
    {
      userService.db == db && bookService.db == db && db.Valid()
    }

    constructor (userService: UserServiceImpl, bookService: BookServiceImpl)
      requires userService.db == bookService.db
      requires userService.db.Valid()
      ensures Valid()
      ensures this.db == userService.db
      ensures this.userService == userService && this.bookService == bookService
    {
      this.db := userService.db;
      this.userService := userService;
      this.bookService := bookService;
    }

    /** One element of the book-list pipeline: a non-null entry is mapped,
        and if valid it gets `owner` as its owner and is created; returns the
        ids created (none or one). */
    method CreateIfValid(entry: Option<BookRequest>, owner: int) returns (createdIds: seq<int>)
      requires Valid()
      modifies db
      ensures Valid()
      ensures |createdIds| == |KeptFrom(entry)| && Consecutive(createdIds, old(db.nextBookId))
      ensures db.books == old(db.books) + NewBooks(old(db.nextBookId), KeptFrom(entry), owner)
      ensures db.nextBookId == old(db.nextBookId) + |KeptFrom(entry)|
      ensures db.users == old(db.users) && db.nextUserId == old(db.nextUserId)
    {
      createdIds := [];
      if entry.Some? {
        var bookDto := MapBook(entry.value);
        if IsValidBookData(bookDto) {
          var createdBook := bookService.CreateBook(bookDto.(userId := Some(owner)));
          createdIds := [createdBook.id.value];
          assert [bookDto][..0] == [];
        }
      }
    }

    /** The book-list pipeline shared by create and update, run over the
        whole list in input order; returns the new ids in that order. */
    method CreateValidBooks(requests: seq<Option<BookRequest>>, owner: int) returns (bookIds: seq<int>)
      requires Valid()
      modifies db
      ensures Valid()
      ensures |bookIds| == |KeepOnlyValid(requests)| && Consecutive(bookIds, old(db.nextBookId))
      ensures db.books == old(db.books) + NewBooks(old(db.nextBookId), KeepOnlyValid(requests), owner)
      ensures db.nextBookId == old(db.nextBookId) + |KeepOnlyValid(requests)|
      ensures db.users == old(db.users) && db.nextUserId == old(db.nextUserId)
    {
      ghost var first := db.nextBookId;
      ghost var kept: seq<BookDto> := [];
      bookIds := [];
      var i := 0;
      while i < |requests|
        invariant 0 <= i <= |requests|
        invariant Valid()
        invariant kept == KeepOnlyValid(requests[..i])
        invariant |bookIds| == |kept| && Consecutive(bookIds, first)
        invariant db.nextBookId == first + |kept|
        invariant db.books == old(db.books) + NewBooks(first, kept, owner)
        invariant db.users == old(db.users) && db.nextUserId == old(db.nextUserId)
      {
        var createdIds := CreateIfValid(requests[i], owner);
        NewBooksStep(old(db.books), first, kept, KeptFrom(requests[i]), owner);
        assert requests[..i + 1] == requests[..i] + [requests[i]];
        KeepOnlyValidSnoc(requests[..i], requests[i]);
        ConsecutiveAppend(bookIds, createdIds, first);
        bookIds := bookIds + createdIds;
        kept := kept + KeptFrom(requests[i]);
        i := i + 1;
      }
      assert requests[..i] == requests;
    }

    /** The delete loop shared by update and delete: each listed id is
        deleted, an absent one being a no-op. */
    method DeleteBooksById(ids: seq<int>)
      requires Valid()
      modifies db
      ensures Valid()
      ensures db.books == old(db.books) - Elements(ids)
      ensures db.users == old(db.users)
      ensures db.nextUserId == old(db.nextUserId) && db.nextBookId == old(db.nextBookId)
    {
      var i := 0;
      while i < |ids|
        invariant 0 <= i <= |ids|
        invariant Valid()
        invariant db.books == old(db.books) - Elements(ids[..i])
        invariant db.users == old(db.users)
        invariant db.nextUserId == old(db.nextUserId) && db.nextBookId == old(db.nextBookId)
      {
        assert Elements(ids[..i + 1]) == Elements(ids[..i]) + {ids[i]} by {
          assert ids[..i + 1] == ids[..i] + [ids[i]];
        }
        bookService.DeleteBookById(ids[i]);
        i := i + 1;
      }
      assert ids[..i] == ids;
    }

    /** createUserWithBooks. Fails, in this order of checks, on a null user,
        an invalid user and a null book list; the user is stored before the
        last check, so that failure rolls the insert back. On success the
        returned ids are one fresh id per kept book entry, in input order,
        each stored with the new user as owner. */
    method CreateUserWithBooks(request: UserBookRequest) returns (r: Result<UserBookResponse, Error>)
      requires Valid()
      modifies db
      ensures Valid()
      ensures request.userRequest.None? ==> r == Failure(InvalidRequestData(UserCanNotBeNull))
      ensures request.userRequest.Some? && !IsValidUserData(MapUser(request.userRequest).value) ==>
                r == Failure(InvalidRequestData(IncorrectUserData))
      ensures request.userRequest.Some? && IsValidUserData(MapUser(request.userRequest).value) &&
              request.bookRequests.None? ==>
                r == Failure(InvalidRequestData(BookListCanNotBeNull))
      ensures r.Success? <==>
                request.userRequest.Some? && IsValidUserData(MapUser(request.userRequest).value) &&
                request.bookRequests.Some?
      ensures r.Failure? ==>
                db.users == old(db.users) && db.books == old(db.books) && db.nextBookId == old(db.nextBookId)
      ensures request.userRequest.None? || !IsValidUserData(MapUser(request.userRequest).value) ==>
                db.nextUserId == old(db.nextUserId)
      ensures request.userRequest.Some? && IsValidUserData(MapUser(request.userRequest).value) ==>
                db.nextUserId == old(db.nextUserId) + 1
      ensures r.Success? ==>
                var kept := KeepOnlyValid(request.bookRequests.value);
                var first := old(db.nextBookId);
                && db.nextBookId == first + |kept|
                && r.value.userId == old(db.nextUserId)
                && r.value.userId !in old(db.users)
                && db.users == old(db.users)[r.value.userId := PersonOf(MapUser(request.userRequest).value)]
                && db.books == old(db.books) + NewBooks(first, kept, r.value.userId)
                && |r.value.bookIds| == |kept|
                && Consecutive(r.value.bookIds, first)
                && StoredFrom(db.books, old(db.books), first, kept, r.value.userId)
      ensures old(db.OwnersIssued()) ==> db.OwnersIssued()
    {
      var userDto := MapUser(request.userRequest);
      if userDto.None? {
        return Failure(InvalidRequestData(UserCanNotBeNull));
      }
      if !IsValidUserData(userDto.value) {
        return Failure(InvalidRequestData(IncorrectUserData));
      }
      // The transaction begins here; its first write is the user insert.
      var users0, books0 := db.users, db.books;
      var createdUser := userService.CreateUser(userDto.value);
      if request.bookRequests.None? {
        db.Rollback(users0, books0);
        return Failure(InvalidRequestData(BookListCanNotBeNull));
      }
      var uid := createdUser.id.value;
      ghost var first := db.nextBookId;
      ghost var kept := KeepOnlyValid(request.bookRequests.value);
      var bookIds := CreateValidBooks(request.bookRequests.value, uid);
      InsertedRows(db.books, books0, first, kept, uid);
      NewBooksOwned(first, kept, uid);
      r := Success(UserBookResponse(uid, bookIds));
    }

    /** updateUserWithBooks. Fails, in this order of checks, on a null id, a
        null user, an invalid user and a null book list, all before any write.
        Otherwise the user is upserted (an unknown id yields a fresh one),
        every book the resulting id owns is deleted, the kept book entries are
        created for it, and the ids it owns afterwards are returned: exactly
        the new ones. */
    method UpdateUserWithBooks(request: UserBookRequest, userId: Option<int>)
      returns (r: Result<UserBookResponse, Error>)
      requires Valid()
      modifies db
      ensures Valid()
      ensures userId.None? ==> r == Failure(InvalidRequestData(UserCanNotBeNull))
      ensures userId.Some? && request.userRequest.None? ==> r == Failure(InvalidRequestData(UserCanNotBeNull))
      ensures userId.Some? && request.userRequest.Some? && !IsValidUserData(MapUser(request.userRequest).value) ==>
                r == Failure(InvalidRequestData(IncorrectUserData))
      ensures userId.Some? && request.userRequest.Some? && IsValidUserData(MapUser(request.userRequest).value) &&
              request.bookRequests.None? ==>
                r == Failure(InvalidRequestData(BookListCanNotBeNull))
      ensures r.Success? <==>
                userId.Some? && request.userRequest.Some? && IsValidUserData(MapUser(request.userRequest).value) &&
                request.bookRequests.Some?
      ensures r.Failure? ==>
                db.users == old(db.users) && db.books == old(db.books) &&
                db.nextUserId == old(db.nextUserId) && db.nextBookId == old(db.nextBookId)
      ensures r.Success? ==>
                var kept := KeepOnlyValid(request.bookRequests.value);
                var first := old(db.nextBookId);
                var existed := userId.value in old(db.users);
                && r.value.userId == (if existed then userId.value else old(db.nextUserId))
                && db.nextUserId == (if existed then old(db.nextUserId) else old(db.nextUserId) + 1)
                && db.nextBookId == first + |kept|
                && db.users == old(db.users)[r.value.userId := PersonOf(MapUser(request.userRequest).value)]
                && db.books == CascadeDelete(old(db.books), r.value.userId) + NewBooks(first, kept, r.value.userId)
                && (forall id :: id in r.value.bookIds <==> id in OwnedBy(db.books, r.value.userId))
                && (forall id :: id in r.value.bookIds <==> first <= id < first + |kept|)
                && Distinct(r.value.bookIds)
                && (forall id :: id in OwnedBy(old(db.books), r.value.userId) ==> id !in db.books)
      ensures r.Success? && userId.value !in old(db.users) && old(db.OwnersIssued()) ==>
                db.books == old(db.books) + NewBooks(old(db.nextBookId), KeepOnlyValid(request.bookRequests.value), r.value.userId)
      ensures old(db.OwnersIssued()) ==> db.OwnersIssued()
    {
      if userId.None? {
        return Failure(InvalidRequestData(UserCanNotBeNull));
      }
      var userDto := MapUser(request.userRequest);
      if userDto.None? {
        return Failure(InvalidRequestData(UserCanNotBeNull));
      }
      if !IsValidUserData(userDto.value) {
        return Failure(InvalidRequestData(IncorrectUserData));
      }
      if request.bookRequests.None? {
        return Failure(InvalidRequestData(BookListCanNotBeNull));
      }
      ghost var books0 := db.books;
      ghost var issued0 := db.OwnersIssued();
      var updatedUser := userService.UpdateUser(userDto.value.(id := userId));
      var uid := updatedUser.id.value;
      var staleIds := bookService.FindAllBooksIdByUserId(uid);
      OwnedIdsElements(staleIds, books0, uid);
      DeleteBooksById(staleIds);
      assert db.books == CascadeDelete(books0, uid);
      ghost var first := db.nextBookId;
      ghost var kept := KeepOnlyValid(request.bookRequests.value);
      var createdIds := CreateValidBooks(request.bookRequests.value, uid);
      NewBooksAt(first, kept, uid);
      NewBooksOwned(first, kept, uid);
      OwnedAfterReplace(books0, first, kept, uid);
      if issued0 && userId.value !in old(db.users) {
        CascadeDeleteNothingOwned(books0, uid);
      }
      var allIds := bookService.FindAllBooksIdByUserId(uid);
      r := Success(UserBookResponse(uid, allIds));
    }

    /** getUserWithBooks: a null id is invalid, an absent user is not found,
        otherwise the id with the set of ids of the books the user owns. Reads
        only. */
    method GetUserWithBooks(userId: Option<int>) returns (r: Result<UserBookResponse, Error>)
      requires Valid()
      ensures userId.None? ==> r == Failure(InvalidRequestData(UserIdCanNotBeNull))
      ensures userId.Some? && userId.value !in db.users ==> r == Failure(NotFound(userId))
      ensures userId.Some? && userId.value in db.users ==>
                && r.Success?
                && r.value.userId == userId.value
                && (forall id :: id in r.value.bookIds <==> id in OwnedBy(db.books, userId.value))
                && Distinct(r.value.bookIds)
    {
      if userId.None? {
        return Failure(InvalidRequestData(UserIdCanNotBeNull));
      }
      var user := userService.GetUserById(userId);
      if user.Failure? {
        return Failure(user.error);
      }
      var uid := user.value.id.value;
      var bookIds := bookService.FindAllBooksIdByUserId(uid);
      r := Success(UserBookResponse(uid, bookIds));
    }

    /** deleteUserWithBooks: a null id does nothing. Otherwise the ids of the
        books the id owns are read first, the user is deleted (a no-op when
        absent), then those books are deleted, so the cascade happens even
        when the user row was already gone. Never raises. */
    method DeleteUserWithBooks(userId: Option<int>)
      requires Valid()
      modifies db
      ensures Valid()
      ensures userId.None? ==> db.users == old(db.users) && db.books == old(db.books)
      ensures userId.Some? ==>
                && db.users == old(db.users) - {userId.value}
                && db.books == CascadeDelete(old(db.books), userId.value)
      ensures db.nextUserId == old(db.nextUserId) && db.nextBookId == old(db.nextBookId)
      ensures old(db.OwnersIssued()) ==> db.OwnersIssued()
    {
      if userId.Some? {
        var bookIds := bookService.FindAllBooksIdByUserId(userId.value);
        OwnedIdsElements(bookIds, db.books, userId.value);
        userService.DeleteUserById(userId);
        if |bookIds| > 0 {
          DeleteBooksById(bookIds);
        }
      }
    }

    /** Deleting twice is deleting once: the second call changes nothing. */
    method DeleteUserWithBooksTwice(userId: Option<int>)
      requires Valid()
      modifies db
      ensures Valid()
      ensures userId.Some? ==> db.users == old(db.users) - {userId.value}
      ensures userId.Some? ==> db.books == CascadeDelete(old(db.books), userId.value)
      ensures userId.None? ==> db.users == old(db.users) && db.books == old(db.books)
    {
      DeleteUserWithBooks(userId);
      ghost var users1, books1 := db.users, db.books;
      DeleteUserWithBooks(userId);
      if userId.Some? {
        CascadeDeleteIdempotent(old(db.books), userId.value);
        assert db.users == users1 && db.books == books1;
      }
    }
  }
}
