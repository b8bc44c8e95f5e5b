/** Records exchanged between the facade, the services and the validators,
    the error taxonomy, and the request-to-record mappers.

    A Java reference that may be null becomes an `Option`; a primitive
    (`long pageCount`, `int age`) stays a plain integer. Ids are Java `Long`s,
    modelled as unbounded `int`s. */
module Dto {

  datatype Option<+T> = None | Some(value: T)

  datatype Result<+T, +E> = Success(value: T) | Failure(error: E)

  /** The two exception types the workflows raise. */
  datatype Error =
    | InvalidRequestData(message: string)
    | NotFound(id: Option<int>)

  // The messages of ErrorMessageTextConstants.
  const UserCanNotBeNull: string := "User can't be null"
  const UserIdCanNotBeNull: string := "User id can't be null"
  const IncorrectUserData: string := "Incorrect user data"
  const BookListCanNotBeNull: string := "Book list can't be null"

  datatype UserDto = UserDto(id: Option<int>, fullName: Option<string>, title: Option<string>, age: int)

  datatype BookDto = BookDto(id: Option<int>, userId: Option<int>, title: Option<string>,
                             author: Option<string>, pageCount: int)

  /** The user part of an incoming request. */
  datatype UserRequest = UserRequest(fullName: Option<string>, title: Option<string>, age: int)

  /** One entry of the book list of an incoming request. */
  datatype BookRequest = BookRequest(title: Option<string>, author: Option<string>, pageCount: int)

  /** The request body: a possibly absent user and a possibly absent list whose
      entries may themselves be absent. */
  datatype UserBookRequest = UserBookRequest(userRequest: Option<UserRequest>,
                                             bookRequests: Option<seq<Option<BookRequest>>>)

  datatype UserBookResponse = UserBookResponse(userId: int, bookIds: seq<int>)

  /** The user mapper: a field copy; a null request maps to a null record. */
  function MapUser(request: Option<UserRequest>): (dto: Option<UserDto>)
    ensures dto.None? <==> request.None?
    ensures dto.Some? ==> dto.value.id.None?
  {
    match request
    case None => None
    case Some(u) => Some(UserDto(None, u.fullName, u.title, u.age))
  }

  /** The book mapper: a field copy leaving id and owner unset. */
  function MapBook(request: BookRequest): (dto: BookDto)
    ensures dto.id.None? && dto.userId.None?
    ensures dto.title == request.title && dto.author == request.author && dto.pageCount == request.pageCount
  {
    BookDto(None, None, request.title, request.author, request.pageCount)
  }
}
