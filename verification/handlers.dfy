/**
 The HTTP handlers of the book service (src/handlers.rs): each calls one
 repository operation and maps its result onto a status code and a body.
 */
module Handlers {
  import opened Options
  import opened Models
  import opened Http
  import Storage

  /** What a handler writes into the response body. */
  datatype Body =
    | BookList(books: seq<Book>)   // JSON array of books
    | BookJson(book: Book)         // JSON object of one book
    | NotFoundText(id: U32)        // "Book with ID {id} not found"
    | NoBody

  datatype Response = Response(status: int, body: Body)

  /** The status codes these handlers can produce. */
  predicate IsHandlerStatus(status: int) {
    status in {OK, CREATED, NO_CONTENT, NOT_FOUND}
  }

  /** `get_books`: always 200 with the full list. */
  function GetBooks(repo: Storage.Repository): (resp: Response)
    ensures resp.status == OK && resp.body.BookList?
    ensures forall i :: 0 <= i < |resp.body.books| ==> resp.body.books[i] in repo.db.Values
  {
    Response(OK, BookList(Storage.GetAll(repo)))
  }

  /** `get_book`: 200 with the book when it is stored, 404 otherwise. */
  function GetBook(repo: Storage.Repository, id: U32): (resp: Response)
    ensures resp.status == OK <==> id in repo.db
    ensures id in repo.db ==> resp.body == BookJson(repo.db[id])
    ensures id !in repo.db ==> resp == Response(NOT_FOUND, NotFoundText(id))
  {
    match Storage.GetById(repo, id)
    case Some(book) => Response(OK, BookJson(book))
    case None => Response(NOT_FOUND, NotFoundText(id))
  }

  /** `create_book`: every parsed DTO is stored and answered with 201 and the new book. */
  function CreateBook(repo: Storage.Repository, dto: CreateBookDto): (r: (Storage.Repository, Response))
    requires repo.nextId < U32_MAX
    ensures r.1.status == CREATED && r.1.body.BookJson?
    ensures r.1.body.book.id == repo.nextId
    ensures r.1.body.book.id in r.0.db && r.0.db[r.1.body.book.id] == r.1.body.book
    ensures r.1.body.book.title == dto.title && r.1.body.book.author == dto.author
    ensures Storage.Valid(repo) ==> Storage.Valid(r.0) && r.1.body.book.id !in repo.db
  {
    var (repo', book) := Storage.Create(repo, dto);
    (repo', Response(CREATED, BookJson(book)))
  }

  /** `update_book`: 200 with the updated book when the id is stored, 404 and no change otherwise. */
  function UpdateBook(repo: Storage.Repository, id: U32, dto: UpdateBookDto): (r: (Storage.Repository, Response))
    ensures r.0.db.Keys == repo.db.Keys && r.0.nextId == repo.nextId
    ensures r.1.status == OK <==> id in repo.db
    ensures id in repo.db ==> r.1.body == BookJson(r.0.db[id])
    ensures id !in repo.db ==> r == (repo, Response(NOT_FOUND, NotFoundText(id)))
  {
    var (repo', result) := Storage.Update(repo, id, dto);
    match result
    case Some(book) => (repo', Response(OK, BookJson(book)))
    case None => (repo', Response(NOT_FOUND, NotFoundText(id)))
  }

  /** `delete_book`: 204 with no body exactly when something was removed, 404 otherwise. */
  function DeleteBook(repo: Storage.Repository, id: U32): (r: (Storage.Repository, Response))
    ensures r.1.status == NO_CONTENT <==> id in repo.db
    ensures id in repo.db ==> r.1.body == NoBody
    ensures id !in repo.db ==> r.1 == Response(NOT_FOUND, NotFoundText(id)) && r.0.db == repo.db
    ensures r.0.db.Keys == repo.db.Keys - {id} && r.0.nextId == repo.nextId
  {
    var (repo', removed) := Storage.Delete(repo, id);
    if removed then (repo', Response(NO_CONTENT, NoBody))
    else (repo', Response(NOT_FOUND, NotFoundText(id)))
  }

  /** Every handler answers with one of 200, 201, 204 or 404. */
  lemma HandlerStatuses(repo: Storage.Repository, id: U32, create: CreateBookDto, update: UpdateBookDto)
    requires repo.nextId < U32_MAX
    ensures IsHandlerStatus(GetBooks(repo).status)
    ensures IsHandlerStatus(GetBook(repo, id).status)
    ensures IsHandlerStatus(CreateBook(repo, create).1.status)
    ensures IsHandlerStatus(UpdateBook(repo, id, update).1.status)
    ensures IsHandlerStatus(DeleteBook(repo, id).1.status)
  {
  }

  /** A book answered with 201 is then served by `get_book` with 200 and the same body. */
  lemma CreatedBookIsServed(repo: Storage.Repository, dto: CreateBookDto)
    requires repo.nextId < U32_MAX
    ensures
      var (repo', created) := CreateBook(repo, dto);
      GetBook(repo', created.body.book.id) == Response(OK, created.body)
  {
  }

  /** After a 204, both `get_book` and a repeated `delete_book` answer 404. */
  lemma DeletedBookIsGone(repo: Storage.Repository, id: U32)
    ensures
      var repo' := DeleteBook(repo, id).0;
      GetBook(repo', id).status == NOT_FOUND && DeleteBook(repo', id).1.status == NOT_FOUND
  {
  }
}
