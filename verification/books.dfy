/**
 The book store behind /api/Books: the Books table as a map from Id to
 Book, with the database's auto-increment counter, and the five endpoints.
 The [Authorize] guard on the three mutating endpoints is the boolean
 `authenticated`: whether the bearer token passed validation.
 */
module Books {
  import opened Wrappers
  import opened Text
  import opened Ints
  import opened BookModel

  /** The Books table keyed by Id, with the value the auto-increment counter last handed out. */
  datatype Store = Store(books: map<int32, Book>, lastId: int32)

  /** Every book sits under its own Id, and no Id exceeds the auto-increment counter. */
  predicate Valid(st: Store) {
    && st.lastId >= 0
    && forall id :: id in st.books ==> st.books[id].id == id && id <= st.lastId
  }

  const MsgIdMismatch: string := "Book ID mismatch"

  datatype Response =
    | Listed(books: map<int32, Book>) // 200 with the list
    | Found(book: Book)             // 200 with one book
    | Created(book: Book)           // 201 with the stored book
    | NoContent                     // 204
    | BadRequest(message: string)   // 400
    | Unauthorized                  // 401 from the [Authorize] guard
    | NotFound                      // 404
    | Fault                         // unhandled exception, 500

  /**
   GET /api/Books?category=c. The query has no ORDER BY, so the result is
   the set of matching rows, keyed by Id.
   */
  function GetBooks(st: Store, category: Option<string>): (r: map<int32, Book>)
    ensures IsNullOrEmpty(category) ==> r == st.books
    ensures r.Keys <= st.books.Keys
    ensures forall id :: id in r ==> r[id] == st.books[id]
    ensures !IsNullOrEmpty(category) ==>
              forall id :: id in st.books ==> (id in r <==> st.books[id].category == category.value)
  {
    if !IsNullOrEmpty(category) then
      map id | id in st.books && st.books[id].category == category.value :: st.books[id]
    else
      st.books
  }

  /** GET /api/Books/{id} */
  function GetBook(st: Store, id: int32): (r: Response)
    ensures r.Found? || r.NotFound?
    ensures r.Found? <==> id in st.books
    ensures r.Found? ==> r.book == st.books[id]
  {
    if id in st.books then Found(st.books[id]) else NotFound
  }

  /**
   POST /api/Books. An Id of 0 (the client leaves it out) lets the database
   pick the next counter value; any other Id is inserted as given, and one
   that is already taken violates the primary key, an exception the
   endpoint does not catch. Once the counter has reached int.MaxValue the
   next generated Id no longer fits the `int` key and reading it back
   throws, so an Id-less post then faults as well.
   */
  function PostBook(st: Store, book: Book): (r: (Response, Store))
    ensures r.0.Created? <==> if book.id == 0 then st.lastId < Int32Max else book.id !in st.books
    ensures !r.0.Created? ==> r == (Fault, st)
    ensures r.0.Created? ==>
              && r.0.book == book.(id := r.0.book.id)
              && r.1.books.Keys == st.books.Keys + {r.0.book.id}
              && r.1.books[r.0.book.id] == r.0.book
              && (forall k :: k in st.books && k != r.0.book.id ==> r.1.books[k] == st.books[k])
    ensures r.0.Created? && book.id == 0 ==>
              r.0.book.id as int == st.lastId as int + 1 && r.1.lastId == r.0.book.id
    ensures r.0.Created? && book.id != 0 ==>
              && r.0.book.id == book.id
              && r.1.lastId >= st.lastId && r.1.lastId >= book.id
              && (r.1.lastId == st.lastId || r.1.lastId == book.id)
    ensures Valid(st) && r.0.Created? ==> r.0.book.id !in st.books
    ensures Valid(st) ==> Valid(r.1)
  {
    if book.id == 0 then
      if st.lastId == Int32Max then (Fault, st)
      else
        var stored := book.(id := st.lastId + 1);
        (Created(stored), Store(st.books[stored.id := stored], st.lastId + 1))
    else if book.id in st.books then
      (Fault, st)
    else
      (Created(book), Store(st.books[book.id := book], if book.id > st.lastId then book.id else st.lastId))
  }

  /** PUT /api/Books/{id} */
  function PutBook(st: Store, id: int32, book: Book): (r: (Response, Store))
    ensures id != book.id ==> r == (BadRequest(MsgIdMismatch), st)
    ensures id == book.id && id !in st.books ==> r == (NotFound, st)
    ensures r.0 == NoContent <==> id == book.id && id in st.books
    ensures r.0 == NoContent ==>
              && r.1.lastId == st.lastId
              && r.1.books.Keys == st.books.Keys
              && r.1.books[id] == book
              && (forall k :: k in st.books && k != id ==> r.1.books[k] == st.books[k])
    ensures Valid(st) ==> Valid(r.1)
  {
    if id != book.id then (BadRequest(MsgIdMismatch), st)
    else if id !in st.books then (NotFound, st)
    else (NoContent, Store(st.books[id := book], st.lastId))
  }

  /** DELETE /api/Books/{id} */
  function DeleteBook(st: Store, id: int32): (r: (Response, Store))
    ensures id !in st.books ==> r == (NotFound, st)
    ensures id in st.books ==>
              && r.0 == NoContent
              && r.1.lastId == st.lastId
              && r.1.books.Keys == st.books.Keys - {id}
              && (forall k :: k in r.1.books ==> r.1.books[k] == st.books[k])
    ensures Valid(st) ==> Valid(r.1)
  {
    if id !in st.books then (NotFound, st)
    else (NoContent, Store(st.books - {id}, st.lastId))
  }

  /** A request to /api/Books, by route and verb. */
  datatype Request =
    | List(category: Option<string>)
    | Fetch(id: int32)
    | Create(book: Book)
    | Update(id: int32, book: Book)
    | Remove(id: int32)

  /** The endpoints marked [Authorize]. */
  predicate Protected(req: Request) {
    req.Create? || req.Update? || req.Remove?
  }

  /**
   Routes a request to its endpoint. The authorization middleware answers
   401 before a protected endpoint runs when the caller is not authenticated.
   */
  function Handle(st: Store, req: Request, authenticated: bool): (r: (Response, Store))
    ensures Protected(req) && !authenticated ==> r == (Unauthorized, st)
    ensures !Protected(req) ==> r.1 == st
    ensures r.0.Unauthorized? ==> Protected(req) && !authenticated
    ensures req.List? ==> r == (Listed(GetBooks(st, req.category)), st)
    ensures req.Fetch? ==> r == (GetBook(st, req.id), st)
    ensures req.Create? && authenticated ==> r == PostBook(st, req.book)
    ensures req.Update? && authenticated ==> r == PutBook(st, req.id, req.book)
    ensures req.Remove? && authenticated ==> r == DeleteBook(st, req.id)
  {
    if Protected(req) && !authenticated then (Unauthorized, st)
    else
      match req
      case List(category) => (Listed(GetBooks(st, category)), st)
      case Fetch(id) => (GetBook(st, id), st)
      case Create(book) => PostBook(st, book)
      case Update(id, book) => PutBook(st, id, book)
      case Remove(id) => DeleteBook(st, id)
  }

  /** The two GET endpoints answer the same with or without a valid token. */
  lemma ReadsIgnoreAuth(st: Store, req: Request)
    requires !Protected(req)
    ensures Handle(st, req, true) == Handle(st, req, false)
  {
  }

  /** Every request keeps the store invariant. */
  lemma HandlePreservesValid(st: Store, req: Request, authenticated: bool)
    requires Valid(st)
    ensures Valid(Handle(st, req, authenticated).1)
  {
  }

  /** A created book can be read back under the Id the response reports. */
  lemma PostThenGet(st: Store, book: Book)
    requires PostBook(st, book).0.Created?
    ensures GetBook(PostBook(st, book).1, PostBook(st, book).0.book.id) == Found(PostBook(st, book).0.book)
  {
  }

  /** An updated book reads back as the new version. */
  lemma PutThenGet(st: Store, book: Book)
    requires book.id in st.books
    ensures GetBook(PutBook(st, book.id, book).1, book.id) == Found(book)
  {
  }

  /** A deleted book is gone; a second delete of the same Id is NotFound. */
  lemma DeleteThenGet(st: Store, id: int32)
    ensures GetBook(DeleteBook(st, id).1, id) == NotFound
    ensures DeleteBook(DeleteBook(st, id).1, id).0 == NotFound
  {
  }

  /**
   With a valid store whose counter has not reached int.MaxValue, a book
   posted without an Id is created under a positive Id above every Id in use.
   */
  lemma PostWithoutIdFresh(st: Store, book: Book)
    requires Valid(st) && book.id == 0 && st.lastId < Int32Max
    ensures PostBook(st, book).0.Created?
    ensures PostBook(st, book).0.book.id > 0
    ensures forall k :: k in st.books ==> k < PostBook(st, book).0.book.id
  {
  }
}
