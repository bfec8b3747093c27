/** The `books` table (app/models/book.py) and the two lookups every
    endpoint uses on it (`get_book_by_id` and `get_latest_book`, defined
    alike in app/db/crud/research_crud.py, syllabus_crud.py and
    answer_key_crud.py), always filtered by the current user. */
module Books {
  import opened Outcomes
  import opened Embeddings

  /** One row of `books`. `uploadedAt` is the upload time as a number;
      `embedding` holds the vectors that are pickled into the row. */
  datatype Book = Book(id: nat, filename: string, textContent: string, embedding: seq<Vector>,
                       userId: nat, uploadedAt: int)

  /** The table's own constraints: ids are the primary key and `filename`
      is unique across all users. */
  predicate TableConstraints(books: seq<Book>) {
    forall i, j :: 0 <= i < j < |books| ==>
      books[i].id != books[j].id && books[i].filename != books[j].filename
  }

  /** `get_book_by_id(db, book_id, user_id)`: the row with that id, if it
      belongs to that user. */
  function BookById(books: seq<Book>, id: int, user: nat): (r: Option<Book>)
    ensures r.Some? ==> r.value in books && r.value.id == id && r.value.userId == user
    ensures r.None? <==> forall b :: b in books ==> !(b.id == id && b.userId == user)
  {
    if books == [] then None
    else if books[0].id == id && books[0].userId == user then Some(books[0])
    else BookById(books[1..], id, user)
  }

  /** `get_latest_book(db, user_id)`: one of the user's books with the
      latest upload time; `None` when the user has none. Between rows with
      the same time the later row is taken. */
  function LatestBook(books: seq<Book>, user: nat): (r: Option<Book>)
    ensures r.Some? ==> r.value in books && r.value.userId == user
    ensures r.Some? ==> forall b :: b in books && b.userId == user ==> b.uploadedAt <= r.value.uploadedAt
    ensures r.None? <==> forall b :: b in books ==> b.userId != user
  {
    if books == [] then None
    else
      var rest := LatestBook(books[1..], user);
      assert forall b :: b in books ==> b == books[0] || b in books[1..];
      if books[0].userId != user then rest
      else if rest.Some? && rest.value.uploadedAt >= books[0].uploadedAt then rest
      else Some(books[0])
  }

  /** Python truthiness of the optional `book_id` query parameter: given
      and not 0. */
  predicate Truthy(bookId: Option<int>) {
    bookId.Some? && bookId.value != 0
  }

  /** The book an endpoint works on: the given book if `book_id` is truthy,
      the user's latest book otherwise. */
  function SelectBook(books: seq<Book>, bookId: Option<int>, user: nat): (r: Option<Book>)
    ensures r.Some? ==> r.value in books && r.value.userId == user
  {
    if Truthy(bookId) then BookById(books, bookId.value, user) else LatestBook(books, user)
  }

  /** A missing or 0 `book_id` falls back to the latest book; another user's
      book is never selected, and a truthy id is never replaced by the
      latest book. */
  lemma SelectBookCases(books: seq<Book>, bookId: Option<int>, user: nat)
    ensures !Truthy(bookId) ==> SelectBook(books, bookId, user) == LatestBook(books, user)
    ensures Truthy(bookId) ==>
      (SelectBook(books, bookId, user).Some? <==> exists b :: b in books && b.id == bookId.value && b.userId == user)
    ensures Truthy(bookId) && SelectBook(books, bookId, user).Some? ==>
      SelectBook(books, bookId, user).value.id == bookId.value
    ensures SelectBook(books, bookId, user).None? ==> Truthy(bookId) || forall b :: b in books ==> b.userId != user
  {
  }

  /** Within a table that keeps its constraints, the lookup by id finds the
      only row with that id, whatever the order of the rows. */
  lemma BookByIdUnique(books: seq<Book>, id: int, user: nat, b: Book)
    requires TableConstraints(books) && b in books && b.id == id && b.userId == user
    ensures BookById(books, id, user) == Some(b)
  {
    var r := BookById(books, id, user).value;
    var i :| 0 <= i < |books| && books[i] == r;
    var j :| 0 <= j < |books| && books[j] == b;
    assert i == j;
  }
}
