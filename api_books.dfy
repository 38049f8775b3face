/**
 * The API's books endpoints. Reads are functions of the book table; writes go
 * through the database context. Deleting a book is a soft delete: the row
 * stays and only `isActive` changes.
 */
module ApiBooksController {
  import opened Linq
  import opened Domain
  import opened Http
  import opened Database

  function IsActive(b: Book): bool { b.isActive }
  function ActiveInCategory(categoryId: int): Book -> bool { (b: Book) => b.categoryId == categoryId && b.isActive }

  /** GET api/books: the active books, each as often as it is stored. */
  function GetBooks(books: seq<Book>): (r: seq<Book>)
    ensures forall b :: b in r <==> b in books && b.isActive
    ensures forall b :: multiset(r)[b] == if b.isActive then multiset(books)[b] else 0
    ensures |r| <= |books|
  {
    var r := Where(books, IsActive);
    assert forall b :: multiset(r)[b] == if b.isActive then multiset(books)[b] else 0 by {
      forall b ensures multiset(r)[b] == if b.isActive then multiset(books)[b] else 0 {
        WhereMultiplicity(books, IsActive, b);
      }
    }
    r
  }

  /** GET api/books lists in table order: the rows of a longer table come after those of its prefix. */
  lemma GetBooksInTableOrder(a: seq<Book>, b: seq<Book>)
    ensures GetBooks(a + b) == GetBooks(a) + GetBooks(b)
  {
    WhereAppend(a, b, IsActive);
  }

  /** GET api/books/{id}: the row with that key, active or not, or 404. */
  function GetBook(books: seq<Book>, id: int): (r: Response<Book>)
    ensures r.Ok? || r.NotFound?
    ensures r.NotFound? <==> id !in Keys(books, BookKey)
    ensures r.Ok? ==> r.value in books && r.value.id == id
  {
    match FirstOrDefault(books, KeyIs(BookKey, id))
    case None => NotFound
    case Some(b) => Ok(b)
  }

  /** With unique keys the row GetBook returns is the only one with that key. */
  lemma GetBookFindsRow(books: seq<Book>, b: Book)
    requires Unique(books, BookKey)
    requires b in books
    ensures GetBook(books, b.id) == Ok(b)
  {
    var r := GetBook(books, b.id);
    var i :| 0 <= i < |books| && books[i] == b;
    var j :| 0 <= j < |books| && books[j] == r.value;
    assert !(i < j) && !(j < i);
  }

  /** GET api/books/category/{categoryId}: the active books of one category. */
  function GetBooksByCategory(books: seq<Book>, categoryId: int): (r: seq<Book>)
    ensures forall b :: b in r <==> b in books && b.categoryId == categoryId && b.isActive
    ensures |r| <= |books|
  {
    Where(books, ActiveInCategory(categoryId))
  }

  /** The private `BookExists`: whether some row, active or not, has the key. */
  function BookExists(books: seq<Book>, id: int): (b: bool)
    ensures b <==> exists x :: x in books && x.id == id
  {
    HasKey(books, BookKey, id)
  }

  /** POST api/books: insert under the next key; a missing category makes `SaveChangesAsync` throw. */
  method PostBook(db: Context, book: Book) returns (r: Response<Book>)
    requires db.Valid()
    modifies db
    ensures db.Valid()
    ensures r.Created? || r.ServerError?
    ensures r.Created? <==> book.categoryId in Keys(old(db.categories), CategoryKey)
    ensures r.Created? ==> r.value == book.(id := old(db.nextBookId)) && db.books == old(db.books) + [r.value]
    ensures r.Created? ==> GetBook(db.books, r.value.id) == Ok(r.value)
    ensures r.ServerError? ==> db.BooksUnchanged()
    ensures db.UsersUnchanged() && db.CategoriesUnchanged() && db.OrdersUnchanged() && db.DetailsUnchanged() && db.FavoritesUnchanged()
  {
    var row := db.InsertBook(book);
    if row.Some? {
      assert row.value in db.books;
      GetBookFindsRow(db.books, row.value);
      r := Created(row.value);
    } else {
      r := ServerError;
    }
  }

  /**
   * PUT api/books/{id}: overwrite every column of the row. A key that differs
   * from the body's is a bad request; a row that is not there surfaces as a
   * concurrency failure, which `BookExists` turns into 404.
   */
  method PutBook(db: Context, id: int, book: Book) returns (r: Response<Book>)
    requires db.Valid()
    modifies db
    ensures db.Valid()
    ensures r.BadRequest? <==> id != book.id
    ensures r.NotFound? <==> id == book.id && id !in Keys(old(db.books), BookKey)
    ensures r.NoContent? <==>
      id == book.id && id in Keys(old(db.books), BookKey) && book.categoryId in Keys(db.categories, CategoryKey)
    ensures r.BadRequest? || r.NotFound? || r.NoContent? || r.ServerError?
    ensures r.NoContent? ==> db.books == Replace(old(db.books), book, BookKey)
    ensures db.nextBookId == old(db.nextBookId)
    ensures !r.NoContent? ==> db.BooksUnchanged()
    ensures db.UsersUnchanged() && db.CategoriesUnchanged() && db.OrdersUnchanged() && db.DetailsUnchanged() && db.FavoritesUnchanged()
  {
    if id != book.id {
      return BadRequest;
    }
    var outcome := db.UpdateBook(book);
    match outcome
    case Done => r := NoContent;
    case Missing => r := NotFound;
    case Rejected => r := ServerError;
  }

  /** DELETE api/books/{id}: soft delete, or 404 when no row has the key. */
  method DeleteBook(db: Context, id: int) returns (r: Response<Book>)
    requires db.Valid()
    modifies db
    ensures db.Valid()
    ensures r.NotFound? || r.NoContent?
    ensures r.NotFound? <==> id !in Keys(old(db.books), BookKey)
    ensures db.books == Deactivate(old(db.books), id)
    ensures db.nextBookId == old(db.nextBookId)
    ensures db.UsersUnchanged() && db.CategoriesUnchanged() && db.OrdersUnchanged() && db.DetailsUnchanged() && db.FavoritesUnchanged()
  {
    var found := db.DeactivateBook(id);
    r := if found then NoContent else NotFound;
  }

  /**
   * After a soft delete the book drops out of both listings, is still found
   * by key, marked inactive, and every other row is as it was.
   */
  lemma SoftDeleteHides(books: seq<Book>, b: Book)
    requires Unique(books, BookKey)
    requires b in books
    ensures b.id !in Keys(GetBooks(Deactivate(books, b.id)), BookKey)
    ensures forall c :: b.id !in Keys(GetBooksByCategory(Deactivate(books, b.id), c), BookKey)
    ensures GetBook(Deactivate(books, b.id), b.id) == Ok(b.(isActive := false))
    ensures forall x :: x in books && x.id != b.id ==>
      (x in GetBooks(Deactivate(books, b.id)) <==> x.isActive)
  {
    var d := Deactivate(books, b.id);
    DeactivateKeepsKeys(books, b.id);
    forall x | x in d && x.id == b.id ensures !x.isActive {
      var i :| 0 <= i < |d| && d[i] == x;
    }
    var i :| 0 <= i < |books| && books[i] == b;
    assert d[i] == b.(isActive := false);
    GetBookFindsRow(d, d[i]);
    forall x | x in books && x.id != b.id ensures x in d {
      var j :| 0 <= j < |books| && books[j] == x;
      assert d[j] == x;
    }
  }

  /** Deleting a book twice leaves the table as deleting it once: the second call also answers 204. */
  lemma {:induction false} SoftDeleteIdempotent(books: seq<Book>, id: int)
    ensures Deactivate(Deactivate(books, id), id) == Deactivate(books, id)
    ensures id in Keys(books, BookKey) ==> id in Keys(Deactivate(books, id), BookKey)
  {
    DeactivateKeepsKeys(books, id);
    var d := Deactivate(books, id);
    var dd := Deactivate(d, id);
    assert forall i :: 0 <= i < |d| ==> dd[i] == d[i];
  }
}
