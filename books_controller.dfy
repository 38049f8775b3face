/**
 * The catalog pages of the front end: the filtered, searched and sorted book
 * list, a book's details with related books, and the cart and favorites
 * buttons.
 */
module BooksController {
  import opened Nullable
  import opened Linq
  import opened Domain
  import opened Text
  import opened Sorting
  import opened Catalog
  import opened Web

  function InCategory(categoryId: int): Book -> bool { (b: Book) => b.categoryId == categoryId }

  /** A book matches a search term when its title or author contains it, ignoring case. */
  predicate Matches(b: Book, term: string)
  {
    ContainsIgnoreCase(b.title, term) || ContainsIgnoreCase(b.author, term)
  }

  function MatchesTerm(term: string): Book -> bool { (b: Book) => Matches(b, term) }

  /** The category filter: none without a category id, else the books of that category in list order. */
  function ByCategory(books: seq<Book>, categoryId: Option<int>): (r: seq<Book>)
    ensures categoryId.None? ==> r == books
    ensures categoryId.Some? ==> forall b :: b in r <==> b in books && b.categoryId == categoryId.value
  {
    if categoryId.Some? then Where(books, InCategory(categoryId.value)) else books
  }

  /** The search: a null or empty term keeps every book. */
  function BySearch(books: seq<Book>, searchTerm: Option<string>): (r: seq<Book>)
    ensures IsNullOrEmpty(searchTerm) ==> r == books
    ensures !IsNullOrEmpty(searchTerm) ==> forall b :: b in r <==> b in books && Matches(b, searchTerm.value)
  {
    if IsNullOrEmpty(searchTerm) then books else Where(books, MatchesTerm(searchTerm.value))
  }

  /** The book list of Index: filter by category, then search, then sort as `sortBy` selects. */
  function Browse(books: seq<Book>, categoryId: Option<int>, searchTerm: Option<string>, sortBy: Option<string>): (r: seq<Book>)
    ensures multiset(r) == multiset(BySearch(ByCategory(books, categoryId), searchTerm))
    ensures forall b :: b in r <==>
      && b in books
      && (categoryId.Some? ==> b.categoryId == categoryId.value)
      && (!IsNullOrEmpty(searchTerm) ==> Matches(b, searchTerm.value))
    ensures forall i, j :: 0 <= i < j < |r| ==> Precedes(SortOrderOf(sortBy), r[i], r[j])
  {
    var filtered := BySearch(ByCategory(books, categoryId), searchTerm);
    var r := Sort(filtered, SortOrderOf(sortBy));
    assert forall b :: b in r <==> b in multiset(filtered);
    r
  }

  /** Filtering keeps the relative order of the books it keeps. */
  lemma ByCategoryKeepsOrder(a: seq<Book>, b: seq<Book>, categoryId: Option<int>)
    ensures ByCategory(a + b, categoryId) == ByCategory(a, categoryId) + ByCategory(b, categoryId)
  {
    if categoryId.Some? {
      WhereAppend(a, b, InCategory(categoryId.value));
    }
  }

  lemma BySearchKeepsOrder(a: seq<Book>, b: seq<Book>, searchTerm: Option<string>)
    ensures BySearch(a + b, searchTerm) == BySearch(a, searchTerm) + BySearch(b, searchTerm)
  {
    if !IsNullOrEmpty(searchTerm) {
      WhereAppend(a, b, MatchesTerm(searchTerm.value));
    }
  }

  /** The view model of Index. `failed` is the "Kitaplar yüklenirken bir hata oluştu." error of a failed call. */
  datatype BookListView = BookListView(
    books: seq<Book>,
    categories: seq<Category>,
    selectedCategoryId: Option<int>,
    searchTerm: Option<string>,
    sortBy: Option<string>,
    totalBooks: int,
    failed: bool)

  const EmptyBookList := BookListView([], [], None, None, None, 0, true)

  /** GET Index, from the store's replies for the categories and the active books. */
  function Index(categoriesReply: Call<seq<Category>>, booksReply: Call<seq<Book>>,
                 categoryId: Option<int>, searchTerm: Option<string>, sortBy: Option<string>): (v: BookListView)
    ensures v.failed <==> categoriesReply.Threw? || booksReply.Threw?
    ensures v.failed ==> v == EmptyBookList
    ensures !v.failed ==>
      && v.books == Browse(booksReply.value, categoryId, searchTerm, sortBy)
      && v.totalBooks == |BySearch(ByCategory(booksReply.value, categoryId), searchTerm)|
      && v.categories == categoriesReply.value
      && v.selectedCategoryId == categoryId
      && v.searchTerm == (if IsNullOrEmpty(searchTerm) then None else searchTerm)
      && v.sortBy == sortBy
  {
    if categoriesReply.Threw? || booksReply.Threw? then EmptyBookList
    else
      var books := Browse(booksReply.value, categoryId, searchTerm, sortBy);
      assert |books| == |multiset(books)|;
      BookListView(books, categoriesReply.value, categoryId,
                   if IsNullOrEmpty(searchTerm) then None else searchTerm,
                   sortBy, |books|, false)
  }

  function Other(id: int): Book -> bool { (b: Book) => b.id != id }

  /** The related books of book `id`: up to four other books of its category, in the order the store lists them. */
  function RelatedBooks(sameCategory: seq<Book>, id: int): (r: seq<Book>)
    ensures |r| <= 4
    ensures forall b :: b in r ==> b in sameCategory && b.id != id
    ensures |r| == if |Where(sameCategory, Other(id))| < 4 then |Where(sameCategory, Other(id))| else 4
    ensures r == Where(sameCategory, Other(id))[..|r|]
  {
    var others := Where(sameCategory, Other(id));
    var r := Take(others, 4);
    assert forall b :: b in r ==> b in others;
    r
  }

  /** What Details renders. */
  datatype DetailsResult =
    | NotFoundResult
    | DetailsPage(book: Book, relatedBooks: seq<Book>, isFavorite: bool)
    | Redirected(to: Redirect)

  const DetailsFailedText := "Kitap detayları yüklenirken bir hata oluştu."

  /** GET Details, from the store's replies for the book and for its category's books. */
  method Details(session: Session, id: int, bookReply: Call<Option<Book>>, categoryReply: int -> Call<seq<Book>>)
    returns (r: DetailsResult, calls: seq<ApiCall>)
    modifies session
    ensures session.cart == old(session.cart) && session.values == old(session.values)
    ensures bookReply.Threw? ==>
      && calls == [GetBookCall(id)] && r == Redirected(Redirect("Index", "Books"))
      && session.tempData == old(session.tempData)[ErrorKey := Text(DetailsFailedText)]
    ensures bookReply == Returned(None) ==>
      calls == [GetBookCall(id)] && r == NotFoundResult && session.tempData == old(session.tempData)
    ensures bookReply.Returned? && bookReply.value.Some? ==>
      var book := bookReply.value.value;
      && calls == [GetBookCall(id), GetBooksByCategoryCall(book.categoryId)]
      && (categoryReply(book.categoryId).Threw? ==>
            r == Redirected(Redirect("Index", "Books"))
            && session.tempData == old(session.tempData)[ErrorKey := Text(DetailsFailedText)])
      && (categoryReply(book.categoryId).Returned? ==>
            r == DetailsPage(book, RelatedBooks(categoryReply(book.categoryId).value, id), false)
            && session.tempData == old(session.tempData)[ViewedBookKey := Viewed(book.title)])
  {
    calls := [GetBookCall(id)];
    if bookReply.Threw? {
      session.tempData := session.tempData[ErrorKey := Text(DetailsFailedText)];
      return Redirected(Redirect("Index", "Books")), calls;
    }
    if bookReply.value.None? {
      return NotFoundResult, calls;
    }
    var book := bookReply.value.value;
    calls := calls + [GetBooksByCategoryCall(book.categoryId)];
    var related := categoryReply(book.categoryId);
    if related.Threw? {
      session.tempData := session.tempData[ErrorKey := Text(DetailsFailedText)];
      return Redirected(Redirect("Index", "Books")), calls;
    }
    session.tempData := session.tempData[ViewedBookKey := Viewed(book.title)];
    r := DetailsPage(book, RelatedBooks(related.value, id), false);
  }

  /** The JSON the cart and favorites buttons answer with. */
  datatype JsonReply = JsonReply(success: bool, message: string, cartCount: Option<int>)

  const BookNotFoundText := "Kitap bulunamadı."
  const AddedToCartText := "Kitap sepete eklendi."
  const FailedText := "Bir hata oluştu."
  const AddedToFavoritesText := "Kitap favorilere eklendi."
  const AlreadyFavoriteText := "Kitap zaten favorilerde."

  /** The quantity AddToCart uses when the request carries none. */
  const DefaultQuantity := 1

  /** The cart line for a book. */
  function CartItemOf(book: Book, quantity: int): (item: CartItem)
    ensures item.bookId == book.id && item.title == book.title && item.author == book.author
    ensures item.price == book.price && item.imageUrl == book.imageUrl && item.quantity == quantity
  {
    CartItem(book.id, book.title, book.author, book.price, book.imageUrl, quantity)
  }

  /** POST AddToCart: an unknown book or a failed call leaves the cart as it was. */
  method AddToCart(session: Session, svc: CartService, bookId: int, quantity: Option<int>, bookReply: Call<Option<Book>>)
    returns (reply: JsonReply, calls: seq<ApiCall>)
    modifies session
    ensures calls == [GetBookCall(bookId)]
    ensures session.values == old(session.values) && session.tempData == old(session.tempData)
    ensures bookReply.Threw? ==> reply == JsonReply(false, FailedText, None) && session.cart == old(session.cart)
    ensures bookReply == Returned(None) ==> reply == JsonReply(false, BookNotFoundText, None) && session.cart == old(session.cart)
    ensures bookReply.Returned? && bookReply.value.Some? ==>
      && session.cart == svc.addToCart(old(session.cart), CartItemOf(bookReply.value.value, quantity.GetOr(DefaultQuantity)))
      && reply == JsonReply(true, AddedToCartText, Some(svc.totalItems(session.cart)))
  {
    calls := [GetBookCall(bookId)];
    match bookReply {
      case Threw => reply := JsonReply(false, FailedText, None);
      case Returned(None) => reply := JsonReply(false, BookNotFoundText, None);
      case Returned(Some(book)) =>
        session.cart := svc.addToCart(session.cart, CartItemOf(book, quantity.GetOr(DefaultQuantity)));
        reply := JsonReply(true, AddedToCartText, Some(svc.totalItems(session.cart)));
    }
  }

  /** Favorites are recorded for user 1 until there are user accounts. */
  const FavoritesUserId := 1

  /** The favorite AddToFavorites sends. */
  function FavoriteRequest(bookId: int, now: Timestamp): (f: Favorite)
    ensures f.userId == FavoritesUserId && f.bookId == bookId && f.createdDate == now
  {
    Favorite(0, FavoritesUserId, bookId, now)
  }

  /**
   * POST AddToFavorites: send one favorite for the book, stamped `now`;
   * success exactly when the store returns the created favorite.
   */
  method AddToFavorites(bookId: int, now: Timestamp, reply: Call<Option<Favorite>>) returns (r: JsonReply, calls: seq<ApiCall>)
    ensures calls == [AddToFavoritesCall(FavoriteRequest(bookId, now))]
    ensures r.success <==> reply.Returned? && reply.value.Some?
    ensures r.cartCount.None?
    ensures r.message == (if reply.Threw? then FailedText else if reply.value.Some? then AddedToFavoritesText else AlreadyFavoriteText)
  {
    calls := [AddToFavoritesCall(FavoriteRequest(bookId, now))];
    match reply {
      case Threw => r := JsonReply(false, FailedText, None);
      case Returned(Some(_)) => r := JsonReply(true, AddedToFavoritesText, None);
      case Returned(None) => r := JsonReply(false, AlreadyFavoriteText, None);
    }
  }
}
