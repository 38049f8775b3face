/**
 * What the MVC front end shares: the per-visitor session, TempData, the
 * calls it makes to the store's HTTP API, and the cart service whose code is
 * not part of this model.
 */
module Web {
  import opened Domain

  /** A `RedirectToAction(action, controller)`. */
  datatype Redirect = Redirect(action: string, controller: string)

  /** The outcome of one awaited API call: its value (null is `None` inside it), or an exception. */
  datatype Call<+T> = Returned(value: T) | Threw

  /** A TempData value: a fixed text, or one of the two texts built from a value. */
  datatype Message =
    | Text(text: string)
    | OrderNumber(orderId: int)   // "Siparişiniz başarıyla oluşturuldu. Sipariş No: {id}"
    | Viewed(title: string)       // "{title} kitabını görüntülediniz."

  const ErrorKey := "ErrorMessage"
  const SuccessKey := "SuccessMessage"
  const ViewedBookKey := "ViewedBook"

  /** The calls the front end makes to the store, recorded in order. */
  datatype ApiCall =
    | GetCategoriesCall
    | GetBooksCall
    | GetBookCall(id: int)
    | GetBooksByCategoryCall(categoryId: int)
    | CreateBookCall(book: Book)
    | UpdateBookCall(id: int, book: Book)
    | DeleteBookCall(id: int)
    | CreateOrderCall(order: Order)
    | AddToFavoritesCall(favorite: Favorite)
    | GetUsersCall
    | GetOrdersCall

  /**
   * The cart service. Its code is not part of this model, so each of its
   * operations is a parameter; only `ClearCart` is taken to empty the cart.
   */
  datatype CartService = CartService(
    addToCart: (seq<CartItem>, CartItem) -> seq<CartItem>,
    removeFromCart: (seq<CartItem>, int) -> seq<CartItem>,
    updateQuantity: (seq<CartItem>, int, int) -> seq<CartItem>,
    totalItems: seq<CartItem> -> int,
    totalAmount: seq<CartItem> -> Money,
    itemTotal: CartItem -> Money)

  /** One visitor's state: the cart the cart service keeps, `HttpContext.Session` strings, and TempData. */
  class Session {
    var cart: seq<CartItem>
    var values: map<string, string>
    var tempData: map<string, Message>

    constructor ()
      ensures cart == [] && values == map[] && tempData == map[]
    {
      cart, values, tempData := [], map[], map[];
    }
  }
}
