/**
 * The records of the store, shaped after the API's entity classes. Money is
 * `decimal(10,2)` held as integer cents; `DateTime` values are integer
 * timestamps supplied by the caller.
 */
module Domain {
  import opened Nullable

  /** An amount in cents. */
  type Money = int

  /** A point in time; larger is later. */
  type Timestamp = int

  datatype User = User(id: int, firstName: string, lastName: string, email: string, password: string, role: string)

  datatype Category = Category(id: int, name: string, description: string)

  datatype Book = Book(
    id: int,
    title: string,
    author: string,
    description: string,
    price: Money,
    categoryId: int,
    stock: int,
    imageUrl: Option<string>,
    isActive: bool,
    createdDate: Timestamp)

  datatype OrderDetail = OrderDetail(id: int, orderId: int, bookId: int, quantity: int, unitPrice: Money, totalPrice: Money)

  /**
   * An order. `orderDetails` is the navigation collection: filled in when an
   * order is sent or read back with its lines, empty in the order table itself.
   */
  datatype Order = Order(
    id: int,
    userId: int,
    totalAmount: Money,
    status: string,
    deliveryAddress: string,
    orderDate: Timestamp,
    orderDetails: seq<OrderDetail>)

  datatype Favorite = Favorite(id: int, userId: int, bookId: int, createdDate: Timestamp)

  /** A line of the session cart, as the front end's cart service holds it. */
  datatype CartItem = CartItem(bookId: int, title: string, author: string, price: Money, imageUrl: Option<string>, quantity: int)

  /** The database default of `User.Role`. */
  const DefaultRole := "User"

  /** The initial value of `Order.Status`. */
  const PendingStatus := "Pending"
}
