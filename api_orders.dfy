/**
 * The API's orders endpoints. An order is stored without its lines; reading
 * one joins it with the lines that point at it, and deleting one deletes its
 * lines too.
 */
module ApiOrdersController {
  import opened Linq
  import opened Domain
  import opened Http
  import opened Database

  function OfOrder(orderId: int): OrderDetail -> bool { (d: OrderDetail) => d.orderId == orderId }
  function OfCustomer(userId: int): Order -> bool { (o: Order) => o.userId == userId }

  /** The lines of an order (`Include(o => o.OrderDetails)`). */
  function LinesOf(details: seq<OrderDetail>, orderId: int): (r: seq<OrderDetail>)
    ensures forall d :: d in r <==> d in details && d.orderId == orderId
  {
    Where(details, OfOrder(orderId))
  }

  function Joined(details: seq<OrderDetail>): Order -> Order
  {
    (o: Order) => o.(orderDetails := LinesOf(details, o.id))
  }

  /** GET api/orders: every order with its lines. */
  function GetOrders(orders: seq<Order>, details: seq<OrderDetail>): (r: seq<Order>)
    ensures |r| == |orders|
    ensures forall i :: 0 <= i < |r| ==> r[i].(orderDetails := orders[i].orderDetails) == orders[i]
    ensures forall i, d :: 0 <= i < |r| ==> (d in r[i].orderDetails <==> d in details && d.orderId == orders[i].id)
  {
    Select(orders, Joined(details))
  }

  /** GET api/orders/{id}: the order with that key and its lines, or 404. */
  function GetOrder(orders: seq<Order>, details: seq<OrderDetail>, id: int): (r: Response<Order>)
    ensures r.Ok? || r.NotFound?
    ensures r.NotFound? <==> id !in Keys(orders, OrderKey)
    ensures r.Ok? ==> r.value.id == id && exists o :: o in orders && o.id == id && r.value == o.(orderDetails := r.value.orderDetails)
    ensures r.Ok? ==> forall d :: d in r.value.orderDetails <==> d in details && d.orderId == id
  {
    match FirstOrDefault(orders, KeyIs(OrderKey, id))
    case None => NotFound
    case Some(o) => Ok(o.(orderDetails := LinesOf(details, id)))
  }

  /** With unique keys GetOrder returns the row with that key, joined with its lines. */
  lemma GetOrderFindsRow(orders: seq<Order>, details: seq<OrderDetail>, o: Order)
    requires Unique(orders, OrderKey)
    requires o in orders
    ensures GetOrder(orders, details, o.id) == Ok(o.(orderDetails := LinesOf(details, o.id)))
  {
    var found := FirstOrDefault(orders, KeyIs(OrderKey, o.id)).value;
    var i :| 0 <= i < |orders| && orders[i] == o;
    var j :| 0 <= j < |orders| && orders[j] == found;
    assert !(i < j) && !(j < i);
  }

  /** GET api/orders/user/{userId}: the user's orders, each joined with its lines. */
  function GetOrdersByUser(orders: seq<Order>, details: seq<OrderDetail>, userId: int): (r: seq<Order>)
    ensures |r| <= |orders|
    ensures forall o :: o in r ==> exists p :: p in orders && p.userId == userId && o == p.(orderDetails := LinesOf(details, p.id))
    ensures forall o :: o in r ==> o.userId == userId && forall d :: d in o.orderDetails <==> d in details && d.orderId == o.id
    ensures forall o :: o in orders && o.userId == userId ==> o.(orderDetails := LinesOf(details, o.id)) in r
  {
    var mine := Where(orders, OfCustomer(userId));
    var r := Select(mine, Joined(details));
    assert forall o :: o in mine ==> o.(orderDetails := LinesOf(details, o.id)) in r by {
      forall o | o in mine ensures o.(orderDetails := LinesOf(details, o.id)) in r {
        var i :| 0 <= i < |mine| && mine[i] == o;
        assert r[i] == o.(orderDetails := LinesOf(details, o.id));
      }
    }
    assert forall o :: o in r ==> exists p :: p in orders && p.userId == userId && o == p.(orderDetails := LinesOf(details, p.id)) by {
      forall o | o in r ensures exists p :: p in orders && p.userId == userId && o == p.(orderDetails := LinesOf(details, p.id)) {
        var i :| 0 <= i < |r| && r[i] == o;
        assert mine[i] in mine;
      }
    }
    r
  }

  /** The user's orders are listed in table order. */
  lemma GetOrdersByUserInTableOrder(a: seq<Order>, b: seq<Order>, details: seq<OrderDetail>, userId: int)
    ensures GetOrdersByUser(a + b, details, userId) == GetOrdersByUser(a, details, userId) + GetOrdersByUser(b, details, userId)
  {
    WhereAppend(a, b, OfCustomer(userId));
    SelectAppend(Where(a, OfCustomer(userId)), Where(b, OfCustomer(userId)), Joined(details));
  }

  /** The order just inserted reads back, with exactly the lines inserted with it. */
  lemma {:induction false} InsertedOrderReadsBack(orders: seq<Order>, details: seq<OrderDetail>, row: Order, lines: seq<OrderDetail>)
    requires Unique(orders + [row], OrderKey)
    requires forall d :: d in details ==> d.orderId != row.id
    requires forall d :: d in lines ==> d.orderId == row.id
    ensures GetOrder(orders + [row], details + lines, row.id) == Ok(row.(orderDetails := lines))
  {
    assert row in orders + [row];
    GetOrderFindsRow(orders + [row], details + lines, row);
    WhereAppend(details, lines, OfOrder(row.id));
    WhereNone(details, OfOrder(row.id));
    WhereAll(lines, OfOrder(row.id));
    assert LinesOf(details + lines, row.id) == lines;
  }

  /** POST api/orders: insert the order and its lines; a missing user or book makes the save throw. */
  method PostOrder(db: Context, order: Order) returns (r: Response<Order>)
    requires db.Valid()
    modifies db
    ensures db.Valid()
    ensures r.Created? || r.ServerError?
    ensures r.Created? <==>
      order.userId in Keys(db.users, UserKey) && Keys(order.orderDetails, DetailBook) <= Keys(db.books, BookKey)
    ensures r.Created? ==>
      r.value == order.(id := old(db.nextOrderId), orderDetails := NumberDetails(order.orderDetails, old(db.nextOrderId), old(db.nextOrderDetailId)))
    ensures r.Created? ==> GetOrder(db.orders, db.orderDetails, r.value.id) == Ok(r.value)
    ensures r.Created? ==> db.orders == old(db.orders) + [r.value.(orderDetails := [])]
    ensures r.Created? ==> db.orderDetails == old(db.orderDetails) + r.value.orderDetails
    ensures r.ServerError? ==> db.OrdersUnchanged() && db.DetailsUnchanged()
    ensures db.UsersUnchanged() && db.CategoriesUnchanged() && db.BooksUnchanged() && db.FavoritesUnchanged()
  {
    ghost var oldDetails := db.orderDetails;
    ghost var oldOrders := db.orders;
    ghost var next := db.nextOrderId;
    forall d | d in oldDetails ensures d.orderId != next {
      var x :| x in oldOrders && x.id == d.orderId;
    }
    var created := db.InsertOrder(order);
    if created.Some? {
      NumberedLines(order.orderDetails, next, old(db.nextOrderDetailId));
      InsertedOrderReadsBack(oldOrders, oldDetails, created.value.(orderDetails := []), created.value.orderDetails);
      r := Created(created.value);
    } else {
      r := ServerError;
    }
  }

  /** PUT api/orders/{id}: overwrite the order row (not its lines), with the same answers as for books. */
  method PutOrder(db: Context, id: int, order: Order) returns (r: Response<Order>)
    requires db.Valid()
    modifies db
    ensures db.Valid()
    ensures r.BadRequest? <==> id != order.id
    ensures r.NotFound? <==> id == order.id && id !in Keys(old(db.orders), OrderKey)
    ensures r.NoContent? <==>
      id == order.id && id in Keys(old(db.orders), OrderKey) && order.userId in Keys(db.users, UserKey)
    ensures r.BadRequest? || r.NotFound? || r.NoContent? || r.ServerError?
    ensures r.NoContent? ==> db.orders == Replace(old(db.orders), order.(orderDetails := []), OrderKey)
    ensures db.nextOrderId == old(db.nextOrderId)
    ensures !r.NoContent? ==> db.OrdersUnchanged()
    ensures db.UsersUnchanged() && db.CategoriesUnchanged() && db.BooksUnchanged() && db.DetailsUnchanged() && db.FavoritesUnchanged()
  {
    if id != order.id {
      return BadRequest;
    }
    var outcome := db.UpdateOrder(order);
    match outcome
    case Done => r := NoContent;
    case Missing => r := NotFound;
    case Rejected => r := ServerError;
  }

  /** DELETE api/orders/{id}: remove the order and, by cascade, its lines; or 404. */
  method DeleteOrder(db: Context, id: int) returns (r: Response<Order>)
    requires db.Valid()
    modifies db
    ensures db.Valid()
    ensures r.NotFound? || r.NoContent?
    ensures r.NotFound? <==> id !in Keys(old(db.orders), OrderKey)
    ensures db.orders == Where(old(db.orders), KeyIsNot(OrderKey, id))
    ensures db.orderDetails == Where(old(db.orderDetails), KeyIsNot(DetailOrder, id))
    ensures db.nextOrderId == old(db.nextOrderId) && db.nextOrderDetailId == old(db.nextOrderDetailId)
    ensures GetOrder(db.orders, db.orderDetails, id) == NotFound
    ensures LinesOf(db.orderDetails, id) == []
    ensures db.UsersUnchanged() && db.CategoriesUnchanged() && db.BooksUnchanged() && db.FavoritesUnchanged()
  {
    var found := db.RemoveOrder(id);
    KeysWithout(old(db.orders), OrderKey, id);
    DeletedOrderHasNoLines(old(db.orderDetails), id);
    r := if found then NoContent else NotFound;
  }

  /** After the cascade no line points at the deleted order. */
  lemma DeletedOrderHasNoLines(details: seq<OrderDetail>, id: int)
    ensures LinesOf(Where(details, KeyIsNot(DetailOrder, id)), id) == []
  {
    WhereNone(Where(details, KeyIsNot(DetailOrder, id)), OfOrder(id));
  }
}
