/**
 * The cart pages: quantity and removal updates, and the two-step checkout.
 * The GET step refuses an empty cart; the POST step turns the cart into an
 * order, sends it to the store, and empties the cart only when the store
 * answers with the created order.
 */
module CartController {
  import opened Nullable
  import opened Linq
  import opened Domain
  import opened Web

  const EmptyCartText := "Sepetiniz boş. Önce ürün ekleyin."
  const OrderFailedText := "Sipariş oluşturulurken bir hata oluştu."
  const CheckoutFailedText := "Sipariş işlemi sırasında bir hata oluştu."

  /** The user every order is placed for until there are user accounts. */
  const CheckoutUserId := 1

  /** What a checkout step renders. */
  datatype CheckoutResult =
    | CheckoutPage(cart: seq<CartItem>)   // the checkout form, with the cart as it now is
    | OrderSuccess(order: Order)          // the "OrderSuccess" view of the created order
    | Redirected(to: Redirect)

  /** The JSON that the cart's AJAX actions answer with. */
  datatype CartReply = CartReply(success: bool, cartCount: int, cartTotal: Money)

  /** The order line of one cart item. */
  function LineOf(itemTotal: CartItem -> Money): CartItem -> OrderDetail
  {
    (item: CartItem) => OrderDetail(0, 0, item.bookId, item.quantity, item.price, itemTotal(item))
  }

  function LineTotal(d: OrderDetail): Money { d.totalPrice }

  /** The order POST Checkout builds from the cart. */
  function CheckoutOrder(cart: seq<CartItem>, svc: CartService, address: string, now: Timestamp): (o: Order)
    ensures o.userId == CheckoutUserId && o.status == PendingStatus
    ensures o.totalAmount == svc.totalAmount(cart)
    ensures o.deliveryAddress == address && o.orderDate == now
    ensures |o.orderDetails| == |cart|
    ensures forall i :: 0 <= i < |cart| ==>
      && o.orderDetails[i].bookId == cart[i].bookId
      && o.orderDetails[i].quantity == cart[i].quantity
      && o.orderDetails[i].unitPrice == cart[i].price
      && o.orderDetails[i].totalPrice == svc.itemTotal(cart[i])
  {
    Order(0, CheckoutUserId, svc.totalAmount(cart), PendingStatus, address, now, Select(cart, LineOf(svc.itemTotal)))
  }

  /** The lines of the checkout order add up to the cart items' totals. */
  lemma CheckoutLinesTotal(cart: seq<CartItem>, svc: CartService, address: string, now: Timestamp)
    ensures Sum(CheckoutOrder(cart, svc, address, now).orderDetails, LineTotal) == Sum(cart, svc.itemTotal)
  {
    var o := CheckoutOrder(cart, svc, address, now);
    LineTotalsMatchCart(cart, o.orderDetails, svc.itemTotal);
  }

  lemma {:induction false} LineTotalsMatchCart(cart: seq<CartItem>, lines: seq<OrderDetail>, itemTotal: CartItem -> Money)
    requires |lines| == |cart|
    requires forall i :: 0 <= i < |cart| ==> lines[i].totalPrice == itemTotal(cart[i])
    ensures Sum(lines, LineTotal) == Sum(cart, itemTotal)
  {
    if |cart| > 0 {
      LineTotalsMatchCart(cart[1..], lines[1..], itemTotal);
    }
  }

  /** POST UpdateQuantity: hand the change to the cart service. */
  method UpdateQuantity(session: Session, svc: CartService, bookId: int, quantity: int) returns (success: bool)
    modifies session
    ensures session.cart == svc.updateQuantity(old(session.cart), bookId, quantity)
    ensures session.values == old(session.values) && session.tempData == old(session.tempData)
    ensures success
  {
    session.cart := svc.updateQuantity(session.cart, bookId, quantity);
    success := true;
  }

  /** POST RemoveItem: remove, then report the counts of the cart after the removal. */
  method RemoveItem(session: Session, svc: CartService, bookId: int) returns (reply: CartReply)
    modifies session
    ensures session.cart == svc.removeFromCart(old(session.cart), bookId)
    ensures reply == CartReply(true, svc.totalItems(session.cart), svc.totalAmount(session.cart))
    ensures session.values == old(session.values) && session.tempData == old(session.tempData)
  {
    session.cart := svc.removeFromCart(session.cart, bookId);
    reply := CartReply(true, svc.totalItems(session.cart), svc.totalAmount(session.cart));
  }

  /** GET Checkout: an empty cart goes back to the book list with an error; otherwise the form. */
  method CheckoutGet(session: Session) returns (r: CheckoutResult)
    modifies session
    ensures session.cart == old(session.cart) && session.values == old(session.values)
    ensures old(session.cart) == [] ==>
      r == Redirected(Redirect("Index", "Books")) && session.tempData == old(session.tempData)[ErrorKey := Text(EmptyCartText)]
    ensures old(session.cart) != [] ==> r == CheckoutPage(old(session.cart)) && session.tempData == old(session.tempData)
  {
    if |session.cart| == 0 {
      session.tempData := session.tempData[ErrorKey := Text(EmptyCartText)];
      r := Redirected(Redirect("Index", "Books"));
    } else {
      r := CheckoutPage(session.cart);
    }
  }

  /**
   * POST Checkout. `modelValid` is the form's validation result, `now` the
   * clock and `createOrder` the store's reply to the order it is sent. The
   * empty cart is not checked again here.
   */
  method CheckoutPost(session: Session, svc: CartService, address: string, modelValid: bool, now: Timestamp,
                      createOrder: Order -> Call<Option<Order>>)
    returns (r: CheckoutResult, calls: seq<ApiCall>)
    modifies session
    ensures session.values == old(session.values)
    ensures !modelValid ==>
      && calls == [] && r == CheckoutPage(old(session.cart))
      && session.cart == old(session.cart) && session.tempData == old(session.tempData)
    ensures modelValid ==> calls == [CreateOrderCall(CheckoutOrder(old(session.cart), svc, address, now))]
    ensures modelValid ==>
      var reply := createOrder(CheckoutOrder(old(session.cart), svc, address, now));
      if reply.Returned? && reply.value.Some? then
        && r == OrderSuccess(reply.value.value)
        && session.cart == []
        && session.tempData == old(session.tempData)[SuccessKey := OrderNumber(reply.value.value.id)]
      else
        && r == CheckoutPage(old(session.cart))
        && session.cart == old(session.cart)
        && session.tempData == old(session.tempData)[ErrorKey := Text(if reply.Threw? then CheckoutFailedText else OrderFailedText)]
  {
    if !modelValid {
      return CheckoutPage(session.cart), [];
    }
    var order := CheckoutOrder(session.cart, svc, address, now);
    calls := [CreateOrderCall(order)];
    var reply := createOrder(order);
    match reply {
      case Returned(Some(created)) =>
        session.cart := [];
        session.tempData := session.tempData[SuccessKey := OrderNumber(created.id)];
        return OrderSuccess(created), calls;
      case Returned(None) =>
        session.tempData := session.tempData[ErrorKey := Text(OrderFailedText)];
      case Threw =>
        session.tempData := session.tempData[ErrorKey := Text(CheckoutFailedText)];
    }
    r := CheckoutPage(session.cart);
  }

  /** GET GetCartCount. */
  method GetCartCount(session: Session, svc: CartService) returns (count: int)
    ensures count == svc.totalItems(session.cart)
  {
    count := svc.totalItems(session.cart);
  }
}
