/** The admin dashboard and the admin login and logout. */
module AdminHomeController {
  import opened Nullable
  import opened Linq
  import opened Domain
  import opened Sorting
  import opened Web
  import opened AdminBaseController

  /** The dashboard's view model. */
  datatype Dashboard = Dashboard(
    totalUsers: int,
    totalBooks: int,
    totalCategories: int,
    totalOrders: int,
    totalRevenue: Money,
    recentOrders: seq<Order>,
    lowStockBooks: seq<Book>)

  /** The empty view model shown when a call to the store threw. */
  const EmptyDashboard := Dashboard(0, 0, 0, 0, 0, [], [])

  const RecentOrderCount := 5
  const LowStockLimit := 10

  function OrderTotal(o: Order): Money { o.totalAmount }

  /** `OrderByDescending(o => o.OrderDate)`: a later order may come first. */
  function LaterFirst(): (Order, Order) -> bool
  {
    (a: Order, b: Order) => a.orderDate >= b.orderDate
  }

  lemma LaterFirstIsTotalPreorder()
    ensures TotalPreorder(LaterFirst())
  {
    forall a: Order, b: Order ensures LaterFirst()(a, b) || LaterFirst()(b, a) {
    }
    forall a: Order, b: Order, c: Order | LaterFirst()(a, b) && LaterFirst()(b, c) ensures LaterFirst()(a, c) {
    }
  }

  function LowStock(b: Book): bool { b.stock < LowStockLimit }

  /**
   * `r` is the first `n` orders by `OrderDate` descending: as many as fit,
   * taken from `orders`, latest first, and no order left out is later than a
   * chosen one.
   */
  ghost predicate LatestOf(r: seq<Order>, orders: seq<Order>, n: nat)
  {
    && |r| == (if n < |orders| then n else |orders|)
    && multiset(r) <= multiset(orders)
    && (forall i, j :: 0 <= i < j < |r| ==> r[i].orderDate >= r[j].orderDate)
    && (forall o, x :: o in r && x in multiset(orders) - multiset(r) ==> o.orderDate >= x.orderDate)
  }

  /** `orders.OrderByDescending(o => o.OrderDate).Take(5)`. */
  function RecentOrders(orders: seq<Order>): (r: seq<Order>)
    ensures LatestOf(r, orders, RecentOrderCount)
  {
    LaterFirstIsTotalPreorder();
    var r := Top(orders, LaterFirst(), RecentOrderCount);
    forall i, j | 0 <= i < j < |r| ensures r[i].orderDate >= r[j].orderDate {
      assert LaterFirst()(r[i], r[j]);
    }
    forall o, x | o in r && x in multiset(orders) - multiset(r) ensures o.orderDate >= x.orderDate {
      assert LaterFirst()(o, x);
    }
    r
  }

  /** `orders.Sum(o => o.TotalAmount)`: never negative when no order total is. */
  function Revenue(orders: seq<Order>): (m: Money)
    ensures (forall o :: o in orders ==> o.totalAmount >= 0) ==> m >= 0
    ensures orders == [] ==> m == 0
  {
    SumNonNegative(orders, OrderTotal);
    Sum(orders, OrderTotal)
  }

  /** The revenue of two runs of orders is the sum of their revenues. */
  lemma RevenueAppend(a: seq<Order>, b: seq<Order>)
    ensures Revenue(a + b) == Revenue(a) + Revenue(b)
  {
    SumAppend(a, b, OrderTotal);
  }

  /** The dashboard aggregates over the four lists the store returned. */
  function DashboardOf(users: seq<User>, books: seq<Book>, categories: seq<Category>, orders: seq<Order>): (d: Dashboard)
    ensures d.totalUsers == |users| && d.totalBooks == |books|
    ensures d.totalCategories == |categories| && d.totalOrders == |orders|
    ensures d.totalRevenue == Revenue(orders)
    ensures LatestOf(d.recentOrders, orders, RecentOrderCount)
    ensures forall b :: b in d.lowStockBooks <==> b in books && b.stock < LowStockLimit
    ensures forall b :: multiset(d.lowStockBooks)[b] == if b.stock < LowStockLimit then multiset(books)[b] else 0
  {
    var low := Where(books, LowStock);
    assert forall b :: multiset(low)[b] == if b.stock < LowStockLimit then multiset(books)[b] else 0 by {
      forall b ensures multiset(low)[b] == if b.stock < LowStockLimit then multiset(books)[b] else 0 {
        WhereMultiplicity(books, LowStock, b);
      }
    }
    Dashboard(|users|, |books|, |categories|, |orders|, Revenue(orders), RecentOrders(orders), low)
  }

  /** The low-stock list keeps table order: a concatenation lists the first part's books, then the second's. */
  lemma LowStockInTableOrder(users: seq<User>, a: seq<Book>, b: seq<Book>, categories: seq<Category>, orders: seq<Order>)
    ensures DashboardOf(users, a + b, categories, orders).lowStockBooks ==
      DashboardOf(users, a, categories, orders).lowStockBooks + DashboardOf(users, b, categories, orders).lowStockBooks
  {
    WhereAppend(a, b, LowStock);
  }

  datatype DashboardResult = Denied(to: Redirect) | DashboardPage(dashboard: Dashboard, failed: bool)

  const DashboardFetches := [GetUsersCall, GetBooksCall, GetCategoriesCall, GetOrdersCall]

  /**
   * GET Index: the guard first; then the four fetches in order, stopping at
   * the first one that throws.
   */
  method Index(session: Session, usersReply: Call<seq<User>>, booksReply: Call<seq<Book>>,
               categoriesReply: Call<seq<Category>>, ordersReply: Call<seq<Order>>)
    returns (r: DashboardResult, calls: seq<ApiCall>)
    ensures !IsAdmin(session.values) ==> r == Denied(LoginRedirect) && calls == []
    ensures IsAdmin(session.values) ==>
      && 1 <= |calls| <= |DashboardFetches| && calls == DashboardFetches[..|calls|]
      && (usersReply.Threw? ==> |calls| == 1)
      && (usersReply.Returned? && booksReply.Threw? ==> |calls| == 2)
      && (usersReply.Returned? && booksReply.Returned? && categoriesReply.Threw? ==> |calls| == 3)
      && (usersReply.Returned? && booksReply.Returned? && categoriesReply.Returned? ==> |calls| == 4)
    ensures IsAdmin(session.values) ==>
      if usersReply.Returned? && booksReply.Returned? && categoriesReply.Returned? && ordersReply.Returned?
      then r == DashboardPage(DashboardOf(usersReply.value, booksReply.value, categoriesReply.value, ordersReply.value), false)
      else r == DashboardPage(EmptyDashboard, true)
  {
    var denied := CheckAdminAccess(session.values);
    if denied.Some? {
      return Denied(denied.value), [];
    }
    calls := [GetUsersCall];
    if usersReply.Threw? {
      return DashboardPage(EmptyDashboard, true), calls;
    }
    calls := calls + [GetBooksCall];
    if booksReply.Threw? {
      return DashboardPage(EmptyDashboard, true), calls;
    }
    calls := calls + [GetCategoriesCall];
    if categoriesReply.Threw? {
      return DashboardPage(EmptyDashboard, true), calls;
    }
    calls := calls + [GetOrdersCall];
    if ordersReply.Threw? {
      return DashboardPage(EmptyDashboard, true), calls;
    }
    r := DashboardPage(DashboardOf(usersReply.value, booksReply.value, categoriesReply.value, ordersReply.value), false);
  }

  const AdminEmail := "admin@ebook.com"
  const AdminPassword := "admin123"
  const EmailKey := "UserEmail"
  const LoggedInText := "Başarıyla giriş yaptınız."
  const BadLoginText := "Geçersiz email veya şifre."
  const LoggedOutText := "Başarıyla çıkış yaptınız."

  predicate Credentials(email: Option<string>, password: Option<string>)
  {
    email == Some(AdminEmail) && password == Some(AdminPassword)
  }

  /** The session strings after a login attempt. */
  function SignIn(values: map<string, string>, email: Option<string>, password: Option<string>): (v: map<string, string>)
    ensures IsAdmin(v) <==> Credentials(email, password) || IsAdmin(values)
    ensures !Credentials(email, password) ==> v == values
    ensures Credentials(email, password) ==> EmailKey in v && v[EmailKey] == AdminEmail
    ensures forall k :: k in values && k != RoleKey && k != EmailKey ==> k in v && v[k] == values[k]
    ensures forall k :: k in v ==> k in values || k == RoleKey || k == EmailKey
  {
    if Credentials(email, password) then values[RoleKey := AdminRole][EmailKey := AdminEmail] else values
  }

  datatype LoginResult = LoginRedirected(to: Redirect) | LoginForm

  /** POST Login. */
  method Login(session: Session, email: Option<string>, password: Option<string>) returns (r: LoginResult)
    modifies session
    ensures session.values == SignIn(old(session.values), email, password)
    ensures session.cart == old(session.cart)
    ensures Credentials(email, password) ==>
      r == LoginRedirected(Redirect("Index", "AdminHome"))
      && session.tempData == old(session.tempData)[SuccessKey := Text(LoggedInText)]
    ensures !Credentials(email, password) ==>
      r == LoginForm && session.tempData == old(session.tempData)[ErrorKey := Text(BadLoginText)]
  {
    if Credentials(email, password) {
      session.values := session.values[RoleKey := AdminRole][EmailKey := AdminEmail];
      SetSuccessMessage(session, LoggedInText);
      return LoginRedirected(Redirect("Index", "AdminHome"));
    }
    SetErrorMessage(session, BadLoginText);
    r := LoginForm;
  }

  /**
   * GET Logout: `Session.Clear()` empties the session, the cart the cart
   * service keeps there included, so the next admin check fails.
   */
  method Logout(session: Session) returns (r: Redirect)
    modifies session
    ensures session.values == map[] && session.cart == []
    ensures !IsAdmin(session.values) && CheckAdminAccess(session.values) == Some(LoginRedirect)
    ensures session.tempData == old(session.tempData)[SuccessKey := Text(LoggedOutText)]
    ensures r == Redirect("Login", "AdminHome")
  {
    session.values, session.cart := map[], [];
    SetSuccessMessage(session, LoggedOutText);
    r := Redirect("Login", "AdminHome");
  }
}
