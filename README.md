# E-book store: a Dafny model of the storefront and its API

This project models the core of a two-tier e-book store. The first tier is
an MVC front end: the catalog pages, the session cart with checkout, the
home page, and the admin screens for the dashboard, login and books. The
second tier is the REST API behind it: books, favorites and orders, stored
through an ORM context whose model configuration fixes keys, unique indexes
and delete rules.

How the source's parts are modelled:

- **Database** (`database.dfy`) models the ORM context. `Database.Context` is a class holding six tables as
  sequences (users, categories, books, orders, order lines, favorites), each with a per-table identity counter.
  `Context.Valid()` is the model configuration:
  - identity keys;
  - the unique e-mail, category-name and (user, book) indexes;
  - every foreign key pointing at an existing row.

  Each write method keeps `Valid()`. A write the configuration would refuse leaves every table unchanged and
  reports the failure: a unique or foreign-key violation, or a Restrict delete.
- **API controllers** (`api_books.dfy`, `api_favorites.dfy`, `api_orders.dfy`):
  - read actions are functions over the tables;
  - write actions are methods on the `Context`;
  - every action returns an `Http.Response`.
- **Front-end controllers** (`cart_controller.dfy`, `books_controller.dfy`, `home_controller.dfy`,
  `admin_base.dfy`, `admin_home.dfy`, `admin_books.dfy`) act on a `Web.Session`. That class holds the session
  cart, the session strings and TempData.
  - The code of the API client and of the cart service is not part of this model. Each reply of the store is an
    input instead, a `Web.Call`: a value, with null as `None`, or an exception.
  - Each cart-service operation is a function value in `Web.CartService`. Only `ClearCart` (the cart becomes
    empty) is fixed.
  - Actions that call the store also return the list of calls they made, so "no call before the admin guard"
    and "no create call for an invalid form" are stated outright.
- **Shared modules** (`linq.dfy`, `sorting.dfy`, `text.dfy`, `catalog.dfy`) model the framework operations the
  controllers use:
  - the LINQ operators (`Where`, `FirstOrDefault`, `Take`, `Select`, `Sum`);
  - `OrderBy` as a stable insertion sort;
  - `string.IsNullOrEmpty` and `Contains`, ordinal and ordinal-ignore-case;
  - the five book orders of the catalog's `sortBy` switch.

Money (`decimal(10,2)`) is integer cents. `DateTime.Now`, the fresh GUID of an uploaded image and the
model-binding verdict `ModelState.IsValid` are inputs.

## Model

| member | source | states |
|---|---|---|
| Catalog.SortOrderOf | EBookMVC/EBookMVC/Controllers/BooksController.cs:47-64 | each of "price_asc", "price_desc", "name_asc", "name_desc" selects its own order, and only that key does; every other value, null included, selects newest first |
| Catalog.ComparerIsTotalPreorder | EBookMVC/EBookMVC/Controllers/BooksController.cs:47-64 | each of the five orders is total and transitive, so sorting by it is well defined |
| Catalog.Sort | EBookMVC/EBookMVC/Controllers/BooksController.cs:50-62 | the result is a permutation of the input, and every earlier book may precede every later one under the chosen order |
| Sorting.Top | EBookMVC/EBookMVC/Controllers/HomeController.cs:27-28 | `OrderBy(...).Take(n)` gives min(n, count) elements of the input, sorted; no element left out may come before a chosen one; it is a prefix of the one sorted sequence |
| BooksController.ByCategory | EBookMVC/EBookMVC/Controllers/BooksController.cs:30-34 | without a category id every book stays; with one, a book stays exactly when it is in that category |
| BooksController.BySearch | EBookMVC/EBookMVC/Controllers/BooksController.cs:37-44 | a null or empty term keeps every book; otherwise a book stays exactly when its title or author contains the term, ignoring case |
| BooksController.ByCategoryKeepsOrder | EBookMVC/EBookMVC/Controllers/BooksController.cs:32 | filtering distributes over concatenation, so the books keep their relative order |
| BooksController.BySearchKeepsOrder | EBookMVC/EBookMVC/Controllers/BooksController.cs:39-42 | the search distributes over concatenation, so the books keep their relative order |
| BooksController.Browse | EBookMVC/EBookMVC/Controllers/BooksController.cs:29-64 | the listed books are a permutation of the filtered and searched books; a book is listed exactly when it passes both filters; the list is sorted under the `sortBy` order |
| BooksController.Index | EBookMVC/EBookMVC/Controllers/BooksController.cs:20-79 | an exception from either call gives the empty error view; otherwise the view holds the browsed books, their count, the categories, the selected category, the search term (only when it is non-empty) and `sortBy` |
| BooksController.RelatedBooks | EBookMVC/EBookMVC/Controllers/BooksController.cs:91-92 | at most four books, all from the category list, none with the viewed id, as a prefix of the other books in list order |
| BooksController.Details | EBookMVC/EBookMVC/Controllers/BooksController.cs:81-112 | a missing book gives NotFound with TempData untouched; a found book gives the details page with its related books and sets only the ViewedBook message; an exception sets the error message and redirects to Index |
| BooksController.CartItemOf | EBookMVC/EBookMVC/Controllers/BooksController.cs:125-133 | the cart line copies the book's id, title, author, price and image, with the requested quantity |
| BooksController.AddToCart | EBookMVC/EBookMVC/Controllers/BooksController.cs:115-150 | an unknown book or an exception leaves the cart unchanged with a failure reply; a found book is added with quantity 1 when none is given, and the reply carries the new item count |
| BooksController.FavoriteRequest | EBookMVC/EBookMVC/Controllers/BooksController.cs:157-165 | the favorite sent is for user 1 and the given book, created now |
| BooksController.AddToFavorites | EBookMVC/EBookMVC/Controllers/BooksController.cs:152-181 | the one store call sends the favorite of user 1 for that book stamped now; success exactly when the store returns the new favorite; a throw and a refusal each have their own message |
| HomeController.TopIsNewest | EBookMVC/EBookMVC/Controllers/HomeController.cs:27-28 | the top-n of the newest-first order, restated on `CreatedDate`: newest first, and no book left out is newer than a chosen one |
| HomeController.Newest | EBookMVC/EBookMVC/Controllers/HomeController.cs:27-28 | `OrderByDescending(CreatedDate).Take(n)`: min(n, count) books of the input, newest first; no book left out is newer than a chosen one |
| HomeController.Index | EBookMVC/EBookMVC/Controllers/HomeController.cs:17-40 | the featured categories are the first min(4, n) categories in order; the featured and new books are the newest 8 and 4; the new books are a prefix of the featured ones; an exception gives empty selections |
| HomeController.Contact | EBookMVC/EBookMVC/Controllers/HomeController.cs:63-76 | the success message is set exactly when name, e-mail and message are all non-empty, otherwise the error message; the action always redirects to Contact |
| AdminBaseController.CheckAdminAccess | EBookMVC/EBookMVC/Controllers/Admin/AdminBaseController.cs:16-29 | no redirect (null) exactly when the session's "UserRole" is the string "Admin"; otherwise the redirect to AdminHome's Login |
| AdminBaseController.SetErrorMessage | EBookMVC/EBookMVC/Controllers/Admin/AdminBaseController.cs:32-35 | only TempData["ErrorMessage"] changes |
| AdminBaseController.SetSuccessMessage | EBookMVC/EBookMVC/Controllers/Admin/AdminBaseController.cs:38-41 | only TempData["SuccessMessage"] changes |
| AdminHomeController.LaterFirstIsTotalPreorder | EBookMVC/EBookMVC/Controllers/Admin/AdminHomeController.cs:32 | ordering orders by `OrderDate` descending is total and transitive |
| AdminHomeController.RecentOrders | EBookMVC/EBookMVC/Controllers/Admin/AdminHomeController.cs:32 | at most five orders, all from the list, in non-increasing date; no order left out is later than a chosen one |
| AdminHomeController.Revenue | EBookMVC/EBookMVC/Controllers/Admin/AdminHomeController.cs:31 | the revenue is zero for no orders and never negative when no order total is |
| AdminHomeController.RevenueAppend | EBookMVC/EBookMVC/Controllers/Admin/AdminHomeController.cs:31 | the revenue of two lists of orders is the sum of their revenues |
| AdminHomeController.DashboardOf | EBookMVC/EBookMVC/Controllers/Admin/AdminHomeController.cs:25-34 | the four totals are the list lengths; the revenue is the sum of order totals; the recent orders are the latest five; the low-stock books are exactly the books with stock below 10, each as often as it is stored |
| AdminHomeController.LowStockInTableOrder | EBookMVC/EBookMVC/Controllers/Admin/AdminHomeController.cs:33 | the low-stock list keeps table order: a concatenation lists the first part's books, then the second's |
| AdminHomeController.Index | EBookMVC/EBookMVC/Controllers/Admin/AdminHomeController.cs:13-44 | a non-admin is redirected with no call made; an admin's fetches run in order and stop at the first that throws, which gives the empty dashboard; otherwise the aggregates |
| AdminHomeController.SignIn | EBookMVC/EBookMVC/Controllers/Admin/AdminHomeController.cs:56-60 | afterwards the session is admin exactly when the credentials are "admin@ebook.com"/"admin123" or it already was; wrong credentials change nothing; other keys keep their values |
| AdminHomeController.Login | EBookMVC/EBookMVC/Controllers/Admin/AdminHomeController.cs:53-66 | the session strings become `SignIn(...)`; success redirects to Index with the success message; otherwise the form is shown with the error message |
| AdminHomeController.Logout | EBookMVC/EBookMVC/Controllers/Admin/AdminHomeController.cs:68-73 | the session is emptied, the cart included, so the admin check fails; the success message is set; the action redirects to Login |
| AdminBooksController.UploadUrl | EBookMVC/EBookMVC/Controllers/Admin/AdminBooksController.cs:244-252 | the URL of an upload lies under "/images/books/" and ends with the file's name |
| AdminBooksController.CreatedImageUrl | EBookMVC/EBookMVC/Controllers/Admin/AdminBooksController.cs:63-69 | the default image unless a non-empty file was uploaded, in which case the upload's URL |
| AdminBooksController.CreatedBook | EBookMVC/EBookMVC/Controllers/Admin/AdminBooksController.cs:71-82 | the new record copies the form's fields, is active, is created now, and has the default image when no non-empty file was sent |
| AdminBooksController.DefaultImageKept | EBookMVC/EBookMVC/Controllers/Admin/AdminBooksController.cs:171 | the default image is never deleted |
| AdminBooksController.EditedBook | EBookMVC/EBookMVC/Controllers/Admin/AdminBooksController.cs:163-189 | the record copies the form's fields, keeps the stored book's `IsActive` and `CreatedDate`, and keeps `CurrentImageUrl` unless a new file was uploaded |
| AdminBooksController.EditFormOf | EBookMVC/EBookMVC/Controllers/Admin/AdminBooksController.cs:119-130 | the edit form of a book, submitted unchanged, builds that same book back |
| AdminBooksController.Index | EBookMVC/EBookMVC/Controllers/Admin/AdminBooksController.cs:14-30 | a non-admin is redirected with no call; otherwise one fetch, whose exception gives an empty list with an error |
| AdminBooksController.CreateGet | EBookMVC/EBookMVC/Controllers/Admin/AdminBooksController.cs:33-46 | a non-admin is redirected with no call; otherwise the blank form with the categories |
| AdminBooksController.CreatePost | EBookMVC/EBookMVC/Controllers/Admin/AdminBooksController.cs:50-102 | a non-admin is redirected with no call; an invalid form makes no create call; otherwise the built record is sent, and success redirects while a null reply or an exception re-shows the form, each with its message |
| AdminBooksController.EditGet | EBookMVC/EBookMVC/Controllers/Admin/AdminBooksController.cs:105-140 | a non-admin is redirected with no call; a missing book gives NotFound; a found one gives the filled form; an exception redirects with the error message; the whole call trace is stated on every path |
| AdminBooksController.EditPost | EBookMVC/EBookMVC/Controllers/Admin/AdminBooksController.cs:144-209 | a non-admin is redirected with no call; an id the store does not know gives NotFound with no update call; the old image is deleted exactly when a file was uploaded and the current image is non-empty and not the default; the edited record is sent and each reply gets its message |
| AdminBooksController.Delete | EBookMVC/EBookMVC/Controllers/Admin/AdminBooksController.cs:213-236 | a non-admin is redirected with no call; otherwise one delete call, the message for its outcome, and a redirect to Index |
| CartController.CheckoutOrder | EBookMVC/EBookMVC/Controllers/CartController.cs:82-96 | the order is for user 1, Pending, with the cart's total, the address and now; it has one line per cart item, with the same book, quantity and price and the item's total |
| CartController.CheckoutLinesTotal | EBookMVC/EBookMVC/Controllers/CartController.cs:89-95 | the order's line totals add up to the sum of the cart's item totals |
| CartController.LineTotalsMatchCart | EBookMVC/EBookMVC/Controllers/CartController.cs:89-95 | lines that match the cart item by item have the same sum of totals |
| CartController.UpdateQuantity | EBookMVC/EBookMVC/Controllers/CartController.cs:30-34 | the cart becomes the service's update and the reply is success; nothing else changes |
| CartController.RemoveItem | EBookMVC/EBookMVC/Controllers/CartController.cs:37-48 | the cart becomes the service's removal; the reply's count and total are read from the cart after the removal |
| CartController.CheckoutGet | EBookMVC/EBookMVC/Controllers/CartController.cs:50-66 | an empty cart redirects to Books/Index with the error message and creates no order; a non-empty cart gives the checkout page; the cart is unchanged |
| CartController.CheckoutPost | EBookMVC/EBookMVC/Controllers/CartController.cs:69-119 | an invalid form makes no call and changes nothing; otherwise exactly one create call with the built order; the cart is cleared exactly when the store returns the created order, which sets the order-number message; a null reply or an exception keeps the cart and sets its own error message |
| CartController.GetCartCount | EBookMVC/EBookMVC/Controllers/CartController.cs:121-125 | the count is the service's item count of the cart |
| ApiBooksController.GetBooks | EbookAPI/EbookAPI/Controllers/BooksController.cs:23-29 | a book is listed exactly when it is in the table and active, and as many times as it is stored |
| ApiBooksController.GetBooksInTableOrder | EbookAPI/EbookAPI/Controllers/BooksController.cs:23-29 | the listing keeps table order: listing a concatenation lists the first part's books, then the second's |
| ApiBooksController.GetBook | EbookAPI/EbookAPI/Controllers/BooksController.cs:32-44 | NotFound exactly when no row has the id, otherwise Ok with a row of that id (active or not) |
| ApiBooksController.GetBookFindsRow | EbookAPI/EbookAPI/Controllers/BooksController.cs:32-44 | with unique ids, the book found for a row's id is that row |
| ApiBooksController.GetBooksByCategory | EbookAPI/EbookAPI/Controllers/BooksController.cs:47-53 | a book is listed exactly when it is active and in the category |
| ApiBooksController.BookExists | EbookAPI/EbookAPI/Controllers/BooksController.cs:108-111 | true exactly when some row has the id |
| ApiBooksController.PostBook | EbookAPI/EbookAPI/Controllers/BooksController.cs:56-62 | Created exactly when the category exists: the book gets the next id, is appended, and reads back by `GetBook`; otherwise ServerError with nothing stored |
| ApiBooksController.PutBook | EbookAPI/EbookAPI/Controllers/BooksController.cs:65-91 | BadRequest exactly for an id mismatch; NotFound exactly for an unknown id; NoContent replaces the row; ServerError for a missing category; the identity counter is kept |
| ApiBooksController.DeleteBook | EbookAPI/EbookAPI/Controllers/BooksController.cs:94-106 | NotFound exactly when no row has the id; the row is deactivated, not removed; the identity counter is kept |
| ApiBooksController.SoftDeleteHides | EbookAPI/EbookAPI/Controllers/BooksController.cs:94-106 | after a soft delete the book is gone from both lists, `GetBook` still returns it inactive, and every other active book is still listed |
| ApiBooksController.SoftDeleteIdempotent | EbookAPI/EbookAPI/Controllers/BooksController.cs:102-103 | deleting twice is deleting once, and the row stays in the table |
| ApiFavoritesController.GetUserFavorites | EbookAPI/EbookAPI/Controllers/FavoritesController.cs:23-30 | a favorite is listed exactly when it belongs to the user, and as many times as it is stored |
| ApiFavoritesController.GetUserFavoritesInTableOrder | EbookAPI/EbookAPI/Controllers/FavoritesController.cs:23-30 | the listing keeps table order: listing a concatenation lists the first part's favorites, then the second's |
| ApiFavoritesController.FindFavorite | EbookAPI/EbookAPI/Controllers/FavoritesController.cs:36-37 | null exactly when no favorite has that (user, book) pair; otherwise one that has it |
| ApiFavoritesController.PostFavorite | EbookAPI/EbookAPI/Controllers/FavoritesController.cs:33-48 | Conflict exactly when the pair is already a favorite; Created exactly when it is new and user and book exist, appending it with the next id; otherwise ServerError; the table changes only on Created |
| ApiFavoritesController.DeleteFavorite | EbookAPI/EbookAPI/Controllers/FavoritesController.cs:51-63 | NotFound exactly when no favorite has the id; the row with that id is removed; the identity counter is kept |
| ApiFavoritesController.RemovingFoundRow | EbookAPI/EbookAPI/Controllers/FavoritesController.cs:66-80 | removing the found favorite by its id removes exactly the rows with that pair |
| ApiFavoritesController.RemoveFromFavorites | EbookAPI/EbookAPI/Controllers/FavoritesController.cs:66-80 | NotFound exactly when the pair is not a favorite; its row is removed |
| ApiFavoritesController.PostThenRemoveRestores | EbookAPI/EbookAPI/Controllers/FavoritesController.cs:44-47 | adding a new pair and then removing it restores the table |
| ApiFavoritesController.RepeatConflicts | EbookAPI/EbookAPI/Controllers/FavoritesController.cs:36-42 | once a pair is stored, posting it again is found as an existing favorite |
| ApiOrdersController.LinesOf | EbookAPI/EbookAPI/Controllers/OrdersController.cs:27 | the lines of an order are exactly those pointing at it |
| ApiOrdersController.GetOrders | EbookAPI/EbookAPI/Controllers/OrdersController.cs:23-30 | every order, in table order, with its lines filled in and nothing else changed |
| ApiOrdersController.GetOrder | EbookAPI/EbookAPI/Controllers/OrdersController.cs:33-47 | NotFound exactly when no order has the id; otherwise that order's row with exactly its lines |
| ApiOrdersController.GetOrderFindsRow | EbookAPI/EbookAPI/Controllers/OrdersController.cs:33-47 | with unique ids, the order found for a row's id is that row with its lines |
| ApiOrdersController.GetOrdersByUser | EbookAPI/EbookAPI/Controllers/OrdersController.cs:50-57 | every listed order is a row of the user's joined with its lines, and every such row is listed |
| ApiOrdersController.GetOrdersByUserInTableOrder | EbookAPI/EbookAPI/Controllers/OrdersController.cs:50-57 | the listing keeps table order: listing a concatenation lists the first part's orders, then the second's |
| ApiOrdersController.InsertedOrderReadsBack | EbookAPI/EbookAPI/Controllers/OrdersController.cs:60-66 | an order stored with its new lines reads back as that order with exactly those lines |
| ApiOrdersController.PostOrder | EbookAPI/EbookAPI/Controllers/OrdersController.cs:60-66 | Created exactly when the user and every line's book exist: the order and its numbered lines are stored and the order reads back by `GetOrder`; otherwise ServerError with nothing stored |
| ApiOrdersController.PutOrder | EbookAPI/EbookAPI/Controllers/OrdersController.cs:69-95 | BadRequest exactly for an id mismatch; NotFound exactly for an unknown id; NoContent overwrites only the order row, not its lines; ServerError for a missing user; the order counter is kept |
| ApiOrdersController.DeleteOrder | EbookAPI/EbookAPI/Controllers/OrdersController.cs:98-110 | NotFound exactly when no order has the id; the order and, by cascade, its lines are removed, so it reads back NotFound with no lines; both identity counters are kept |
| ApiOrdersController.DeletedOrderHasNoLines | EbookAPI/EbookAPI/Data/EBookDbContext.cs:59-62 | after the cascade no line points at the deleted order |
| Database.HasKey | EbookAPI/EbookAPI/Controllers/BooksController.cs:108-111 | the lookup is true exactly when some row has the key |
| Database.Covered | EbookAPI/EbookAPI/Data/EBookDbContext.cs:41-67 | the foreign-key check is true exactly when every child's key is a parent's key |
| Database.KeysWithout | EbookAPI/EbookAPI/Data/EBookDbContext.cs:59-62 | deleting the rows with a key removes exactly that key |
| Database.UniqueWhere | EbookAPI/EbookAPI/Data/EBookDbContext.cs:28-35 | deleting rows keeps a unique index unique |
| Database.UniqueConcat | EbookAPI/EbookAPI/Data/EBookDbContext.cs:28-35 | appending rows with new keys keeps an index unique |
| Database.IdentityAppend | EbookAPI/EbookAPI/Data/EBookDbContext.cs:14-19 | appending rows keyed from the counter on keeps an identity table one |
| Database.ReferencesWithout | EbookAPI/EbookAPI/Data/EBookDbContext.cs:59-62 | after a parent row and its children are deleted, the rest point only at remaining parents |
| Database.Deactivate | EbookAPI/EbookAPI/Controllers/BooksController.cs:102-103 | the book table with the row of that id inactive and every other row as it was |
| Database.Replace | EbookAPI/EbookAPI/Controllers/BooksController.cs:72-76 | a table (books on PUT api/books, orders on PUT api/orders) with the row of that key overwritten and every other row as it was |
| Database.NumberDetails | EbookAPI/EbookAPI/Controllers/OrdersController.cs:62-63 | the stored lines of a new order, numbered in order from the counter and pointing at the order |
| Database.NumberedLines | EbookAPI/EbookAPI/Data/EBookDbContext.cs:59-67 | the numbered lines form an identity table, point at the order and keep their books |
| Database.DetailsAfterInsert | EbookAPI/EbookAPI/Data/EBookDbContext.cs:59-67 | the new lines keep the line table pointing at existing orders and books |
| Database.ReplaceKeepsKeys | EbookAPI/EbookAPI/Data/EBookDbContext.cs:41-54 | overwriting an existing row keeps the key set and its uniqueness; the only foreign-key value it can bring in (a book's category, an order's user) is the new row's; every row is an old row or the new one |
| Database.DeactivateKeepsKeys | EbookAPI/EbookAPI/Controllers/BooksController.cs:102-103 | a soft delete keeps the key set and its uniqueness; every row is an old row, possibly deactivated |
| Database.OrderInserted | EbookAPI/EbookAPI/Data/EBookDbContext.cs:48-67 | inserting an order and its numbered lines keeps both tables consistent |
| Database.Context.constructor | EbookAPI/EbookAPI/Data/EBookDbContext.cs:14-19 | six empty tables with every identity counter at 1 |
| Database.Context.InsertUser | EbookAPI/EbookAPI/Data/EBookDbContext.cs:26-30 | stored exactly when the e-mail is new; the role defaults to "User"; otherwise nothing changes |
| Database.Context.InsertCategory | EbookAPI/EbookAPI/Data/EBookDbContext.cs:33-36 | stored exactly when the name is new; otherwise nothing changes |
| Database.Context.InsertBook | EbookAPI/EbookAPI/Data/EBookDbContext.cs:41-44 | stored with the next id exactly when its category exists |
| Database.Context.UpdateBook | EbookAPI/EbookAPI/Data/EBookDbContext.cs:41-44 | Missing exactly for an unknown id, Rejected exactly for a missing category, otherwise the row is overwritten |
| Database.Context.DeactivateBook | EbookAPI/EbookAPI/Controllers/BooksController.cs:96-104 | found exactly when the id exists; the row is deactivated |
| Database.Context.InsertFavorite | EbookAPI/EbookAPI/Data/EBookDbContext.cs:73-83 | stored exactly when user and book exist and the pair is new |
| Database.Context.RemoveFavorite | EbookAPI/EbookAPI/Controllers/FavoritesController.cs:53-61 | found exactly when the id exists; its row is removed |
| Database.Context.InsertOrder | EbookAPI/EbookAPI/Data/EBookDbContext.cs:48-67 | stored exactly when the user and every line's book exist; the order row holds no lines and the numbered lines go to the line table |
| Database.Context.UpdateOrder | EbookAPI/EbookAPI/Controllers/OrdersController.cs:76-80 | Missing exactly for an unknown id, Rejected exactly for a missing user, otherwise only the order row is overwritten |
| Database.Context.RemoveOrder | EbookAPI/EbookAPI/Data/EBookDbContext.cs:59-62 | the order and, by cascade, its lines are removed |
| Database.Context.RemoveCategory | EbookAPI/EbookAPI/Data/EBookDbContext.cs:41-44 | Restrict: refused exactly while a book is in the category |
| Database.Context.RemoveUser | EbookAPI/EbookAPI/Data/EBookDbContext.cs:50-78 | Restrict on orders: refused exactly while the user has an order; otherwise the user's favorites go by cascade |
| Database.Context.RemoveBook | EbookAPI/EbookAPI/Data/EBookDbContext.cs:64-83 | Restrict on order lines: refused exactly while a line names the book; otherwise the book's favorites go by cascade |

## Left out

- The API client (ApiService) and the cart service (CartService) are not part of this model.
  - Each call's reply is an input, as are the cart service's operations.
  - The cart's merge rules and total formulas are therefore not stated.
  - Only `ClearCart` is taken to empty the cart.
  - The session cart is taken to live in the session, so `Session.Clear` empties it.
- I/O and the transport are left out: HTTP, JSON, async/await and exception catch-alls. A caught exception is
  the `Threw` reply. An exception the controller does not catch is left out, for instance from the unguarded
  `GetCategoriesAsync` calls in AdminBooksController.
- `UploadImageAsync` and `DeleteImage` do file-system I/O, which is left out. `AdminBooksController.EditPost`
  reports which image would be deleted, and upload failures are not modelled.
- `DbUpdateConcurrencyException`: the model is sequential, so the rethrow branch of `PutBook` and `PutOrder`
  cannot happen.
  - A row that vanishes is the NotFound that `BookExists`/`OrderExists` would give.
  - A foreign-key or unique violation at `SaveChangesAsync` is a ServerError with nothing stored.
- Identity values sent by a client are ignored: the next counter value is always taken.
- `decimal` range and precision are not modelled; money is unbounded integer cents.
- String comparisons are approximations:
  - `StringComparison.OrdinalIgnoreCase` folds ASCII letters only;
  - `OrderBy(b => b.Title)` uses the culture-sensitive default comparer, modelled here as ordinal order.
- `Catalog.Sort`, `HomeController.Newest`, `AdminHomeController.RecentOrders`: LINQ's sort is stable, and so is
  the insertion sort modelled here, but the contracts do not state stability. They state sortedness, the
  permutation and the top-n property.
- View-only output is not modelled: page titles, ViewBag texts and `TempData["LastVisit"]`. The actions that only
  render a view are left out too: Cart Index, About, Contact GET and Login GET.
- Column details of the API entities that the controllers do not read are left out: the `Include` navigation
  objects and categories' `CreatedDate`.
- The seed data of `HasData` is left out.
- The admin category, user and order screens and the categories page do no modelling-relevant work (they pass
  calls straight to the API), so they are not part of this model.
- TempData texts stay as written in the source. A text built from a value (the order number, the viewed title) is
  a `Web.Message` case holding that value.
- Database.Context.UpdateOrder: `Entry(order).State = Modified` marks only the order row; the model stores the
  order without lines and leaves the line table unchanged.
