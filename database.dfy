/**
 * The API's database context: six tables and the constraints its model
 * configuration declares (unique indexes, the role default, and what deleting
 * a referenced row does). Rows are kept in insertion order, which is also the
 * order of their identity keys; identity values are drawn from one counter per
 * table, starting at 1. A `SaveChangesAsync` that would break a constraint
 * fails as a whole and leaves every table as it was.
 */
module Database {
  import opened Nullable
  import opened Linq
  import opened Domain

  // Keys of the rows.
  function UserKey(u: User): int { u.id }
  function UserEmail(u: User): string { u.email }
  function CategoryKey(c: Category): int { c.id }
  function CategoryName(c: Category): string { c.name }
  function BookKey(b: Book): int { b.id }
  function BookCategory(b: Book): int { b.categoryId }
  function OrderKey(o: Order): int { o.id }
  function OrderUser(o: Order): int { o.userId }
  function DetailKey(d: OrderDetail): int { d.id }
  function DetailOrder(d: OrderDetail): int { d.orderId }
  function DetailBook(d: OrderDetail): int { d.bookId }
  function FavoriteKey(f: Favorite): int { f.id }
  function FavoriteUser(f: Favorite): int { f.userId }
  function FavoriteBook(f: Favorite): int { f.bookId }
  function FavoritePair(f: Favorite): (int, int) { (f.userId, f.bookId) }

  /** The rows whose `key` is `k`, or is not `k`. */
  function KeyIs<T, K(==)>(key: T -> K, k: K): T -> bool { x => key(x) == k }
  function KeyIsNot<T, K(==)>(key: T -> K, k: K): T -> bool { x => key(x) != k }

  /** No two rows agree on `key` (a primary key or a unique index). */
  ghost predicate Unique<T, K>(s: seq<T>, key: T -> K)
  {
    forall i, j :: 0 <= i < j < |s| ==> key(s[i]) != key(s[j])
  }

  /** The values of `key` in the table. */
  ghost function Keys<T, K>(s: seq<T>, key: T -> K): set<K>
  {
    set x | x in s :: key(x)
  }

  /** Whether some row has `key` value `k`: the lookup behind `FindAsync` and `Any`. */
  function HasKey<T, K(==)>(s: seq<T>, key: T -> K, k: K): (b: bool)
    ensures b <==> k in Keys(s, key)
  {
    if |s| == 0 then false
    else
      assert s == [s[0]] + s[1..];
      KeysAppend([s[0]], s[1..], key);
      key(s[0]) == k || HasKey(s[1..], key, k)
  }

  /** An identity-keyed table: unique keys, all issued before `next`. */
  ghost predicate Identity<T>(s: seq<T>, key: T -> int, next: int)
  {
    1 <= next && Unique(s, key) && forall x :: x in s ==> 1 <= key(x) < next
  }

  /** Every `fk` value of `child` is a key of the parent table. */
  ghost predicate References<T>(child: seq<T>, fk: T -> int, parentKeys: set<int>)
  {
    forall x :: x in child ==> fk(x) in parentKeys
  }

  lemma KeysAppend<T, K>(s: seq<T>, t: seq<T>, key: T -> K)
    ensures Keys(s + t, key) == Keys(s, key) + Keys(t, key)
  {
    forall v | v in Keys(s, key) + Keys(t, key) ensures v in Keys(s + t, key) {
      if v in Keys(s, key) {
        var x :| x in s && key(x) == v;
        assert x in s + t;
      } else {
        var x :| x in t && key(x) == v;
        assert x in s + t;
      }
    }
  }

  lemma KeysOne<T, K>(x: T, key: T -> K)
    ensures Keys([x], key) == {key(x)}
  {
    assert x in [x];
  }

  lemma IdentityWhere<T(!new)>(s: seq<T>, p: T -> bool, key: T -> int, next: int)
    requires Identity(s, key, next)
    ensures Identity(Where(s, p), key, next)
  {
    UniqueWhere(s, p, key);
  }

  lemma ReferencesWhere<T(!new)>(s: seq<T>, p: T -> bool, fk: T -> int, parentKeys: set<int>)
    requires References(s, fk, parentKeys)
    ensures References(Where(s, p), fk, parentKeys)
  {
  }

  /** After the parent row keyed `k` and every child pointing at it are deleted, the rest still point at parents. */
  lemma ReferencesWithout<T(!new)>(s: seq<T>, fk: T -> int, parentKeys: set<int>, k: int)
    requires References(s, fk, parentKeys)
    ensures References(Where(s, KeyIsNot(fk, k)), fk, parentKeys - {k})
  {
  }

  lemma UniqueConcat<T, K>(s: seq<T>, t: seq<T>, key: T -> K)
    requires Unique(s, key) && Unique(t, key) && Keys(s, key) !! Keys(t, key)
    ensures Unique(s + t, key)
  {
    var r := s + t;
    forall i, j | 0 <= i < j < |r| ensures key(r[i]) != key(r[j]) {
      if j < |s| {
        assert r[i] == s[i] && r[j] == s[j];
      } else if i >= |s| {
        assert r[i] == t[i - |s|] && r[j] == t[j - |s|];
      } else {
        assert r[i] == s[i] && r[j] == t[j - |s|];
        assert key(r[i]) in Keys(s, key);
        assert key(r[j]) in Keys(t, key);
      }
    }
  }

  /** Appending rows keyed from `next` on keeps an identity table one. */
  lemma IdentityAppend<T>(s: seq<T>, t: seq<T>, key: T -> int, next: int, next': int)
    requires Identity(s, key, next) && Identity(t, key, next')
    requires forall y :: y in t ==> next <= key(y)
    requires next <= next'
    ensures Identity(s + t, key, next')
  {
    UniqueConcat(s, t, key);
  }

  lemma {:induction false} UniqueWhere<T(!new), K>(s: seq<T>, p: T -> bool, key: T -> K)
    requires Unique(s, key)
    ensures Unique(Where(s, p), key)
  {
    if |s| > 0 {
      assert Unique(s[1..], key);
      UniqueWhere(s[1..], p, key);
      var rest := Where(s[1..], p);
      if p(s[0]) {
        assert Where(s, p) == [s[0]] + rest;
        forall x | x in rest ensures key(x) != key(s[0]) {
          var m :| 0 <= m < |s[1..]| && s[1..][m] == x;
          assert s[m + 1] == x;
        }
        KeysOne(s[0], key);
        UniqueConcat([s[0]], rest, key);
      }
    }
  }

  /** Deleting the rows keyed `k` removes exactly `k` from the keys. */
  lemma KeysWithout<T(!new)>(s: seq<T>, key: T -> int, k: int)
    ensures Keys(Where(s, KeyIsNot(key, k)), key) == Keys(s, key) - {k}
  {
    var r := Where(s, KeyIsNot(key, k));
    forall v | v in Keys(s, key) - {k} ensures v in Keys(r, key) {
      var x :| x in s && key(x) == v;
      assert x in r;
    }
  }

  /** The book table after the row keyed `id` is soft-deleted. */
  function Deactivate(books: seq<Book>, id: int): (r: seq<Book>)
    ensures |r| == |books|
    ensures forall i :: 0 <= i < |books| ==>
      r[i] == if books[i].id == id then books[i].(isActive := false) else books[i]
  {
    seq(|books|, i requires 0 <= i < |books| => if books[i].id == id then books[i].(isActive := false) else books[i])
  }

  /** The table with the row keyed `key(x)` overwritten by `x` (`Entry(x).State = Modified`). */
  function Replace<T>(s: seq<T>, x: T, key: T -> int): (r: seq<T>)
    ensures |r| == |s|
    ensures forall i :: 0 <= i < |s| ==> r[i] == if key(s[i]) == key(x) then x else s[i]
  {
    seq(|s|, i requires 0 <= i < |s| => if key(s[i]) == key(x) then x else s[i])
  }

  /** The lines of a new order as stored: numbered from `next` and pointing at `orderId`. */
  function NumberDetails(lines: seq<OrderDetail>, orderId: int, next: int): (r: seq<OrderDetail>)
    ensures |r| == |lines|
    ensures forall i :: 0 <= i < |lines| ==> r[i] == lines[i].(id := next + i, orderId := orderId)
  {
    seq(|lines|, i requires 0 <= i < |lines| => lines[i].(id := next + i, orderId := orderId))
  }

  /** Whether every `fk` value of `child` is a key of `parent`. */
  function Covered<T, U>(child: seq<T>, fk: T -> int, parent: seq<U>, key: U -> int): (b: bool)
    ensures b <==> Keys(child, fk) <= Keys(parent, key)
  {
    if |child| == 0 then true
    else
      assert child == [child[0]] + child[1..];
      KeysAppend([child[0]], child[1..], fk);
      HasKey(parent, key, fk(child[0])) && Covered(child[1..], fk, parent, key)
  }

  /**
   * Overwriting an existing row keeps the key set and its uniqueness; the only
   * foreign-key value it can bring in is the new row's.
   */
  lemma ReplaceKeepsKeys<T>(s: seq<T>, x: T, key: T -> int, fk: T -> int)
    requires key(x) in Keys(s, key)
    ensures Keys(Replace(s, x, key), key) == Keys(s, key)
    ensures Keys(Replace(s, x, key), fk) <= Keys(s, fk) + {fk(x)}
    ensures Unique(s, key) ==> Unique(Replace(s, x, key), key)
    ensures forall y :: y in Replace(s, x, key) ==> y in s || y == x
  {
    var r := Replace(s, x, key);
    forall k | k in Keys(s, key) ensures k in Keys(r, key) {
      var y :| y in s && key(y) == k;
      var i :| 0 <= i < |s| && s[i] == y;
      assert r[i] in r;
    }
    forall y | y in r ensures y in s || y == x {
      var i :| 0 <= i < |r| && r[i] == y;
      assert s[i] in s;
    }
  }

  lemma DeactivateKeepsKeys(books: seq<Book>, id: int)
    ensures Keys(Deactivate(books, id), BookKey) == Keys(books, BookKey)
    ensures Unique(books, BookKey) ==> Unique(Deactivate(books, id), BookKey)
    ensures forall x :: x in Deactivate(books, id) ==> exists y :: y in books && (x == y.(isActive := false) || x == y)
  {
    var r := Deactivate(books, id);
    forall k | k in Keys(books, BookKey) ensures k in Keys(r, BookKey) {
      var x :| x in books && x.id == k;
      var i :| 0 <= i < |books| && books[i] == x;
      assert r[i] in r;
    }
    forall x | x in r ensures exists y :: y in books && (x == y.(isActive := false) || x == y) {
      var i :| 0 <= i < |r| && r[i] == x;
      assert books[i] in books;
    }
  }

  lemma NumberedLines(lines: seq<OrderDetail>, orderId: int, next: int)
    requires 1 <= next
    ensures Identity(NumberDetails(lines, orderId, next), DetailKey, next + |lines|)
    ensures forall d :: d in NumberDetails(lines, orderId, next) ==> next <= d.id && d.orderId == orderId
    ensures Keys(NumberDetails(lines, orderId, next), DetailBook) == Keys(lines, DetailBook)
  {
    var r := NumberDetails(lines, orderId, next);
    forall k | k in Keys(r, DetailBook) ensures k in Keys(lines, DetailBook) {
      var x :| x in r && x.bookId == k;
      var i :| 0 <= i < |r| && r[i] == x;
      assert lines[i] in lines;
    }
    forall k | k in Keys(lines, DetailBook) ensures k in Keys(r, DetailBook) {
      var x :| x in lines && x.bookId == k;
      var i :| 0 <= i < |lines| && lines[i] == x;
      assert r[i] in r;
    }
  }

  /** The lines of a new order keep the line table pointing at existing orders and books. */
  lemma DetailsAfterInsert(details: seq<OrderDetail>, lines: seq<OrderDetail>, orderKeys: set<int>, orderId: int, bookKeys: set<int>)
    requires References(details, DetailOrder, orderKeys) && References(details, DetailBook, bookKeys)
    requires forall d :: d in lines ==> d.orderId == orderId
    requires Keys(lines, DetailBook) <= bookKeys
    ensures References(details + lines, DetailOrder, orderKeys + {orderId})
    ensures References(details + lines, DetailBook, bookKeys)
  {
    forall d | d in details + lines ensures d.bookId in bookKeys {
      if d in lines {
        assert d.bookId in Keys(lines, DetailBook);
      }
    }
  }

  /** Users: identity key, unique e-mail index. */
  ghost predicate UserTable(users: seq<User>, next: int)
  {
    Identity(users, UserKey, next) && Unique(users, UserEmail)
  }

  /** Categories: identity key, unique name index. */
  ghost predicate CategoryTable(categories: seq<Category>, next: int)
  {
    Identity(categories, CategoryKey, next) && Unique(categories, CategoryName)
  }

  /** Books: identity key, each in an existing category. */
  ghost predicate BookTable(books: seq<Book>, next: int, categoryKeys: set<int>)
  {
    Identity(books, BookKey, next) && References(books, BookCategory, categoryKeys)
  }

  /** Orders: identity key, each of an existing user; lines live in their own table. */
  ghost predicate OrderTable(orders: seq<Order>, next: int, userKeys: set<int>)
  {
    Identity(orders, OrderKey, next) && References(orders, OrderUser, userKeys)
    && forall o :: o in orders ==> o.orderDetails == []
  }

  /** Order lines: identity key, each of an existing order and an existing book. */
  ghost predicate DetailTable(details: seq<OrderDetail>, next: int, orderKeys: set<int>, bookKeys: set<int>)
  {
    Identity(details, DetailKey, next) && References(details, DetailOrder, orderKeys) && References(details, DetailBook, bookKeys)
  }

  /** Favorites: identity key, unique (user, book) index, each of an existing user and book. */
  ghost predicate FavoriteTable(favorites: seq<Favorite>, next: int, userKeys: set<int>, bookKeys: set<int>)
  {
    Identity(favorites, FavoriteKey, next) && Unique(favorites, FavoritePair)
    && References(favorites, FavoriteUser, userKeys) && References(favorites, FavoriteBook, bookKeys)
  }

  /** Inserting an order and its numbered lines keeps both tables consistent. */
  lemma OrderInserted(orders: seq<Order>, next: int, userKeys: set<int>,
                      details: seq<OrderDetail>, nextLine: int, bookKeys: set<int>,
                      o: Order)
    requires OrderTable(orders, next, userKeys)
    requires DetailTable(details, nextLine, Keys(orders, OrderKey), bookKeys)
    requires o.userId in userKeys && Keys(o.orderDetails, DetailBook) <= bookKeys
    ensures OrderTable(orders + [o.(id := next, orderDetails := [])], next + 1, userKeys)
    ensures DetailTable(details + NumberDetails(o.orderDetails, next, nextLine), nextLine + |o.orderDetails|,
                        Keys(orders + [o.(id := next, orderDetails := [])], OrderKey), bookKeys)
  {
    var row := o.(id := next, orderDetails := []);
    var lines := NumberDetails(o.orderDetails, next, nextLine);
    NumberedLines(o.orderDetails, next, nextLine);
    IdentityAppend(orders, [row], OrderKey, next, next + 1);
    IdentityAppend(details, lines, DetailKey, nextLine, nextLine + |lines|);
    KeysAppend(orders, [row], OrderKey);
    KeysOne(row, OrderKey);
    DetailsAfterInsert(details, lines, Keys(orders, OrderKey), next, bookKeys);
  }

  /** Outcome of an update or a delete. */
  datatype Outcome =
    | Done
    | Missing   // no row has the key: the update or delete touches nothing
    | Rejected  // a constraint refuses it

  class Context {
    var users: seq<User>
    var categories: seq<Category>
    var books: seq<Book>
    var orders: seq<Order>
    var orderDetails: seq<OrderDetail>
    var favorites: seq<Favorite>
    var nextUserId: int
    var nextCategoryId: int
    var nextBookId: int
    var nextOrderId: int
    var nextOrderDetailId: int
    var nextFavoriteId: int

    /** The constraints of the model configuration hold of the tables. */
    ghost predicate Valid()
      reads this
    {
      && UserTable(users, nextUserId)
      && CategoryTable(categories, nextCategoryId)
      && BookTable(books, nextBookId, Keys(categories, CategoryKey))
      && OrderTable(orders, nextOrderId, Keys(users, UserKey))
      && DetailTable(orderDetails, nextOrderDetailId, Keys(orders, OrderKey), Keys(books, BookKey))
      && FavoriteTable(favorites, nextFavoriteId, Keys(users, UserKey), Keys(books, BookKey))
    }

    twostate predicate UsersUnchanged() reads this { users == old(users) && nextUserId == old(nextUserId) }
    twostate predicate CategoriesUnchanged() reads this { categories == old(categories) && nextCategoryId == old(nextCategoryId) }
    twostate predicate BooksUnchanged() reads this { books == old(books) && nextBookId == old(nextBookId) }
    twostate predicate OrdersUnchanged() reads this { orders == old(orders) && nextOrderId == old(nextOrderId) }
    twostate predicate DetailsUnchanged() reads this { orderDetails == old(orderDetails) && nextOrderDetailId == old(nextOrderDetailId) }
    twostate predicate FavoritesUnchanged() reads this { favorites == old(favorites) && nextFavoriteId == old(nextFavoriteId) }

    constructor ()
      ensures Valid()
      ensures users == [] && categories == [] && books == [] && orders == [] && orderDetails == [] && favorites == []
      ensures nextUserId == 1 && nextCategoryId == 1 && nextBookId == 1
      ensures nextOrderId == 1 && nextOrderDetailId == 1 && nextFavoriteId == 1
    {
      users, categories, books, orders, orderDetails, favorites := [], [], [], [], [], [];
      nextUserId, nextCategoryId, nextBookId, nextOrderId, nextOrderDetailId, nextFavoriteId := 1, 1, 1, 1, 1, 1;
    }

    /** Insert a user; a null role takes the database default. The unique e-mail index refuses a second use. */
    method InsertUser(firstName: string, lastName: string, email: string, password: string, role: Option<string>)
      returns (r: Option<User>)
      requires Valid()
      modifies this
      ensures Valid()
      ensures r.Some? <==> email !in Keys(old(users), UserEmail)
      ensures r.Some? ==> r.value == User(old(nextUserId), firstName, lastName, email, password, role.GetOr(DefaultRole))
      ensures r.Some? ==> users == old(users) + [r.value] && nextUserId == old(nextUserId) + 1
      ensures r.None? ==> UsersUnchanged()
      ensures CategoriesUnchanged() && BooksUnchanged() && OrdersUnchanged() && DetailsUnchanged() && FavoritesUnchanged()
    {
      if HasKey(users, UserEmail, email) {
        r := None;
      } else {
        var u := User(nextUserId, firstName, lastName, email, password, role.GetOr(DefaultRole));
        KeysOne(u, UserEmail);
        UniqueConcat(users, [u], UserEmail);
        IdentityAppend(users, [u], UserKey, nextUserId, nextUserId + 1);
        KeysAppend(users, [u], UserKey);
        users := users + [u];
        nextUserId := nextUserId + 1;
        r := Some(u);
      }
    }

    /** Insert a category; the unique name index refuses a second use. */
    method InsertCategory(name: string, description: string) returns (r: Option<Category>)
      requires Valid()
      modifies this
      ensures Valid()
      ensures r.Some? <==> name !in Keys(old(categories), CategoryName)
      ensures r.Some? ==> r.value == Category(old(nextCategoryId), name, description)
      ensures r.Some? ==> categories == old(categories) + [r.value] && nextCategoryId == old(nextCategoryId) + 1
      ensures r.None? ==> CategoriesUnchanged()
      ensures UsersUnchanged() && BooksUnchanged() && OrdersUnchanged() && DetailsUnchanged() && FavoritesUnchanged()
    {
      if HasKey(categories, CategoryName, name) {
        r := None;
      } else {
        var c := Category(nextCategoryId, name, description);
        KeysOne(c, CategoryName);
        UniqueConcat(categories, [c], CategoryName);
        IdentityAppend(categories, [c], CategoryKey, nextCategoryId, nextCategoryId + 1);
        KeysAppend(categories, [c], CategoryKey);
        categories := categories + [c];
        nextCategoryId := nextCategoryId + 1;
        r := Some(c);
      }
    }

    /** Insert a book under a fresh key; its category must exist. */
    method InsertBook(b: Book) returns (r: Option<Book>)
      requires Valid()
      modifies this
      ensures Valid()
      ensures r.Some? <==> b.categoryId in Keys(old(categories), CategoryKey)
      ensures r.Some? ==> r.value == b.(id := old(nextBookId)) && books == old(books) + [r.value]
      ensures r.Some? ==> nextBookId == old(nextBookId) + 1
      ensures r.None? ==> BooksUnchanged()
      ensures UsersUnchanged() && CategoriesUnchanged() && OrdersUnchanged() && DetailsUnchanged() && FavoritesUnchanged()
    {
      if HasKey(categories, CategoryKey, b.categoryId) {
        var row := b.(id := nextBookId);
        IdentityAppend(books, [row], BookKey, nextBookId, nextBookId + 1);
        KeysAppend(books, [row], BookKey);
        books := books + [row];
        nextBookId := nextBookId + 1;
        r := Some(row);
      } else {
        r := None;
      }
    }

    /** Overwrite the book row keyed `b.id`; its category must exist. */
    method UpdateBook(b: Book) returns (r: Outcome)
      requires Valid()
      modifies this
      ensures Valid()
      ensures r == Missing <==> b.id !in Keys(old(books), BookKey)
      ensures r == Rejected <==> b.id in Keys(old(books), BookKey) && b.categoryId !in Keys(categories, CategoryKey)
      ensures r == Done ==> books == Replace(old(books), b, BookKey) && nextBookId == old(nextBookId)
      ensures r != Done ==> BooksUnchanged()
      ensures UsersUnchanged() && CategoriesUnchanged() && OrdersUnchanged() && DetailsUnchanged() && FavoritesUnchanged()
    {
      if !HasKey(books, BookKey, b.id) {
        r := Missing;
      } else if !HasKey(categories, CategoryKey, b.categoryId) {
        r := Rejected;
      } else {
        var nb := Replace(books, b, BookKey);
        ReplaceKeepsKeys(books, b, BookKey, BookCategory);
        books := nb;
        r := Done;
      }
    }

    /** Mark the book keyed `id` inactive; false when there is no such row. */
    method DeactivateBook(id: int) returns (found: bool)
      requires Valid()
      modifies this
      ensures Valid()
      ensures found <==> id in Keys(old(books), BookKey)
      ensures books == Deactivate(old(books), id) && nextBookId == old(nextBookId)
      ensures UsersUnchanged() && CategoriesUnchanged() && OrdersUnchanged() && DetailsUnchanged() && FavoritesUnchanged()
    {
      found := HasKey(books, BookKey, id);
      DeactivateKeepsKeys(books, id);
      books := Deactivate(books, id);
    }

    /** Append a favorite whose user and book exist and whose pair is new. */
    method AppendFavorite(f: Favorite) returns (row: Favorite)
      requires Valid()
      requires f.userId in Keys(users, UserKey) && f.bookId in Keys(books, BookKey)
      requires FavoritePair(f) !in Keys(favorites, FavoritePair)
      modifies this
      ensures Valid()
      ensures row == f.(id := old(nextFavoriteId)) && favorites == old(favorites) + [row]
      ensures nextFavoriteId == old(nextFavoriteId) + 1
      ensures UsersUnchanged() && CategoriesUnchanged() && BooksUnchanged() && OrdersUnchanged() && DetailsUnchanged()
    {
      row := f.(id := nextFavoriteId);
      KeysOne(row, FavoritePair);
      UniqueConcat(favorites, [row], FavoritePair);
      IdentityAppend(favorites, [row], FavoriteKey, nextFavoriteId, nextFavoriteId + 1);
      favorites, nextFavoriteId := favorites + [row], nextFavoriteId + 1;
    }

    /** Insert a favorite; its user and book must exist and the (user, book) index refuses a repeat. */
    method InsertFavorite(f: Favorite) returns (r: Option<Favorite>)
      requires Valid()
      modifies this
      ensures Valid()
      ensures r.Some? <==>
        && f.userId in Keys(old(users), UserKey)
        && f.bookId in Keys(old(books), BookKey)
        && FavoritePair(f) !in Keys(old(favorites), FavoritePair)
      ensures r.Some? ==> r.value == f.(id := old(nextFavoriteId)) && favorites == old(favorites) + [r.value]
      ensures r.Some? ==> nextFavoriteId == old(nextFavoriteId) + 1
      ensures r.None? ==> FavoritesUnchanged()
      ensures UsersUnchanged() && CategoriesUnchanged() && BooksUnchanged() && OrdersUnchanged() && DetailsUnchanged()
    {
      if HasKey(users, UserKey, f.userId) && HasKey(books, BookKey, f.bookId) && !HasKey(favorites, FavoritePair, FavoritePair(f)) {
        var row := AppendFavorite(f);
        r := Some(row);
      } else {
        r := None;
      }
    }

    /** Delete the favorite keyed `id`; false when there is no such row. */
    method RemoveFavorite(id: int) returns (found: bool)
      requires Valid()
      modifies this
      ensures Valid()
      ensures found <==> id in Keys(old(favorites), FavoriteKey)
      ensures favorites == Where(old(favorites), KeyIsNot(FavoriteKey, id)) && nextFavoriteId == old(nextFavoriteId)
      ensures UsersUnchanged() && CategoriesUnchanged() && BooksUnchanged() && OrdersUnchanged() && DetailsUnchanged()
    {
      found := HasKey(favorites, FavoriteKey, id);
      IdentityWhere(favorites, KeyIsNot(FavoriteKey, id), FavoriteKey, nextFavoriteId);
      UniqueWhere(favorites, KeyIsNot(FavoriteKey, id), FavoritePair);
      ReferencesWhere(favorites, KeyIsNot(FavoriteKey, id), FavoriteUser, Keys(users, UserKey));
      ReferencesWhere(favorites, KeyIsNot(FavoriteKey, id), FavoriteBook, Keys(books, BookKey));
      favorites := Where(favorites, KeyIsNot(FavoriteKey, id));
    }

    /** Append an order whose user and books exist, with its lines numbered from the next line key. */
    method AppendOrder(o: Order) returns (created: Order)
      requires Valid()
      requires o.userId in Keys(users, UserKey) && Keys(o.orderDetails, DetailBook) <= Keys(books, BookKey)
      modifies this
      ensures Valid()
      ensures created == o.(id := old(nextOrderId), orderDetails := NumberDetails(o.orderDetails, old(nextOrderId), old(nextOrderDetailId)))
      ensures orders == old(orders) + [created.(orderDetails := [])] && nextOrderId == old(nextOrderId) + 1
      ensures orderDetails == old(orderDetails) + created.orderDetails && nextOrderDetailId == old(nextOrderDetailId) + |o.orderDetails|
      ensures UsersUnchanged() && CategoriesUnchanged() && BooksUnchanged() && FavoritesUnchanged()
    {
      var id := nextOrderId;
      var lines := NumberDetails(o.orderDetails, id, nextOrderDetailId);
      OrderInserted(orders, nextOrderId, Keys(users, UserKey), orderDetails, nextOrderDetailId, Keys(books, BookKey), o);
      orders, nextOrderId := orders + [o.(id := id, orderDetails := [])], nextOrderId + 1;
      orderDetails, nextOrderDetailId := orderDetails + lines, nextOrderDetailId + |lines|;
      created := o.(id := id, orderDetails := lines);
    }

    /**
     * Insert an order with its lines: the order and each line get fresh keys
     * and the lines point at the new order. Its user and every line's book
     * must exist.
     */
    method InsertOrder(o: Order) returns (r: Option<Order>)
      requires Valid()
      modifies this
      ensures Valid()
      ensures r.Some? <==>
        o.userId in Keys(old(users), UserKey) && Keys(o.orderDetails, DetailBook) <= Keys(old(books), BookKey)
      ensures r.Some? ==>
        && r.value == o.(id := old(nextOrderId), orderDetails := NumberDetails(o.orderDetails, old(nextOrderId), old(nextOrderDetailId)))
        && orders == old(orders) + [r.value.(orderDetails := [])]
        && orderDetails == old(orderDetails) + r.value.orderDetails
        && nextOrderId == old(nextOrderId) + 1
        && nextOrderDetailId == old(nextOrderDetailId) + |o.orderDetails|
      ensures r.None? ==> OrdersUnchanged() && DetailsUnchanged()
      ensures UsersUnchanged() && CategoriesUnchanged() && BooksUnchanged() && FavoritesUnchanged()
    {
      if HasKey(users, UserKey, o.userId) && Covered(o.orderDetails, DetailBook, books, BookKey) {
        var created := AppendOrder(o);
        r := Some(created);
      } else {
        r := None;
      }
    }

    /** Overwrite the order row keyed `o.id` (its lines are not part of the update); its user must exist. */
    method UpdateOrder(o: Order) returns (r: Outcome)
      requires Valid()
      modifies this
      ensures Valid()
      ensures r == Missing <==> o.id !in Keys(old(orders), OrderKey)
      ensures r == Rejected <==> o.id in Keys(old(orders), OrderKey) && o.userId !in Keys(users, UserKey)
      ensures r == Done ==> orders == Replace(old(orders), o.(orderDetails := []), OrderKey) && nextOrderId == old(nextOrderId)
      ensures r != Done ==> OrdersUnchanged()
      ensures UsersUnchanged() && CategoriesUnchanged() && BooksUnchanged() && DetailsUnchanged() && FavoritesUnchanged()
    {
      if !HasKey(orders, OrderKey, o.id) {
        r := Missing;
      } else if !HasKey(users, UserKey, o.userId) {
        r := Rejected;
      } else {
        ReplaceKeepsKeys(orders, o.(orderDetails := []), OrderKey, OrderUser);
        orders := Replace(orders, o.(orderDetails := []), OrderKey);
        r := Done;
      }
    }

    /** Delete the order keyed `id`; its lines go with it (cascade). */
    method RemoveOrder(id: int) returns (found: bool)
      requires Valid()
      modifies this
      ensures Valid()
      ensures found <==> id in Keys(old(orders), OrderKey)
      ensures orders == Where(old(orders), KeyIsNot(OrderKey, id)) && nextOrderId == old(nextOrderId)
      ensures orderDetails == Where(old(orderDetails), KeyIsNot(DetailOrder, id)) && nextOrderDetailId == old(nextOrderDetailId)
      ensures UsersUnchanged() && CategoriesUnchanged() && BooksUnchanged() && FavoritesUnchanged()
    {
      found := HasKey(orders, OrderKey, id);
      IdentityWhere(orders, KeyIsNot(OrderKey, id), OrderKey, nextOrderId);
      ReferencesWhere(orders, KeyIsNot(OrderKey, id), OrderUser, Keys(users, UserKey));
      IdentityWhere(orderDetails, KeyIsNot(DetailOrder, id), DetailKey, nextOrderDetailId);
      KeysWithout(orders, OrderKey, id);
      ReferencesWithout(orderDetails, DetailOrder, Keys(orders, OrderKey), id);
      ReferencesWhere(orderDetails, KeyIsNot(DetailOrder, id), DetailBook, Keys(books, BookKey));
      orders, orderDetails := Where(orders, KeyIsNot(OrderKey, id)), Where(orderDetails, KeyIsNot(DetailOrder, id));
    }

    /** Delete the category keyed `id`; refused while any book, active or not, is in it (Restrict). */
    method RemoveCategory(id: int) returns (r: Outcome)
      requires Valid()
      modifies this
      ensures Valid()
      ensures r == Missing <==> id !in Keys(old(categories), CategoryKey)
      ensures r == Rejected <==> id in Keys(old(categories), CategoryKey) && id in Keys(books, BookCategory)
      ensures r == Done ==> categories == Where(old(categories), KeyIsNot(CategoryKey, id)) && nextCategoryId == old(nextCategoryId)
      ensures r != Done ==> CategoriesUnchanged()
      ensures UsersUnchanged() && BooksUnchanged() && OrdersUnchanged() && DetailsUnchanged() && FavoritesUnchanged()
    {
      if !HasKey(categories, CategoryKey, id) {
        r := Missing;
      } else if HasKey(books, BookCategory, id) {
        r := Rejected;
      } else {
        IdentityWhere(categories, KeyIsNot(CategoryKey, id), CategoryKey, nextCategoryId);
        UniqueWhere(categories, KeyIsNot(CategoryKey, id), CategoryName);
        KeysWithout(categories, CategoryKey, id);
        assert References(books, BookCategory, Keys(categories, CategoryKey) - {id});
        categories := Where(categories, KeyIsNot(CategoryKey, id));
        r := Done;
      }
    }

    /** Delete a user no order refers to, and their favorites. */
    method DeleteUserRow(id: int)
      requires Valid()
      requires id !in Keys(orders, OrderUser)
      modifies this
      ensures Valid()
      ensures users == Where(old(users), KeyIsNot(UserKey, id)) && nextUserId == old(nextUserId)
      ensures favorites == Where(old(favorites), KeyIsNot(FavoriteUser, id)) && nextFavoriteId == old(nextFavoriteId)
      ensures CategoriesUnchanged() && BooksUnchanged() && OrdersUnchanged() && DetailsUnchanged()
    {
      IdentityWhere(users, KeyIsNot(UserKey, id), UserKey, nextUserId);
      UniqueWhere(users, KeyIsNot(UserKey, id), UserEmail);
      IdentityWhere(favorites, KeyIsNot(FavoriteUser, id), FavoriteKey, nextFavoriteId);
      UniqueWhere(favorites, KeyIsNot(FavoriteUser, id), FavoritePair);
      KeysWithout(users, UserKey, id);
      assert References(orders, OrderUser, Keys(users, UserKey) - {id});
      ReferencesWithout(favorites, FavoriteUser, Keys(users, UserKey), id);
      ReferencesWhere(favorites, KeyIsNot(FavoriteUser, id), FavoriteBook, Keys(books, BookKey));
      users, favorites := Where(users, KeyIsNot(UserKey, id)), Where(favorites, KeyIsNot(FavoriteUser, id));
    }

    /** Delete the user keyed `id`; refused while an order is theirs (Restrict); their favorites go with them (cascade). */
    method RemoveUser(id: int) returns (r: Outcome)
      requires Valid()
      modifies this
      ensures Valid()
      ensures r == Missing <==> id !in Keys(old(users), UserKey)
      ensures r == Rejected <==> id in Keys(old(users), UserKey) && id in Keys(orders, OrderUser)
      ensures r == Done ==>
        && users == Where(old(users), KeyIsNot(UserKey, id)) && nextUserId == old(nextUserId)
        && favorites == Where(old(favorites), KeyIsNot(FavoriteUser, id)) && nextFavoriteId == old(nextFavoriteId)
      ensures r != Done ==> UsersUnchanged() && FavoritesUnchanged()
      ensures CategoriesUnchanged() && BooksUnchanged() && OrdersUnchanged() && DetailsUnchanged()
    {
      if !HasKey(users, UserKey, id) {
        r := Missing;
      } else if HasKey(orders, OrderUser, id) {
        r := Rejected;
      } else {
        DeleteUserRow(id);
        r := Done;
      }
    }

    /** Delete a book no order line refers to, and its favorites. */
    method DeleteBookRow(id: int)
      requires Valid()
      requires id !in Keys(orderDetails, DetailBook)
      modifies this
      ensures Valid()
      ensures books == Where(old(books), KeyIsNot(BookKey, id)) && nextBookId == old(nextBookId)
      ensures favorites == Where(old(favorites), KeyIsNot(FavoriteBook, id)) && nextFavoriteId == old(nextFavoriteId)
      ensures UsersUnchanged() && CategoriesUnchanged() && OrdersUnchanged() && DetailsUnchanged()
    {
      IdentityWhere(books, KeyIsNot(BookKey, id), BookKey, nextBookId);
      ReferencesWhere(books, KeyIsNot(BookKey, id), BookCategory, Keys(categories, CategoryKey));
      IdentityWhere(favorites, KeyIsNot(FavoriteBook, id), FavoriteKey, nextFavoriteId);
      UniqueWhere(favorites, KeyIsNot(FavoriteBook, id), FavoritePair);
      KeysWithout(books, BookKey, id);
      assert References(orderDetails, DetailBook, Keys(books, BookKey) - {id});
      ReferencesWithout(favorites, FavoriteBook, Keys(books, BookKey), id);
      ReferencesWhere(favorites, KeyIsNot(FavoriteBook, id), FavoriteUser, Keys(users, UserKey));
      books, favorites := Where(books, KeyIsNot(BookKey, id)), Where(favorites, KeyIsNot(FavoriteBook, id));
    }

    /**
     * Delete the book row keyed `id` outright; refused while an order line
     * names it (Restrict); its favorites go with it (cascade).
     */
    method RemoveBook(id: int) returns (r: Outcome)
      requires Valid()
      modifies this
      ensures Valid()
      ensures r == Missing <==> id !in Keys(old(books), BookKey)
      ensures r == Rejected <==> id in Keys(old(books), BookKey) && id in Keys(orderDetails, DetailBook)
      ensures r == Done ==>
        && books == Where(old(books), KeyIsNot(BookKey, id)) && nextBookId == old(nextBookId)
        && favorites == Where(old(favorites), KeyIsNot(FavoriteBook, id)) && nextFavoriteId == old(nextFavoriteId)
      ensures r != Done ==> BooksUnchanged() && FavoritesUnchanged()
      ensures UsersUnchanged() && CategoriesUnchanged() && OrdersUnchanged() && DetailsUnchanged()
    {
      if !HasKey(books, BookKey, id) {
        r := Missing;
      } else if HasKey(orderDetails, DetailBook, id) {
        r := Rejected;
      } else {
        DeleteBookRow(id);
        r := Done;
      }
    }
  }
}
