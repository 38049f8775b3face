/**
 * The API's favorites endpoints. A (user, book) pair is a favorite at most
 * once: the controller answers 409 before the unique index would refuse it.
 */
module ApiFavoritesController {
  import opened Nullable
  import opened Linq
  import opened Domain
  import opened Http
  import opened Database

  function OfUser(userId: int): Favorite -> bool { (f: Favorite) => f.userId == userId }

  /** GET api/favorites/user/{userId}: the user's favorites, each as often as it is stored. */
  function GetUserFavorites(favorites: seq<Favorite>, userId: int): (r: seq<Favorite>)
    ensures forall f :: f in r <==> f in favorites && f.userId == userId
    ensures forall f :: multiset(r)[f] == if f.userId == userId then multiset(favorites)[f] else 0
    ensures |r| <= |favorites|
  {
    var r := Where(favorites, OfUser(userId));
    assert forall f :: multiset(r)[f] == if f.userId == userId then multiset(favorites)[f] else 0 by {
      forall f ensures multiset(r)[f] == if f.userId == userId then multiset(favorites)[f] else 0 {
        WhereMultiplicity(favorites, OfUser(userId), f);
      }
    }
    r
  }

  /** The user's favorites are listed in table order. */
  lemma GetUserFavoritesInTableOrder(a: seq<Favorite>, b: seq<Favorite>, userId: int)
    ensures GetUserFavorites(a + b, userId) == GetUserFavorites(a, userId) + GetUserFavorites(b, userId)
  {
    WhereAppend(a, b, OfUser(userId));
  }

  /** The `FirstOrDefaultAsync` lookup of a (user, book) pair. */
  function FindFavorite(favorites: seq<Favorite>, userId: int, bookId: int): (r: Option<Favorite>)
    ensures r.None? <==> (userId, bookId) !in Keys(favorites, FavoritePair)
    ensures r.Some? ==> r.value in favorites && r.value.userId == userId && r.value.bookId == bookId
  {
    FirstOrDefault(favorites, KeyIs(FavoritePair, (userId, bookId)))
  }

  /** POST api/favorites: 409 for a pair already there, else insert; a missing user or book makes the save throw. */
  method PostFavorite(db: Context, favorite: Favorite) returns (r: Response<Favorite>)
    requires db.Valid()
    modifies db
    ensures db.Valid()
    ensures r.Conflict? || r.Created? || r.ServerError?
    ensures r.Conflict? <==> FavoritePair(favorite) in Keys(old(db.favorites), FavoritePair)
    ensures r.Created? <==>
      && FavoritePair(favorite) !in Keys(old(db.favorites), FavoritePair)
      && favorite.userId in Keys(db.users, UserKey)
      && favorite.bookId in Keys(db.books, BookKey)
    ensures r.Created? ==>
      r.value == favorite.(id := old(db.nextFavoriteId)) && db.favorites == old(db.favorites) + [r.value]
    ensures !r.Created? ==> db.FavoritesUnchanged()
    ensures db.UsersUnchanged() && db.CategoriesUnchanged() && db.BooksUnchanged() && db.OrdersUnchanged() && db.DetailsUnchanged()
  {
    var existing := FindFavorite(db.favorites, favorite.userId, favorite.bookId);
    if existing.Some? {
      return Conflict;
    }
    var row := db.InsertFavorite(favorite);
    r := if row.Some? then Created(row.value) else ServerError;
  }

  /** DELETE api/favorites/{id}: remove by key, or 404. */
  method DeleteFavorite(db: Context, id: int) returns (r: Response<Favorite>)
    requires db.Valid()
    modifies db
    ensures db.Valid()
    ensures r.NotFound? || r.NoContent?
    ensures r.NotFound? <==> id !in Keys(old(db.favorites), FavoriteKey)
    ensures db.favorites == Where(old(db.favorites), KeyIsNot(FavoriteKey, id))
    ensures db.nextFavoriteId == old(db.nextFavoriteId)
    ensures db.UsersUnchanged() && db.CategoriesUnchanged() && db.BooksUnchanged() && db.OrdersUnchanged() && db.DetailsUnchanged()
  {
    var found := db.RemoveFavorite(id);
    r := if found then NoContent else NotFound;
  }

  /** Removing the row found for a pair removes exactly the rows of that pair. */
  lemma RemovingFoundRow(favorites: seq<Favorite>, userId: int, bookId: int)
    requires Unique(favorites, FavoriteKey) && Unique(favorites, FavoritePair)
    requires FindFavorite(favorites, userId, bookId).Some?
    ensures Where(favorites, KeyIsNot(FavoriteKey, FindFavorite(favorites, userId, bookId).value.id))
         == Where(favorites, KeyIsNot(FavoritePair, (userId, bookId)))
  {
    var f := FindFavorite(favorites, userId, bookId).value;
    forall g | g in favorites ensures (g.id != f.id <==> FavoritePair(g) != (userId, bookId)) {
      var i :| 0 <= i < |favorites| && favorites[i] == g;
      var j :| 0 <= j < |favorites| && favorites[j] == f;
      if i < j || j < i {
        assert g.id != f.id && FavoritePair(g) != FavoritePair(f);
      }
    }
    WhereAgree(favorites, KeyIsNot(FavoriteKey, f.id), KeyIsNot(FavoritePair, (userId, bookId)));
  }

  /** DELETE api/favorites/user/{userId}/book/{bookId}: remove the pair, or 404. */
  method RemoveFromFavorites(db: Context, userId: int, bookId: int) returns (r: Response<Favorite>)
    requires db.Valid()
    modifies db
    ensures db.Valid()
    ensures r.NotFound? || r.NoContent?
    ensures r.NotFound? <==> (userId, bookId) !in Keys(old(db.favorites), FavoritePair)
    ensures db.favorites == Where(old(db.favorites), KeyIsNot(FavoritePair, (userId, bookId)))
    ensures db.nextFavoriteId == old(db.nextFavoriteId)
    ensures db.UsersUnchanged() && db.CategoriesUnchanged() && db.BooksUnchanged() && db.OrdersUnchanged() && db.DetailsUnchanged()
  {
    var favorite := FindFavorite(db.favorites, userId, bookId);
    if favorite.None? {
      WhereAll(db.favorites, KeyIsNot(FavoritePair, (userId, bookId)));
      return NotFound;
    }
    RemovingFoundRow(db.favorites, userId, bookId);
    var _ := db.RemoveFavorite(favorite.value.id);
    r := NoContent;
  }

  /**
   * Adding a favorite and then removing its pair gives back the table as it
   * was: the (user, book) pair was not there before, so the pair filter drops
   * only the new row.
   */
  lemma {:induction false} PostThenRemoveRestores(favorites: seq<Favorite>, f: Favorite)
    requires FavoritePair(f) !in Keys(favorites, FavoritePair)
    ensures Where(favorites + [f], KeyIsNot(FavoritePair, FavoritePair(f))) == favorites
  {
    WhereAppend(favorites, [f], KeyIsNot(FavoritePair, FavoritePair(f)));
    WhereAll(favorites, KeyIsNot(FavoritePair, FavoritePair(f)));
  }

  /** Once a pair is a favorite, posting it again is a conflict. */
  lemma RepeatConflicts(favorites: seq<Favorite>, f: Favorite)
    ensures FindFavorite(favorites + [f], f.userId, f.bookId).Some?
  {
    assert f in favorites + [f];
  }
}
