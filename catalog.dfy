/**
 * The orders in which the front end lists books: the five cases of the
 * catalog's `sortBy` switch, one of which (newest first) the home page uses too.
 */
module Catalog {
  import opened Nullable
  import opened Domain
  import opened Sorting
  import opened Text

  datatype SortOrder = PriceAscending | PriceDescending | TitleAscending | TitleDescending | NewestFirst

  /** The `switch (sortBy)`: four exact keys, everything else (null included) newest first. */
  function SortOrderOf(sortBy: Option<string>): (o: SortOrder)
    ensures o == PriceAscending <==> sortBy == Some("price_asc")
    ensures o == PriceDescending <==> sortBy == Some("price_desc")
    ensures o == TitleAscending <==> sortBy == Some("name_asc")
    ensures o == TitleDescending <==> sortBy == Some("name_desc")
    ensures o == NewestFirst <==> sortBy !in {Some("price_asc"), Some("price_desc"), Some("name_asc"), Some("name_desc")}
  {
    match sortBy
    case Some("price_asc") => PriceAscending
    case Some("price_desc") => PriceDescending
    case Some("name_asc") => TitleAscending
    case Some("name_desc") => TitleDescending
    case _ => NewestFirst
  }

  /** Under order `o`, `a` may be listed before `b`. */
  predicate Precedes(o: SortOrder, a: Book, b: Book)
  {
    match o
    case PriceAscending => a.price <= b.price
    case PriceDescending => a.price >= b.price
    case TitleAscending => StrLe(a.title, b.title)
    case TitleDescending => StrLe(b.title, a.title)
    case NewestFirst => a.createdDate >= b.createdDate
  }

  function Comparer(o: SortOrder): (Book, Book) -> bool
  {
    (a, b) => Precedes(o, a, b)
  }

  lemma ComparerIsTotalPreorder(o: SortOrder)
    ensures TotalPreorder(Comparer(o))
  {
    forall a: Book, b: Book ensures Comparer(o)(a, b) || Comparer(o)(b, a) {
      StrLeTotal(a.title, b.title);
    }
    forall a: Book, b: Book, c: Book | Comparer(o)(a, b) && Comparer(o)(b, c) ensures Comparer(o)(a, c) {
      if o == TitleAscending {
        StrLeTransitive(a.title, b.title, c.title);
      } else if o == TitleDescending {
        StrLeTransitive(c.title, b.title, a.title);
      }
    }
  }

  /** `OrderBy`/`OrderByDescending` on the key `o` selects: a reordering of `books`, sorted under `o`. */
  function Sort(books: seq<Book>, o: SortOrder): (r: seq<Book>)
    ensures multiset(r) == multiset(books)
    ensures |r| == |books|
    ensures forall i, j :: 0 <= i < j < |r| ==> Precedes(o, r[i], r[j])
  {
    ComparerIsTotalPreorder(o);
    OrderBySorted(books, Comparer(o));
    OrderBy(books, Comparer(o))
  }
}
