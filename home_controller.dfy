/** The home page's featured selections and the contact form. */
module HomeController {
  import opened Nullable
  import opened Domain
  import opened Sorting
  import opened Text
  import opened Catalog
  import opened Web

  /** The home page's view model; `failed` is the error shown when a call to the store threw. */
  datatype HomeView = HomeView(featuredCategories: seq<Category>, featuredBooks: seq<Book>, newBooks: seq<Book>, failed: bool)

  const FeaturedCategoryCount := 4
  const FeaturedBookCount := 8
  const NewBookCount := 4

  /**
   * `r` is the first `n` books of `books` by `CreatedDate` descending: as many
   * as fit, taken from `books`, newest first, and no book left out is newer
   * than a chosen one.
   */
  ghost predicate NewestOf(r: seq<Book>, books: seq<Book>, n: nat)
  {
    && |r| == (if n < |books| then n else |books|)
    && multiset(r) <= multiset(books)
    && (forall i, j :: 0 <= i < j < |r| ==> r[i].createdDate >= r[j].createdDate)
    && (forall b, x :: b in r && x in multiset(books) - multiset(r) ==> b.createdDate >= x.createdDate)
  }

  lemma TopIsNewest(r: seq<Book>, books: seq<Book>, n: nat)
    requires IsTop(r, books, Comparer(NewestFirst), n)
    ensures NewestOf(r, books, n)
  {
    forall i, j | 0 <= i < j < |r| ensures r[i].createdDate >= r[j].createdDate {
      assert Comparer(NewestFirst)(r[i], r[j]);
    }
    forall b, x | b in r && x in multiset(books) - multiset(r) ensures b.createdDate >= x.createdDate {
      assert Comparer(NewestFirst)(b, x);
    }
  }

  /** `OrderByDescending(b => b.CreatedDate).Take(n)`. */
  function Newest(books: seq<Book>, n: nat): (r: seq<Book>)
    ensures NewestOf(r, books, n)
    ensures r == OrderBy(books, Comparer(NewestFirst))[..|r|]
  {
    ComparerIsTotalPreorder(NewestFirst);
    var r := Top(books, Comparer(NewestFirst), n);
    TopIsNewest(r, books, n);
    r
  }

  /** GET Index, from the store's replies for the categories and the active books. */
  function Index(categoriesReply: Call<seq<Category>>, booksReply: Call<seq<Book>>): (v: HomeView)
    ensures v.failed <==> categoriesReply.Threw? || booksReply.Threw?
    ensures v.failed ==> v.featuredCategories == [] && v.featuredBooks == [] && v.newBooks == []
    ensures !v.failed ==>
      var categories := categoriesReply.value;
      && |v.featuredCategories| == (if |categories| < FeaturedCategoryCount then |categories| else FeaturedCategoryCount)
      && v.featuredCategories == categories[..|v.featuredCategories|]
      && NewestOf(v.featuredBooks, booksReply.value, FeaturedBookCount)
      && NewestOf(v.newBooks, booksReply.value, NewBookCount)
      && v.newBooks == v.featuredBooks[..|v.newBooks|]
  {
    if categoriesReply.Threw? || booksReply.Threw? then HomeView([], [], [], true)
    else
      var categories := categoriesReply.value;
      var featured := Newest(booksReply.value, FeaturedBookCount);
      var recent := Newest(booksReply.value, NewBookCount);
      HomeView(if |categories| < FeaturedCategoryCount then categories else categories[..FeaturedCategoryCount],
               featured, recent, false)
  }

  const ContactSentText := "Mesajýnýz baþarýyla gönderildi. En kýsa sürede geri döneceðiz."
  const ContactIncompleteText := "Lütfen tüm alanlarý doldurun."

  /** The contact form is complete when none of its three fields is null or empty. */
  predicate ContactComplete(name: Option<string>, email: Option<string>, message: Option<string>)
  {
    !IsNullOrEmpty(name) && !IsNullOrEmpty(email) && !IsNullOrEmpty(message)
  }

  /** POST Contact: one TempData message, success exactly for a complete form, then back to the form. */
  method Contact(session: Session, name: Option<string>, email: Option<string>, message: Option<string>) returns (r: Redirect)
    modifies session
    ensures r == Redirect("Contact", "Home")
    ensures session.cart == old(session.cart) && session.values == old(session.values)
    ensures ContactComplete(name, email, message) ==>
      session.tempData == old(session.tempData)[SuccessKey := Text(ContactSentText)]
    ensures !ContactComplete(name, email, message) ==>
      session.tempData == old(session.tempData)[ErrorKey := Text(ContactIncompleteText)]
  {
    if ContactComplete(name, email, message) {
      session.tempData := session.tempData[SuccessKey := Text(ContactSentText)];
    } else {
      session.tempData := session.tempData[ErrorKey := Text(ContactIncompleteText)];
    }
    r := Redirect("Contact", "Home");
  }
}
