/**
 * The admin book screens: the list, the create and edit forms and their
 * submissions, and delete. Every action runs the admin guard before it
 * calls the store; the book records it sends are built from the form.
 */
module AdminBooksController {
  import opened Nullable
  import opened Domain
  import opened Text
  import opened Web
  import opened AdminBaseController

  /** An uploaded file: its client-side name and its length in bytes. */
  datatype Upload = Upload(fileName: string, length: int)

  /** The create form (`BookCreateViewModel`). */
  datatype CreateForm = CreateForm(
    title: string, author: string, description: string, price: Money, categoryId: int, stock: int,
    imageFile: Option<Upload>)

  /** The edit form (`BookEditViewModel`). */
  datatype EditForm = EditForm(
    id: int, title: string, author: string, description: string, price: Money, categoryId: int, stock: int,
    currentImageUrl: Option<string>, imageFile: Option<Upload>)

  const ImageFolder := "/images/books/"
  const DefaultImageUrl := "/images/books/default.jpg"
  const DefaultImageName := "default.jpg"

  /** A file was sent and it is not empty. */
  predicate HasFile(f: Option<Upload>)
  {
    f.Some? && f.value.length > 0
  }

  /** The URL `UploadImageAsync` returns for a file stored under the fresh name `guid + "_" + fileName`. */
  function UploadUrl(guid: string, fileName: string): (u: string)
    ensures StartsWith(u, ImageFolder)
    ensures |u| >= |fileName| && u[|u| - |fileName|..] == fileName
  {
    var u := ImageFolder + guid + "_" + fileName;
    assert u[..|ImageFolder|] == ImageFolder;
    assert u[|u| - |fileName|..] == fileName;
    u
  }

  /** The image of a new book: the uploaded file's URL, else the default image. */
  function CreatedImageUrl(imageFile: Option<Upload>, guid: string): (u: string)
    ensures !HasFile(imageFile) ==> u == DefaultImageUrl
    ensures HasFile(imageFile) ==> StartsWith(u, ImageFolder) && u == UploadUrl(guid, imageFile.value.fileName)
  {
    if HasFile(imageFile) then UploadUrl(guid, imageFile.value.fileName) else DefaultImageUrl
  }

  /** The record Create POST sends: the form's fields, active, created now. */
  function CreatedBook(form: CreateForm, guid: string, now: Timestamp): (b: Book)
    ensures b.isActive && b.createdDate == now
    ensures b.title == form.title && b.author == form.author && b.description == form.description
    ensures b.price == form.price && b.categoryId == form.categoryId && b.stock == form.stock
    ensures b.imageUrl == Some(CreatedImageUrl(form.imageFile, guid))
    ensures !HasFile(form.imageFile) ==> b.imageUrl == Some(DefaultImageUrl)
  {
    Book(0, form.title, form.author, form.description, form.price, form.categoryId, form.stock,
         Some(CreatedImageUrl(form.imageFile, guid)), true, now)
  }

  /** Whether Edit POST deletes the old image file: only when it is replaced and is not the default image. */
  predicate ShouldDeleteOldImage(form: EditForm)
  {
    && HasFile(form.imageFile)
    && !IsNullOrEmpty(form.currentImageUrl)
    && !Contains(form.currentImageUrl.value, DefaultImageName)
  }

  /** The default image is never deleted. */
  lemma DefaultImageKept(form: EditForm)
    requires form.currentImageUrl == Some(DefaultImageUrl)
    ensures !ShouldDeleteOldImage(form)
  {
    assert OccursAt(DefaultImageUrl, DefaultImageName, |ImageFolder|);
    ContainsIffOccurs(DefaultImageUrl, DefaultImageName);
  }

  /** The record Edit POST sends: the form's fields, the stored book's activity and creation date. */
  function EditedBook(form: EditForm, existing: Book, guid: string): (b: Book)
    ensures b.id == form.id && b.title == form.title && b.author == form.author && b.description == form.description
    ensures b.price == form.price && b.categoryId == form.categoryId && b.stock == form.stock
    ensures b.isActive == existing.isActive && b.createdDate == existing.createdDate
    ensures !HasFile(form.imageFile) ==> b.imageUrl == form.currentImageUrl
    ensures HasFile(form.imageFile) ==> b.imageUrl == Some(UploadUrl(guid, form.imageFile.value.fileName))
  {
    var imageUrl := if HasFile(form.imageFile) then Some(UploadUrl(guid, form.imageFile.value.fileName)) else form.currentImageUrl;
    Book(form.id, form.title, form.author, form.description, form.price, form.categoryId, form.stock,
         imageUrl, existing.isActive, existing.createdDate)
  }

  /** The form Edit GET fills from a stored book; submitting it unchanged writes the same book back. */
  function EditFormOf(book: Book): (f: EditForm)
    ensures f.id == book.id && f.currentImageUrl == book.imageUrl && !HasFile(f.imageFile)
    ensures forall guid :: EditedBook(f, book, guid) == book
  {
    EditForm(book.id, book.title, book.author, book.description, book.price, book.categoryId, book.stock,
             book.imageUrl, None)
  }

  /** What an admin book action renders. */
  datatype AdminResult =
    | Denied(to: Redirect)
    | BookList(books: seq<Book>, failed: bool)
    | CreatePage(createForm: Option<CreateForm>, categories: seq<Category>)
    | EditPage(editForm: EditForm, categories: seq<Category>)
    | Redirected(to: Redirect)
    | NotFoundResult

  const ToIndex := Redirect("Index", "AdminBooks")

  const CreatedText := "Kitap başarıyla eklendi."
  const CreateFailedText := "Kitap eklenirken bir hata oluştu."
  const CreateErrorText := "Kitap ekleme işlemi sırasında bir hata oluştu."
  const LoadFailedText := "Kitap bilgileri yüklenirken bir hata oluştu."
  const UpdatedText := "Kitap başarıyla güncellendi."
  const UpdateFailedText := "Kitap güncellenirken bir hata oluştu."
  const UpdateErrorText := "Kitap güncelleme işlemi sırasında bir hata oluştu."
  const DeletedText := "Kitap başarıyla silindi."
  const DeleteFailedText := "Kitap silinirken bir hata oluştu."
  const DeleteErrorText := "Kitap silme işlemi sırasında bir hata oluştu."

  /** GET Index. */
  method Index(session: Session, booksReply: Call<seq<Book>>) returns (r: AdminResult, calls: seq<ApiCall>)
    ensures !IsAdmin(session.values) ==> r == Denied(LoginRedirect) && calls == []
    ensures IsAdmin(session.values) ==>
      && calls == [GetBooksCall]
      && r == if booksReply.Threw? then BookList([], true) else BookList(booksReply.value, false)
  {
    var denied := CheckAdminAccess(session.values);
    if denied.Some? {
      return Denied(denied.value), [];
    }
    calls := [GetBooksCall];
    r := if booksReply.Threw? then BookList([], true) else BookList(booksReply.value, false);
  }

  /** GET Create. */
  method CreateGet(session: Session, categories: seq<Category>) returns (r: AdminResult, calls: seq<ApiCall>)
    ensures !IsAdmin(session.values) ==> r == Denied(LoginRedirect) && calls == []
    ensures IsAdmin(session.values) ==> r == CreatePage(None, categories) && calls == [GetCategoriesCall]
  {
    var denied := CheckAdminAccess(session.values);
    if denied.Some? {
      return Denied(denied.value), [];
    }
    return CreatePage(None, categories), [GetCategoriesCall];
  }

  /**
   * POST Create. An invalid form is shown again without a call to create;
   * otherwise the built record is sent, and unless the store returns the new
   * book the form is shown again with an error.
   */
  method CreatePost(session: Session, form: CreateForm, modelValid: bool, guid: string, now: Timestamp,
                    createReply: Call<Option<Book>>, categories: seq<Category>)
    returns (r: AdminResult, calls: seq<ApiCall>)
    modifies session
    ensures session.cart == old(session.cart) && session.values == old(session.values)
    ensures !IsAdmin(session.values) ==>
      r == Denied(LoginRedirect) && calls == [] && session.tempData == old(session.tempData)
    ensures IsAdmin(session.values) && !modelValid ==>
      && r == CreatePage(Some(form), categories) && calls == [GetCategoriesCall]
      && session.tempData == old(session.tempData)
    ensures IsAdmin(session.values) && modelValid ==>
      var book := CreatedBook(form, guid, now);
      && |calls| >= 1 && calls[0] == CreateBookCall(book)
      && (createReply.Returned? && createReply.value.Some? ==>
            && r == Redirected(ToIndex) && calls == [CreateBookCall(book)]
            && session.tempData == old(session.tempData)[SuccessKey := Text(CreatedText)])
      && (createReply.Returned? && createReply.value.None? ==>
            && r == CreatePage(Some(form), categories) && calls == [CreateBookCall(book), GetCategoriesCall]
            && session.tempData == old(session.tempData)[ErrorKey := Text(CreateFailedText)])
      && (createReply.Threw? ==>
            && r == CreatePage(Some(form), categories) && calls == [CreateBookCall(book), GetCategoriesCall]
            && session.tempData == old(session.tempData)[ErrorKey := Text(CreateErrorText)])
  {
    var denied := CheckAdminAccess(session.values);
    if denied.Some? {
      return Denied(denied.value), [];
    }
    if !modelValid {
      return CreatePage(Some(form), categories), [GetCategoriesCall];
    }
    var book := CreatedBook(form, guid, now);
    calls := [CreateBookCall(book)];
    match createReply {
      case Returned(Some(_)) =>
        SetSuccessMessage(session, CreatedText);
        return Redirected(ToIndex), calls;
      case Returned(None) =>
        SetErrorMessage(session, CreateFailedText);
      case Threw =>
        SetErrorMessage(session, CreateErrorText);
    }
    calls := calls + [GetCategoriesCall];
    r := CreatePage(Some(form), categories);
  }

  /** GET Edit: the form filled from the stored book, or not found. */
  method EditGet(session: Session, id: int, bookReply: Call<Option<Book>>, categoriesReply: Call<seq<Category>>)
    returns (r: AdminResult, calls: seq<ApiCall>)
    modifies session
    ensures session.cart == old(session.cart) && session.values == old(session.values)
    ensures !IsAdmin(session.values) ==>
      r == Denied(LoginRedirect) && calls == [] && session.tempData == old(session.tempData)
    ensures IsAdmin(session.values) ==>
      && |calls| >= 1 && calls[0] == GetBookCall(id)
      && (bookReply == Returned(None) ==>
            r == NotFoundResult && calls == [GetBookCall(id)] && session.tempData == old(session.tempData))
      && (bookReply.Returned? && bookReply.value.Some? && categoriesReply.Returned? ==>
            && r == EditPage(EditFormOf(bookReply.value.value), categoriesReply.value)
            && calls == [GetBookCall(id), GetCategoriesCall]
            && session.tempData == old(session.tempData))
      && (bookReply.Threw? ==> calls == [GetBookCall(id)])
      && (bookReply.Returned? && bookReply.value.Some? && categoriesReply.Threw? ==> calls == [GetBookCall(id), GetCategoriesCall])
      && (bookReply.Threw? || (bookReply.Returned? && bookReply.value.Some? && categoriesReply.Threw?) ==>
            && r == Redirected(ToIndex)
            && session.tempData == old(session.tempData)[ErrorKey := Text(LoadFailedText)])
  {
    var denied := CheckAdminAccess(session.values);
    if denied.Some? {
      return Denied(denied.value), [];
    }
    calls := [GetBookCall(id)];
    if bookReply.Threw? {
      SetErrorMessage(session, LoadFailedText);
      return Redirected(ToIndex), calls;
    }
    if bookReply.value.None? {
      return NotFoundResult, calls;
    }
    calls := calls + [GetCategoriesCall];
    if categoriesReply.Threw? {
      SetErrorMessage(session, LoadFailedText);
      return Redirected(ToIndex), calls;
    }
    r := EditPage(EditFormOf(bookReply.value.value), categoriesReply.value);
  }

  /**
   * POST Edit. An id the store does not know is not found and nothing is
   * updated. Otherwise the edited record is sent; `deletedImage` is the old
   * image file removed on the way, if any.
   */
  method EditPost(session: Session, form: EditForm, modelValid: bool, guid: string,
                  existingReply: Call<Option<Book>>, updateReply: Call<bool>, categories: seq<Category>)
    returns (r: AdminResult, calls: seq<ApiCall>, deletedImage: Option<string>)
    modifies session
    ensures session.cart == old(session.cart) && session.values == old(session.values)
    ensures deletedImage.Some? ==> ShouldDeleteOldImage(form) && deletedImage == form.currentImageUrl
    ensures !IsAdmin(session.values) ==>
      r == Denied(LoginRedirect) && calls == [] && deletedImage.None? && session.tempData == old(session.tempData)
    ensures IsAdmin(session.values) && !modelValid ==>
      && r == EditPage(form, categories) && calls == [GetCategoriesCall] && deletedImage.None?
      && session.tempData == old(session.tempData)
    ensures IsAdmin(session.values) && modelValid ==>
      && |calls| >= 1 && calls[0] == GetBookCall(form.id)
      && (existingReply == Returned(None) ==>
            && r == NotFoundResult && calls == [GetBookCall(form.id)] && deletedImage.None?
            && session.tempData == old(session.tempData))
      && (existingReply.Threw? ==>
            && r == EditPage(form, categories) && calls == [GetBookCall(form.id), GetCategoriesCall]
            && deletedImage.None?
            && session.tempData == old(session.tempData)[ErrorKey := Text(UpdateErrorText)])
      && (existingReply.Returned? && existingReply.value.Some? ==>
            var book := EditedBook(form, existingReply.value.value, guid);
            && (deletedImage.Some? <==> ShouldDeleteOldImage(form))
            && |calls| >= 2 && calls[..2] == [GetBookCall(form.id), UpdateBookCall(form.id, book)]
            && (updateReply == Returned(true) ==>
                  && r == Redirected(ToIndex) && |calls| == 2
                  && session.tempData == old(session.tempData)[SuccessKey := Text(UpdatedText)])
            && (updateReply == Returned(false) ==>
                  && r == EditPage(form, categories) && calls[2..] == [GetCategoriesCall]
                  && session.tempData == old(session.tempData)[ErrorKey := Text(UpdateFailedText)])
            && (updateReply.Threw? ==>
                  && r == EditPage(form, categories) && calls[2..] == [GetCategoriesCall]
                  && session.tempData == old(session.tempData)[ErrorKey := Text(UpdateErrorText)]))
  {
    deletedImage := None;
    var denied := CheckAdminAccess(session.values);
    if denied.Some? {
      return Denied(denied.value), [], None;
    }
    if !modelValid {
      return EditPage(form, categories), [GetCategoriesCall], None;
    }
    calls := [GetBookCall(form.id)];
    match existingReply {
      case Returned(None) =>
        return NotFoundResult, calls, None;
      case Threw =>
        SetErrorMessage(session, UpdateErrorText);
      case Returned(Some(existing)) =>
        if ShouldDeleteOldImage(form) {
          deletedImage := form.currentImageUrl;
        }
        var book := EditedBook(form, existing, guid);
        calls := calls + [UpdateBookCall(form.id, book)];
        match updateReply {
          case Returned(true) =>
            SetSuccessMessage(session, UpdatedText);
            return Redirected(ToIndex), calls, deletedImage;
          case Returned(false) =>
            SetErrorMessage(session, UpdateFailedText);
          case Threw =>
            SetErrorMessage(session, UpdateErrorText);
        }
    }
    calls := calls + [GetCategoriesCall];
    r := EditPage(form, categories);
  }

  /** POST Delete: one call to delete, a message for its outcome, and back to the list. */
  method Delete(session: Session, id: int, deleteReply: Call<bool>) returns (r: AdminResult, calls: seq<ApiCall>)
    modifies session
    ensures session.cart == old(session.cart) && session.values == old(session.values)
    ensures !IsAdmin(session.values) ==>
      r == Denied(LoginRedirect) && calls == [] && session.tempData == old(session.tempData)
    ensures IsAdmin(session.values) ==>
      && r == Redirected(ToIndex) && calls == [DeleteBookCall(id)]
      && session.tempData == old(session.tempData)[
           if deleteReply == Returned(true) then SuccessKey else ErrorKey :=
           Text(if deleteReply == Returned(true) then DeletedText
                else if deleteReply == Returned(false) then DeleteFailedText
                else DeleteErrorText)]
  {
    var denied := CheckAdminAccess(session.values);
    if denied.Some? {
      return Denied(denied.value), [];
    }
    calls := [DeleteBookCall(id)];
    match deleteReply {
      case Returned(true) => SetSuccessMessage(session, DeletedText);
      case Returned(false) => SetErrorMessage(session, DeleteFailedText);
      case Threw => SetErrorMessage(session, DeleteErrorText);
    }
    r := Redirected(ToIndex);
  }
}
