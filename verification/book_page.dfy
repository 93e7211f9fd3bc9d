/** The Books page: the book list, the author, publisher and category lists
    that feed the form's pickers, one form used both for a new book and for
    editing, and the book being edited. The form holds references as flat
    ids; requests carry them nested as `{id}` objects. */
module BookPage {
  import opened Values
  import opened Library
  import Listing

  /** The form. Inputs and pickers write strings; the edit prefill copies
      the book's numbers in unchanged. */
  datatype BookForm = BookForm(
    name: Value,
    publicationYear: Value,
    stock: Value,
    authorId: Value,
    publisherId: Value,
    categoryIds: seq<Value>)

  const EmptyForm := BookForm(Str(""), Str(""), Str(""), Str(""), Str(""), [])

  /** A `{id}` reference as this page sends it. */
  datatype IdRef = IdRef(id: Value)

  /** The create body: every form field (the form is spread into it) plus
      the nested references. */
  datatype NewBookRequest = NewBookRequest(form: BookForm, author: IdRef, publisher: IdRef, categories: seq<IdRef>)

  /** The update body: the edited book with the form written over it, so
      only `id` survives from the book itself. */
  datatype BookUpdateRequest = BookUpdateRequest(
    id: int,
    name: Value,
    publicationYear: Value,
    stock: Value,
    author: IdRef,
    publisher: IdRef,
    categories: seq<IdRef>)

  datatype Call =
    | ListBooks | ListAuthors | ListPublishers | ListCategories
    | Create(request: NewBookRequest)
    | Update(id: int, body: BookUpdateRequest)
    | Delete(id: int)

  datatype Page = Page(
    books: seq<Book>,
    authors: seq<Author>,
    publishers: seq<Publisher>,
    categories: seq<Category>,
    editing: Option<Book>,
    form: BookForm)

  const Mounted := Page([], [], [], [], None, EmptyForm)

  /** The required-field check shared by create and update. */
  predicate Complete(f: BookForm)
    ensures Complete(f) <==>
              && f.name !in Falsy && f.publicationYear !in Falsy && f.stock !in Falsy
              && f.authorId !in Falsy && f.publisherId !in Falsy
              && |f.categoryIds| > 0
  {
    && Truthy(f.name) && Truthy(f.publicationYear) && Truthy(f.stock)
    && Truthy(f.authorId) && Truthy(f.publisherId)
    && |f.categoryIds| > 0
  }

  /** `ids.map(id => ({id}))` */
  function Nest(ids: seq<Value>): (refs: seq<IdRef>)
    ensures |refs| == |ids|
    ensures forall i :: 0 <= i < |ids| ==> refs[i].id == ids[i]
    decreases |ids|
  {
    if |ids| == 0 then [] else [IdRef(ids[0])] + Nest(ids[1..])
  }

  /** `categories.map(c => c.id)` on a book from the server. */
  function CategoryIds(cs: seq<Ref>): (ids: seq<Value>)
    ensures |ids| == |cs|
    ensures forall i :: 0 <= i < |cs| ==> ids[i] == Num(cs[i].id)
    decreases |cs|
  {
    if |cs| == 0 then [] else [Num(cs[0].id)] + CategoryIds(cs[1..])
  }

  /** The edit prefill: the book's fields copied into the form. */
  function Prefill(b: Book): (f: BookForm)
    ensures f.name == Str(b.name) && f.publicationYear == Num(b.publicationYear) && f.stock == Num(b.stock)
    ensures f.authorId == Num(b.author.id) && f.publisherId == Num(b.publisher.id)
    ensures |f.categoryIds| == |b.categories|
    ensures forall i :: 0 <= i < |b.categories| ==> f.categoryIds[i] == Num(b.categories[i].id)
    ensures Complete(f) <==>
              && b.name != "" && b.publicationYear != 0 && b.stock != 0
              && b.author.id != 0 && b.publisher.id != 0 && |b.categories| > 0
  {
    BookForm(Str(b.name), Num(b.publicationYear), Num(b.stock),
             Num(b.author.id), Num(b.publisher.id), CategoryIds(b.categories))
  }

  /** `{id}` references back to flat ids. */
  function Flatten(refs: seq<IdRef>): seq<Value>
    decreases |refs|
  {
    if |refs| == 0 then [] else [refs[0].id] + Flatten(refs[1..])
  }

  /** The create body: the form spread in, with `author`, `publisher` and
      one `{id}` per category id added, in the form's order. */
  function CreateRequest(f: BookForm): (r: NewBookRequest)
    ensures r.form == f
    ensures r.author == IdRef(f.authorId) && r.publisher == IdRef(f.publisherId)
    ensures |r.categories| == |f.categoryIds|
    ensures forall i :: 0 <= i < |f.categoryIds| ==> r.categories[i] == IdRef(f.categoryIds[i])
  {
    NewBookRequest(f, IdRef(f.authorId), IdRef(f.publisherId), Nest(f.categoryIds))
  }

  /** The update body keeps the edited book's id and takes every other
      field from the form. */
  function UpdateRequest(f: BookForm, editing: Book): (r: BookUpdateRequest)
    ensures r.id == editing.id
    ensures r.name == f.name && r.publicationYear == f.publicationYear && r.stock == f.stock
    ensures r.author == IdRef(f.authorId) && r.publisher == IdRef(f.publisherId)
    ensures Flatten(r.categories) == f.categoryIds
  {
    FlattenNest(f.categoryIds);
    BookUpdateRequest(editing.id, f.name, f.publicationYear, f.stock,
                      IdRef(f.authorId), IdRef(f.publisherId), Nest(f.categoryIds))
  }

  /** A book as the update body that would store it unchanged: each field
      as a number or string, each reference as `{id}`. */
  function AsRequest(b: Book): BookUpdateRequest
  {
    BookUpdateRequest(b.id, Str(b.name), Num(b.publicationYear), Num(b.stock),
                      IdRef(Num(b.author.id)), IdRef(Num(b.publisher.id)), AsIdRefs(b.categories))
  }

  function AsIdRefs(cs: seq<Ref>): seq<IdRef>
    decreases |cs|
  {
    if |cs| == 0 then [] else [IdRef(Num(cs[0].id))] + AsIdRefs(cs[1..])
  }

  /** The mount effect: the four lists, fetched one after another; the
      first failure stops the chain and shows an error. */
  function Load(p: Page, books: Reply<seq<Book>>, authors: Reply<seq<Author>>,
                publishers: Reply<seq<Publisher>>, categories: Reply<seq<Category>>): (r: Step<Page, Call>)
    ensures r.page.editing == p.editing && r.page.form == p.form
    ensures r.notice == Silent <==> books.Ok? && authors.Ok? && publishers.Ok? && categories.Ok?
    ensures r.notice != Silent ==> r.notice == Error(RequestFailed)
    ensures r.page.books == (if books.Ok? then books.value else p.books)
    ensures r.page.authors == (if books.Ok? && authors.Ok? then authors.value else p.authors)
    ensures r.page.publishers == (if books.Ok? && authors.Ok? && publishers.Ok? then publishers.value else p.publishers)
    ensures r.page.categories == (if r.notice == Silent then categories.value else p.categories)
    ensures |r.calls| == 1 + (if books.Ok? then 1 else 0) + (if books.Ok? && authors.Ok? then 1 else 0)
                           + (if books.Ok? && authors.Ok? && publishers.Ok? then 1 else 0)
    ensures r.calls == [ListBooks, ListAuthors, ListPublishers, ListCategories][..|r.calls|]
  {
    if books.Err? then Step(p, [ListBooks], Error(RequestFailed))
    else
      var p1 := p.(books := books.value);
      if authors.Err? then Step(p1, [ListBooks, ListAuthors], Error(RequestFailed))
      else
        var p2 := p1.(authors := authors.value);
        if publishers.Err? then Step(p2, [ListBooks, ListAuthors, ListPublishers], Error(RequestFailed))
        else
          var p3 := p2.(publishers := publishers.value);
          var all := [ListBooks, ListAuthors, ListPublishers, ListCategories];
          if categories.Err? then Step(p3, all, Error(RequestFailed))
          else Step(p3.(categories := categories.value), all, Silent)
  }

  /** Adds a book. On success the page lists the books again instead of
      appending; `added` answers the create and `relist` the list. */
  function SubmitNew(p: Page, added: Reply<()>, relist: Reply<seq<Book>>): (r: Step<Page, Call>)
    ensures !Complete(p.form) ==> r == Step(p, [], Warning(MissingFields))
    ensures Complete(p.form) ==> 1 <= |r.calls| && r.calls[0] == Create(CreateRequest(p.form))
    ensures Complete(p.form) && added.Err? ==> r == Step(p, [Create(CreateRequest(p.form))], Error(RequestFailed))
    ensures Complete(p.form) && added.Ok? ==> r.calls == [Create(CreateRequest(p.form)), ListBooks]
    ensures Complete(p.form) && added.Ok? && relist.Ok? ==>
              r.page == p.(books := relist.value, form := EmptyForm) && r.notice == Success
    ensures Complete(p.form) && added.Ok? && relist.Err? ==> r.page == p && r.notice == Error(RequestFailed)
  {
    if !Complete(p.form) then Step(p, [], Warning(MissingFields))
    else
      var create := Create(CreateRequest(p.form));
      if added.Err? then Step(p, [create], Error(RequestFailed))
      else if relist.Err? then Step(p, [create, ListBooks], Error(RequestFailed))
      else Step(p.(books := relist.value, form := EmptyForm), [create, ListBooks], Success)
  }

  /** The edit button: remember the book and prefill the form from it. */
  function Edit(p: Page, b: Book): (r: Page)
    ensures r.editing == Some(b)
    ensures r.form.name == Str(b.name) && r.form.publicationYear == Num(b.publicationYear)
    ensures r.form.stock == Num(b.stock)
    ensures r.form.authorId == Num(b.author.id) && r.form.publisherId == Num(b.publisher.id)
    ensures |r.form.categoryIds| == |b.categories|
    ensures forall i :: 0 <= i < |b.categories| ==> r.form.categoryIds[i] == Num(b.categories[i].id)
    ensures r == p.(editing := r.editing, form := r.form)
  {
    p.(editing := Some(b), form := Prefill(b))
  }

  /** Saves the edit. The check runs before the handler reads the edited
      book; with no book being edited, reading its id throws inside the try
      block, which shows the error toast and sends nothing. On success the
      entries whose id is the returned book's id become the returned book. */
  function UpdateBook(p: Page, reply: Reply<Book>): (r: Step<Page, Call>)
    ensures !Complete(p.form) ==> r == Step(p, [], Warning(MissingFields))
    ensures Complete(p.form) && p.editing.None? ==> r == Step(p, [], Error(RequestFailed))
    ensures Complete(p.form) && p.editing.Some? ==>
              r.calls == [Update(p.editing.value.id, UpdateRequest(p.form, p.editing.value))]
    ensures Complete(p.form) && p.editing.Some? && reply.Ok? ==>
              var u := reply.value;
              && |r.page.books| == |p.books|
              && (forall i :: 0 <= i < |p.books| ==>
                    r.page.books[i] == if p.books[i].id == u.id then u else p.books[i])
              && Listing.Keys(r.page.books, BookId) == Listing.Keys(p.books, BookId)
              && r.page == p.(books := r.page.books, editing := None, form := EmptyForm)
              && r.notice == Success
    ensures Complete(p.form) && p.editing.Some? && reply.Err? ==>
              r.page == p && r.notice == Error(RequestFailed)
  {
    if !Complete(p.form) then Step(p, [], Warning(MissingFields))
    else match p.editing
      case None => Step(p, [], Error(RequestFailed))
      case Some(e) =>
        var calls := [Update(e.id, UpdateRequest(p.form, e))];
        match reply
        case Ok(u) =>
          Step(p.(books := Listing.ReplaceWhere(p.books, BookId, u.id, u), editing := None, form := EmptyForm),
               calls, Success)
        case Err => Step(p, calls, Error(RequestFailed))
  }

  /** The form's submit button runs the update while a book is being edited
      and the create otherwise. */
  function Submit(p: Page, added: Reply<()>, relist: Reply<seq<Book>>, updated: Reply<Book>): (r: Step<Page, Call>)
    ensures !Complete(p.form) ==> r == Step(p, [], Warning(MissingFields))
    ensures Complete(p.form) && p.editing.Some? ==>
              r.calls == [Update(p.editing.value.id, UpdateRequest(p.form, p.editing.value))]
    ensures Complete(p.form) && p.editing.None? ==> 1 <= |r.calls| && r.calls[0] == Create(CreateRequest(p.form))
    ensures p.editing.Some? ==> |r.calls| <= 1 && forall c :: c in r.calls ==> c.Update?
    ensures p.editing.None? ==> forall c :: c in r.calls ==> c.Create? || c.ListBooks?
    ensures r.notice == Success ==> r.page.editing.None? && r.page.form == EmptyForm
    ensures r.notice != Success ==> r.page == p
  {
    if p.editing.Some? then UpdateBook(p, updated) else SubmitNew(p, added, relist)
  }

  /** Deletes at once: this page asks for no confirmation.
      The kept entries stay in their order (`Listing.RemoveConcat`); with
      distinct ids exactly one entry goes (`DeleteRemovesExactlyOne`). */
  function DeleteBook(p: Page, id: int, reply: Reply<()>): (r: Step<Page, Call>)
    ensures r.calls == [Delete(id)]
    ensures reply.Ok? ==>
              && (forall x :: x in r.page.books ==> x in p.books && x.id != id)
              && (forall x :: x in p.books && x.id != id ==> x in r.page.books)
              && r.page == p.(books := r.page.books)
              && r.notice == Success
    ensures reply.Err? ==> r.page == p && r.notice == Error(RequestFailed)
  {
    if reply.Ok? then
      Listing.RemoveMembers(p.books, BookId, id);
      Step(p.(books := Listing.RemoveWhere(p.books, BookId, id)), [Delete(id)], Success)
    else Step(p, [Delete(id)], Error(RequestFailed))
  }

  /** The cancel button: leave edit mode and clear the form. */
  function Cancel(p: Page): (r: Page)
    ensures r.editing.None? && r.form == EmptyForm
    ensures r.books == p.books && r.authors == p.authors
    ensures r.publishers == p.publishers && r.categories == p.categories
  {
    p.(editing := None, form := EmptyForm)
  }

  /** Nesting flat ids into `{id}` references and reading them back gives
      the same ids in the same order. */
  lemma {:induction false} FlattenNest(ids: seq<Value>)
    ensures Flatten(Nest(ids)) == ids
    decreases |ids|
  {
    if |ids| > 0 {
      FlattenNest(ids[1..]);
      assert Nest(ids)[1..] == Nest(ids[1..]);
    }
  }

  /** Nesting the prefilled category ids gives each category of the book
      back as an `{id}` reference, in the same order. */
  lemma {:induction false} NestCategoryIds(cs: seq<Ref>)
    ensures Nest(CategoryIds(cs)) == AsIdRefs(cs)
    decreases |cs|
  {
    if |cs| > 0 {
      NestCategoryIds(cs[1..]);
      assert CategoryIds(cs)[1..] == CategoryIds(cs[1..]);
    }
  }

  /** Round trip: opening a book for edit and saving without changes sends
      the book back as it is, with the same author, publisher and category
      ids in the same order. */
  lemma UnchangedEditRoundTrip(b: Book)
    ensures UpdateRequest(Prefill(b), b) == AsRequest(b)
  {
    NestCategoryIds(b.categories);
  }

  /** Editing only the stock changes only the stock of the request. */
  lemma StockOnlyEdit(b: Book, stock: Value)
    ensures UpdateRequest(Prefill(b).(stock := stock), b) == AsRequest(b).(stock := stock)
  {
    NestCategoryIds(b.categories);
  }

  /** The prefill copies the stock as the number 0, which is falsy: a book
      that is out of stock cannot be saved until its stock field is retyped. */
  lemma OutOfStockEditRejected(p: Page, b: Book, reply: Reply<Book>)
    requires b.stock == 0
    ensures UpdateBook(Edit(p, b), reply) == Step(Edit(p, b), [], Warning(MissingFields))
  {
  }

  /** With unique ids, deleting a listed book removes that one entry and
      keeps the others in order. */
  lemma DeleteRemovesExactlyOne(p: Page, i: int)
    requires Listing.UniqueKeys(p.books, BookId)
    requires 0 <= i < |p.books|
    ensures var after := DeleteBook(p, p.books[i].id, Ok(())).page.books;
            after == p.books[..i] + p.books[i + 1..] && |after| == |p.books| - 1
  {
    Listing.RemoveUniquePresent(p.books, BookId, i);
  }

  /** Opening a book whose fields are all truthy and pressing submit
      without changes sends exactly one update, carrying the book as it is;
      when the server echoes it back, a list with distinct ids that holds
      it is left as it was, and the page leaves edit mode. */
  lemma EditThenSubmitUnchanged(p: Page, b: Book, added: Reply<()>, relist: Reply<seq<Book>>)
    requires b.name != "" && b.publicationYear != 0 && b.stock != 0
    requires b.author.id != 0 && b.publisher.id != 0 && |b.categories| > 0
    ensures var r := Submit(Edit(p, b), added, relist, Ok(b));
            && r.calls == [Update(b.id, AsRequest(b))]
            && r.notice == Success
            && r.page.editing.None? && r.page.form == EmptyForm
            && (Listing.UniqueKeys(p.books, BookId) && b in p.books ==> r.page.books == p.books)
  {
    UnchangedEditRoundTrip(b);
    if Listing.UniqueKeys(p.books, BookId) && b in p.books {
      Listing.ReplaceUniqueSame(p.books, BookId, b);
    }
  }

  /** Cancel after an edit gives the same page as cancel alone, and a submit
      right after cancel is back on the create path, where the empty form
      is refused with no request. */
  lemma CancelLeavesEdit(p: Page, b: Book, added: Reply<()>, relist: Reply<seq<Book>>, updated: Reply<Book>)
    ensures Cancel(Edit(p, b)) == Cancel(p)
    ensures Submit(Cancel(p), added, relist, updated) == Step(Cancel(p), [], Warning(MissingFields))
  {
  }
}
