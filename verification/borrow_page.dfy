/** The Book Borrowing page: the list of loans, the list of books (for the
    book picker and its stock counts), the book picked for a new loan, the
    "new loan" form and the loan being edited. Creating a loan takes one copy
    of the picked book off the locally held stock. */
module BorrowPage {
  import opened Values
  import opened Library
  import Listing

  /** The "new loan" form. `returnDate` is `None` when the key is absent:
      the mount state has it empty, the reset after a create drops it. */
  datatype BorrowingForm = BorrowingForm(
    borrowerName: Value,
    borrowerMail: Value,
    borrowingDate: Value,
    returnDate: Option<Value>)

  const InitialForm := BorrowingForm(Str(""), Str(""), Str(""), Some(Str("")))
  const ClearedForm := BorrowingForm(Str(""), Str(""), Str(""), None)

  /** The create body: the form spread in, plus the picked book's display
      fields with its stock already reduced by the copy being lent. */
  datatype BorrowingRequest = BorrowingRequest(form: BorrowingForm, bookForBorrowingRequest: BookSnapshot)

  /** The update body: only these three fields of the edited loan. */
  datatype BorrowingUpdate = BorrowingUpdate(borrowerName: Value, borrowingDate: Value, returnDate: Value)

  datatype Call =
    | ListBooks | ListBorrowings
    | Create(request: BorrowingRequest)
    | Update(id: int, body: BorrowingUpdate)
    | Delete(id: int)

  datatype Page = Page(
    borrowings: seq<Borrowing>,
    books: seq<Book>,
    selectedBook: Option<Book>,
    newBorrowing: BorrowingForm,
    editing: Option<Borrowing>)

  const Mounted := Page([], [], None, InitialForm, None)

  /** The three fields the create handler requires. */
  predicate Filled(f: BorrowingForm)
    ensures Filled(f) <==> f.borrowerName !in Falsy && f.borrowerMail !in Falsy && f.borrowingDate !in Falsy
  {
    Truthy(f.borrowerName) && Truthy(f.borrowerMail) && Truthy(f.borrowingDate)
  }

  predicate StocksNonNegative(books: seq<Book>)
  {
    forall i :: 0 <= i < |books| ==> books[i].stock >= 0
  }

  /** The picked book agrees in stock with every list entry that has its id. */
  predicate SelectionCurrent(p: Page)
  {
    p.selectedBook.Some? ==>
      forall i :: 0 <= i < |p.books| && p.books[i].id == p.selectedBook.value.id ==>
        p.books[i].stock == p.selectedBook.value.stock
  }

  /** The state the page keeps when the server hands it books with distinct
      ids and non-negative stocks: the picked book is one of the listed ones. */
  predicate Valid(p: Page)
  {
    && Listing.UniqueKeys(p.books, BookId)
    && StocksNonNegative(p.books)
    && (p.selectedBook.Some? ==> p.selectedBook.value in p.books)
  }

  /** The mount effect: books first, then loans; a failure shows an error
      and stops. */
  function Load(p: Page, books: Reply<seq<Book>>, borrowings: Reply<seq<Borrowing>>): (r: Step<Page, Call>)
    ensures books.Err? ==> r == Step(p, [ListBooks], Error(RequestFailed))
    ensures books.Ok? ==> r.calls == [ListBooks, ListBorrowings]
    ensures books.Ok? && borrowings.Ok? ==>
              r.page == p.(books := books.value, borrowings := borrowings.value) && r.notice == Silent
    ensures books.Ok? && borrowings.Err? ==>
              r.page == p.(books := books.value) && r.notice == Error(RequestFailed)
  {
    if books.Err? then Step(p, [ListBooks], Error(RequestFailed))
    else
      var p1 := p.(books := books.value);
      if borrowings.Err? then Step(p1, [ListBooks, ListBorrowings], Error(RequestFailed))
      else Step(p1.(borrowings := borrowings.value), [ListBooks, ListBorrowings], Silent)
  }

  /** The book picker. `parsedId` is the picked option's value after
      `parseInt`, `None` where that yields NaN (the placeholder option). */
  function SelectBook(p: Page, parsedId: Option<int>): (r: Page)
    ensures r == p.(selectedBook := r.selectedBook)
    ensures r.selectedBook.None? <==> parsedId.None? || !Listing.HasKey(p.books, BookId, parsedId.value)
    ensures r.selectedBook.Some? ==>
              && parsedId.Some?
              && exists i :: Listing.FirstWithKey(p.books, BookId, parsedId.value, i) && p.books[i] == r.selectedBook.value
  {
    match parsedId
    case None => p.(selectedBook := None)
    case Some(id) => p.(selectedBook := Listing.FindFirst(p.books, BookId, id))
  }

  /** The copy of the picked book sent with the loan: its stock already
      reduced by one. */
  function LentSnapshot(b: Book): (r: BookSnapshot)
    ensures r.id == b.id && r.name == b.name && r.publicationYear == b.publicationYear
    ensures r.stock == b.stock - 1
    ensures r.stock >= 0 <==> b.stock > 0
  {
    BookSnapshot(b.id, b.name, b.publicationYear, b.stock - 1)
  }

  /** Creates a loan. Checks, in this order: the three required fields, a
      picked book, a stock above zero. */
  function AddBorrowing(p: Page, reply: Reply<Borrowing>): (r: Step<Page, Call>)
    ensures !Filled(p.newBorrowing) ==> r == Step(p, [], Error(MissingFields))
    ensures Filled(p.newBorrowing) && p.selectedBook.None? ==> r == Step(p, [], Error(NoBookChosen))
    ensures Filled(p.newBorrowing) && p.selectedBook.Some? && p.selectedBook.value.stock <= 0 ==>
              r == Step(p, [], Error(OutOfStock))
    ensures |r.calls| > 0 <==> Filled(p.newBorrowing) && p.selectedBook.Some? && p.selectedBook.value.stock > 0
    ensures |r.calls| > 0 ==>
              var sel := p.selectedBook.value;
              && |r.calls| == 1 && r.calls[0].Create?
              && r.calls[0].request.form == p.newBorrowing
              && r.calls[0].request.bookForBorrowingRequest.id == sel.id
              && r.calls[0].request.bookForBorrowingRequest.name == sel.name
              && r.calls[0].request.bookForBorrowingRequest.publicationYear == sel.publicationYear
              && r.calls[0].request.bookForBorrowingRequest.stock == sel.stock - 1
    ensures |r.calls| > 0 && reply.Ok? ==>
              var sel := p.selectedBook.value;
              && |r.page.books| == |p.books|
              && (forall i :: 0 <= i < |p.books| ==>
                    r.page.books[i] == if p.books[i].id == sel.id
                                       then p.books[i].(stock := p.books[i].stock - 1)
                                       else p.books[i])
              && r.page.borrowings == p.borrowings + [reply.value]
              && r.page.newBorrowing == ClearedForm
              && r.page.selectedBook.None?
              && r.page.editing == p.editing
              && r.notice == Success
    ensures |r.calls| > 0 && reply.Err? ==> r.page == p && r.notice == Error(RequestFailed)
  {
    if !Filled(p.newBorrowing) then Step(p, [], Error(MissingFields))
    else match p.selectedBook
      case None => Step(p, [], Error(NoBookChosen))
      case Some(sel) =>
        if sel.stock <= 0 then Step(p, [], Error(OutOfStock))
        else
          var calls := [Create(BorrowingRequest(p.newBorrowing, LentSnapshot(sel)))];
          match reply
          case Ok(added) =>
            var books := Listing.UpdateWhere(p.books, BookId, sel.id, (b: Book) => b.(stock := b.stock - 1));
            Step(Page(p.borrowings + [added], books, None, ClearedForm, p.editing), calls, Success)
          case Err => Step(p, calls, Error(RequestFailed))
  }

  /** The edit button: the loan becomes the edit draft. */
  function BeginEdit(p: Page, b: Borrowing): Page
  {
    p.(editing := Some(b))
  }

  /** Saves the loan being edited; with none, does nothing. On success the
      entries with the edited loan's id become the server's returned loan.
      Book stocks are never touched. */
  function UpdateBorrowing(p: Page, reply: Reply<Borrowing>): (r: Step<Page, Call>)
    ensures r.page.books == p.books && r.page.selectedBook == p.selectedBook
    ensures p.editing.None? ==> r == Step(p, [], Silent)
    ensures p.editing.Some? ==>
              var e := p.editing.value;
              r.calls == [Update(e.id, BorrowingUpdate(e.borrowerName, e.borrowingDate, e.returnDate))]
    ensures p.editing.Some? && reply.Ok? ==>
              var e := p.editing.value;
              && |r.page.borrowings| == |p.borrowings|
              && (forall i :: 0 <= i < |p.borrowings| ==>
                    r.page.borrowings[i] == if p.borrowings[i].id == e.id then reply.value else p.borrowings[i])
              && r.page == p.(borrowings := r.page.borrowings, editing := None)
              && r.notice == Success
    ensures p.editing.Some? && reply.Err? ==> r.page == p && r.notice == Error(RequestFailed)
  {
    match p.editing
    case None => Step(p, [], Silent)
    case Some(e) =>
      var calls := [Update(e.id, BorrowingUpdate(e.borrowerName, e.borrowingDate, e.returnDate))];
      match reply
      case Ok(u) =>
        Step(p.(borrowings := Listing.ReplaceWhere(p.borrowings, BorrowingId, e.id, u), editing := None),
             calls, Success)
      case Err => Step(p, calls, Error(RequestFailed))
  }

  /** `confirmed` is the answer to the confirmation prompt.
      The kept entries stay in their order (`Listing.RemoveConcat`); with
      distinct ids exactly one entry goes (`DeleteRemovesExactlyOne`). */
  function DeleteBorrowing(p: Page, id: int, confirmed: bool, reply: Reply<()>): (r: Step<Page, Call>)
    ensures !confirmed ==> r == Step(p, [], Silent)
    ensures confirmed ==> r.calls == [Delete(id)]
    ensures confirmed && reply.Ok? ==>
              && (forall x :: x in r.page.borrowings ==> x in p.borrowings && x.id != id)
              && (forall x :: x in p.borrowings && x.id != id ==> x in r.page.borrowings)
              && r.page == p.(borrowings := r.page.borrowings)
              && r.notice == Success
    ensures confirmed && reply.Err? ==> r.page == p && r.notice == Error(RequestFailed)
  {
    if !confirmed then Step(p, [], Silent)
    else if reply.Ok? then
      Listing.RemoveMembers(p.borrowings, BorrowingId, id);
      Step(p.(borrowings := Listing.RemoveWhere(p.borrowings, BorrowingId, id)), [Delete(id)], Success)
    else Step(p, [Delete(id)], Error(RequestFailed))
  }

  /** The stock guard keeps stocks from going negative, as long as the picked
      book's stock is the one the list holds for it. */
  lemma AddKeepsStocksNonNegative(p: Page, reply: Reply<Borrowing>)
    requires StocksNonNegative(p.books)
    requires SelectionCurrent(p)
    ensures StocksNonNegative(AddBorrowing(p, reply).page.books)
  {
    var r := AddBorrowing(p, reply);
    if |r.calls| > 0 && reply.Ok? {
      var sel := p.selectedBook.value;
      forall i | 0 <= i < |r.page.books| ensures r.page.books[i].stock >= 0 {
        if p.books[i].id == sel.id {
          assert p.books[i].stock == sel.stock > 0;
        }
      }
    }
  }

  /** In a valid page the picked book is current. */
  lemma ValidSelectionCurrent(p: Page)
    requires Valid(p)
    ensures SelectionCurrent(p)
  {
    if p.selectedBook.Some? {
      var sel := p.selectedBook.value;
      var n :| 0 <= n < |p.books| && p.books[n] == sel;
      forall i | 0 <= i < |p.books| && p.books[i].id == sel.id ensures p.books[i].stock == sel.stock {
        assert i == n;
      }
    }
  }

  /** Picking a book keeps the page valid. */
  lemma SelectKeepsValid(p: Page, parsedId: Option<int>)
    requires Valid(p)
    ensures Valid(SelectBook(p, parsedId))
  {
    var r := SelectBook(p, parsedId);
    if r.selectedBook.Some? {
      var i :| Listing.FirstWithKey(p.books, BookId, parsedId.value, i) && p.books[i] == r.selectedBook.value;
    }
  }

  /** Creating a loan keeps the page valid. */
  lemma AddKeepsValid(p: Page, reply: Reply<Borrowing>)
    requires Valid(p)
    ensures Valid(AddBorrowing(p, reply).page)
  {
    ValidSelectionCurrent(p);
    AddKeepsStocksNonNegative(p, reply);
    var r := AddBorrowing(p, reply);
    assert Listing.UniqueKeys(r.page.books, BookId) by {
      forall i, j | 0 <= i < j < |r.page.books| ensures BookId(r.page.books[i]) != BookId(r.page.books[j]) {
        assert r.page.books[i].id == p.books[i].id && r.page.books[j].id == p.books[j].id;
      }
    }
  }

  /** Lending the last copy of a book: its stock drops to zero, and picking
      the same book for a second loan is refused as out of stock without a
      request, even with the form filled in again. */
  lemma LastCopyThenOutOfStock(p: Page, b: Book, created: Borrowing, reply: Reply<Borrowing>)
    requires Valid(p)
    requires b in p.books && b.stock == 1
    requires Filled(p.newBorrowing)
    ensures var lent := AddBorrowing(SelectBook(p, Some(b.id)), Ok(created)).page;
            && b.(stock := 0) in lent.books
            && |lent.borrowings| == |p.borrowings| + 1
            && var again := SelectBook(lent.(newBorrowing := p.newBorrowing), Some(b.id));
               AddBorrowing(again, reply) == Step(again, [], Error(OutOfStock))
  {
    Listing.FindUnique(p.books, BookId, b);
    var s1 := SelectBook(p, Some(b.id));
    assert s1.selectedBook == Some(b);
    SelectKeepsValid(p, Some(b.id));
    AddKeepsValid(s1, Ok(created));
    var lent := AddBorrowing(s1, Ok(created)).page;
    var n :| 0 <= n < |p.books| && p.books[n] == b;
    assert lent.books[n] == b.(stock := 0);
    var refilled := lent.(newBorrowing := p.newBorrowing);
    Listing.FindUnique(refilled.books, BookId, b.(stock := 0));
  }

  /** With unique ids, a confirmed delete of a listed loan removes that one
      entry and keeps the others in order. */
  lemma DeleteRemovesExactlyOne(p: Page, i: int)
    requires Listing.UniqueKeys(p.borrowings, BorrowingId)
    requires 0 <= i < |p.borrowings|
    ensures var after := DeleteBorrowing(p, p.borrowings[i].id, true, Ok(())).page.borrowings;
            after == p.borrowings[..i] + p.borrowings[i + 1..] && |after| == |p.borrowings| - 1
  {
    Listing.RemoveUniquePresent(p.borrowings, BorrowingId, i);
  }

  /** The page starts valid. */
  lemma MountedValid()
    ensures Valid(Mounted)
  {
  }

  /** Loading books with distinct ids and non-negative stocks into a page
      with no picked book gives a valid page, whether or not the loans
      arrive. */
  lemma LoadValid(p: Page, bs: seq<Book>, ls: Reply<seq<Borrowing>>)
    requires p.selectedBook.None?
    requires Listing.UniqueKeys(bs, BookId) && StocksNonNegative(bs)
    ensures Valid(Load(p, Ok(bs), ls).page)
  {
  }

  /** Saving a loan edit keeps the page valid. */
  lemma UpdateKeepsValid(p: Page, reply: Reply<Borrowing>)
    requires Valid(p)
    ensures Valid(UpdateBorrowing(p, reply).page)
  {
  }

  /** Deleting a loan keeps the page valid. */
  lemma DeleteKeepsValid(p: Page, id: int, confirmed: bool, reply: Reply<()>)
    requires Valid(p)
    ensures Valid(DeleteBorrowing(p, id, confirmed, reply).page)
  {
  }
}
