# LibraryApp page logic in Dafny

LibraryApp is a browser front end for a library catalogue. It has five
pages (Publishers, Authors, Categories, Books, Book Borrowing), and each one
lists, creates, updates and deletes one kind of record against a remote
REST service. This project models what each page does to its own
in-memory state when one of its handlers runs.

Each handler becomes a pure step function:

    (page state, user inputs, replies of the remote calls) -> Step(page', calls, notice)

- `calls` are the requests the handler issued, in order. "Makes no request"
  means `calls == []`.
- `notice` is the kind of toast it raised.
- A remote call's outcome is a parameter `Reply<T> = Ok(value) | Err`. The
  answer to the browser's confirmation prompt is a `bool` parameter.

Form fields are `Value = Str | Num | Null`. The required-field checks use
JavaScript truthiness (`Values.Truthy`), so `""`, `0` and `null` all count
as missing.

Modules:

- `Values`: option, reply, form value, truthiness, notices, `Step`.
- `Library`: the records the server returns: `Book`, `Borrowing`,
  `Publisher`, `Author`, `Category`, and `{id}` references.
- `Listing`: the list operations the pages share, each with a contract.
  - `list.map` replacing entries by id (`UpdateWhere`, `ReplaceWhere`).
  - `list.filter` by id (`RemoveWhere`).
  - `list.find` by id (`FindFirst`).
  - The per-id details toggle (`Toggle`, `Visible`).
- `Seeding`: the first load of the Publisher, Author and Category pages. It
  lists the records. When the list is empty, it creates the five samples one
  after another, then lists again. This is a loop with invariants.
- `BorrowPage`, `BookPage`, `PublisherPage`, `AuthorPage`, `CategoryPage`:
  one module per page.

The pages do not all behave the same way, and the model keeps each page as
written:

- The Books page lists the books again after a create instead of appending.
- The Books page deletes without asking for confirmation.
- The Authors and Categories pages validate nothing before sending.
- On an update, the Publishers, Authors and Categories pages write their
  local edit draft into the list, not the server's reply.
- The Books page replaces the entries whose id equals the id of the book the
  server returned. The Borrowing page matches on the id of the loan being
  edited.
- When a loan is created, the reset of the Borrowing form drops the
  `returnDate` key. `BorrowingForm.returnDate` is therefore an `Option`.

The edit buttons only store the chosen record as the edit draft. They are
modelled as plain setters without contracts: `BorrowPage.BeginEdit`,
`PublisherPage.SelectForEdit`, `AuthorPage.SelectForEdit` and
`CategoryPage.SelectForEdit`. `BookPage.Edit` also prefills the form, so it
has a contract.

On the Publishers, Authors and Categories pages, a failed first list or
sample create is not caught: there is no notice and no state change.
The Borrowing update sends only `borrowerName`, `borrowingDate` and
`returnDate`.

A consequence of truthiness that the model exposes
(`BookPage.OutOfStockEditRejected`): the edit prefill copies the stock in as
the number `0`. So a book with no copies left cannot be saved from the edit
form until its stock field is typed again.

## Model

| member | source | states |
|---|---|---|
| `Values.Truthy` | src/components/Book/BookPage.jsx:51-58 | a field passes a required-field check exactly when it is not `""`, not `0` and not `null` |
| `BookPage.Complete` | src/components/Book/BookPage.jsx:110-117 | the book form passes exactly when name, year, stock, author id and publisher id are none of `""`, `0`, `null` and at least one category is chosen |
| `BookPage.Prefill` | src/components/Book/BookPage.jsx:96-103 | the form takes the book's name as a string, year and stock as numbers, and its reference ids in order; so the prefilled form passes the required-field check exactly when the book has a non-empty name, non-zero year, stock and reference ids, and a category |
| `BorrowPage.Filled` | src/components/BookBorrow/BorrowPage.jsx:49 | the loan form passes exactly when borrower name, mail and borrowing date are none of `""`, `0`, `null` |
| `BorrowPage.LentSnapshot` | src/components/BookBorrow/BorrowPage.jsx:67-72 | the book copy sent with a loan keeps the book's id, name and year and carries stock − 1, which is non-negative exactly when the book had a copy in stock |
| `PublisherPage.FormFilled` | src/components/Publisher/PublisherPage.jsx:56 | the new-publisher form passes exactly when name, year and address are none of `""`, `0`, `null` |
| `PublisherPage.DraftFilled` | src/components/Publisher/PublisherPage.jsx:78 | the edit draft passes exactly when name, year and address are none of `""`, `0`, `null` |
| `Listing.FindFirst` | src/components/BookBorrow/BorrowPage.jsx:40 | `find` returns nothing exactly when no entry has the id; otherwise it returns the entry at the first position with that id |
| `Listing.FindUnique` | src/components/BookBorrow/BorrowPage.jsx:40 | in a list without repeated ids, `find` on an entry's id returns that entry |
| `Listing.UpdateWhere` | src/components/BookBorrow/BorrowPage.jsx:76-82 | the mapped list has the same length; entries with the id are transformed and every other entry is kept as it was |
| `Listing.ReplaceWhere` | src/components/Publisher/PublisherPage.jsx:86-89 | same length; entries with the id become the new record and the rest are kept; when the new record carries that id, the list's ids are unchanged |
| `Listing.RemoveWhere` | src/components/BookBorrow/BorrowPage.jsx:138 | the filtered list is never longer than the original; when no entry has the id, the list is unchanged |
| `Listing.RemoveMembers` | src/components/BookBorrow/BorrowPage.jsx:138 | the filtered list holds exactly the entries whose id differs from the deleted one |
| `Listing.RemoveConcat` | src/components/BookBorrow/BorrowPage.jsx:138 | filtering distributes over concatenation, so the kept entries stay in their original order |
| `Listing.RemoveUniquePresent` | src/components/BookBorrow/BorrowPage.jsx:138 | with distinct ids, filtering out a listed id removes exactly that one entry and closes the gap |
| `Listing.ReplaceUniqueSame` | src/components/Book/BookPage.jsx:138-140 | with distinct ids, replacing a listed entry's id by that same entry leaves the list unchanged |
| `Listing.RemoveAppended` | src/components/Publisher/PublisherPage.jsx:62-103 | filtering out the id of an entry appended under a fresh id restores the list from before the append |
| `Listing.RemoveKeepsUnique` | src/components/BookBorrow/BorrowPage.jsx:138 | filtering never introduces a repeated id |
| `Listing.Toggle` | src/components/Publisher/PublisherPage.jsx:47-52 | the toggled id's visibility flips, a missing entry counting as hidden; every other id's entry is unchanged |
| `Listing.ToggleTwice` | src/components/Publisher/PublisherPage.jsx:47-52 | toggling the same id twice restores every id's visibility |
| `Seeding.FetchOrSeed` | src/components/Publisher/PublisherPage.jsx:20-42 | a failed first list stores nothing; a non-empty list is stored as is with no create; an empty one creates the samples in order up to and including the first failure, and lists again only when all succeed |
| `BorrowPage.Load` | src/components/BookBorrow/BorrowPage.jsx:21-36 | books are listed first, then loans; a failure raises an error and stops the chain, keeping what was already stored |
| `BorrowPage.SelectBook` | src/components/BookBorrow/BorrowPage.jsx:39-42 | picks the first book with the parsed id; picks nothing when the id does not parse or no book has it; nothing else changes |
| `BorrowPage.AddBorrowing` | src/components/BookBorrow/BorrowPage.jsx:45-96 | rejections in order (missing field, no book, stock ≤ 0) send nothing and change nothing; the one request carries the form and the book's id, name and year with stock − 1; on success exactly the books with that id lose one copy, order and length kept, the loan is appended, the form cleared and the pick dropped; on failure nothing changes |
| `BorrowPage.AddKeepsStocksNonNegative` | src/components/BookBorrow/BorrowPage.jsx:59-82 | when every stock is ≥ 0 and the picked book's stock matches its list entries, every stock is still ≥ 0 after a create |
| `BorrowPage.ValidSelectionCurrent` | src/components/BookBorrow/BorrowPage.jsx:39-62 | with distinct ids, a picked book taken from the list has the stock the list holds for it |
| `BorrowPage.SelectKeepsValid` | src/components/BookBorrow/BorrowPage.jsx:39-42 | picking a book keeps the page invariant: distinct ids, stocks ≥ 0, the picked book is listed |
| `BorrowPage.AddKeepsValid` | src/components/BookBorrow/BorrowPage.jsx:45-96 | creating a loan keeps the same page invariant |
| `BorrowPage.LastCopyThenOutOfStock` | src/components/BookBorrow/BorrowPage.jsx:39-82 | lending the last copy leaves that book at stock 0 and appends one loan; picking it again and resubmitting is refused as out of stock with no request |
| `BorrowPage.UpdateBorrowing` | src/components/BookBorrow/BorrowPage.jsx:103-127 | with nothing being edited it does nothing; otherwise it sends only name, borrowing date and return date; on success the loans with the edited id become the server's loan and editing ends; book stocks and the pick never change |
| `BorrowPage.DeleteBorrowing` | src/components/BookBorrow/BorrowPage.jsx:130-148 | a declined prompt sends nothing and changes nothing; a confirmed, successful delete keeps exactly the loans with another id; a failure changes nothing |
| `BorrowPage.MountedValid` | src/components/BookBorrow/BorrowPage.jsx:10-18 | the page starts with distinct ids, no negative stock and no picked book |
| `BorrowPage.LoadValid` | src/components/BookBorrow/BorrowPage.jsx:21-36 | loading books with distinct ids and stocks ≥ 0 into a page with no pick gives a valid page, whatever the loans reply |
| `BorrowPage.UpdateKeepsValid` | src/components/BookBorrow/BorrowPage.jsx:103-127 | saving a loan edit keeps distinct ids, stocks ≥ 0 and a listed pick |
| `BorrowPage.DeleteKeepsValid` | src/components/BookBorrow/BorrowPage.jsx:130-148 | deleting a loan keeps the same invariant |
| `BorrowPage.DeleteRemovesExactlyOne` | src/components/BookBorrow/BorrowPage.jsx:130-138 | with distinct ids, deleting a listed loan removes that one entry and keeps the rest in order |
| `BookPage.Nest` | src/components/Book/BookPage.jsx:70 | one `{id}` reference per category id, same length, in the same order |
| `BookPage.CategoryIds` | src/components/Book/BookPage.jsx:102 | one id per category of the book, same length, each the category's id as a number, in order |
| `BookPage.CreateRequest` | src/components/Book/BookPage.jsx:66-71 | the create body carries the whole form, `author = {id: authorId}`, `publisher = {id: publisherId}` and one `{id}` per category id in the form's order |
| `BookPage.UpdateRequest` | src/components/Book/BookPage.jsx:123-131 | the update body keeps the edited book's id and takes name, year, stock and nested references from the form; its category ids read back to the form's |
| `BookPage.FlattenNest` | src/components/Book/BookPage.jsx:66-71 | nesting flat ids as `{id}` references and reading them back gives the same ids in order |
| `BookPage.Load` | src/components/Book/BookPage.jsx:26-43 | books, authors, publishers and categories are listed in that order; the first failure raises an error and stops, keeping the lists stored so far |
| `BookPage.SubmitNew` | src/components/Book/BookPage.jsx:47-91 | an incomplete form raises a warning and sends nothing; otherwise it creates, then lists again; only when both succeed is the list replaced by the new listing and the form reset |
| `BookPage.Edit` | src/components/Book/BookPage.jsx:94-104 | the book becomes the one being edited; the form holds its name as a string, its year and stock as numbers, and its author, publisher and category ids in order; nothing else changes |
| `BookPage.UpdateBook` | src/components/Book/BookPage.jsx:107-155 | an incomplete form raises a warning and sends nothing; on success the entries with the returned book's id become that book, ids and order kept, and editing and form are cleared; a failure changes nothing |
| `BookPage.Submit` | src/components/Book/BookPage.jsx:47-206 | an incomplete form is refused with a warning and no request; a complete one sends the update of the edited book while a book is being edited and otherwise starts with the create of the form; while editing it sends at most one request, an update; otherwise only creates and lists; a success always leaves edit mode with an empty form, and anything short of success changes nothing |
| `BookPage.EditThenSubmitUnchanged` | src/components/Book/BookPage.jsx:94-155 | opening a book with all fields set and submitting unchanged sends exactly one update carrying the book as it is; when the server echoes it back, a list with distinct ids that holds it is unchanged |
| `BookPage.CancelLeavesEdit` | src/components/Book/BookPage.jsx:303-315 | cancel after an edit gives the same page as cancel alone, and a submit right after cancel takes the create path and is refused with no request |
| `BookPage.DeleteBook` | src/components/Book/BookPage.jsx:158-167 | always sends the delete with no confirmation; on success keeps exactly the books with another id; a failure changes nothing |
| `BookPage.Cancel` | src/components/Book/BookPage.jsx:303-315 | editing ends and the form is the empty template; the lists are untouched |
| `BookPage.NestCategoryIds` | src/components/Book/BookPage.jsx:94-131 | nesting the prefilled category ids gives each category of the book back as an `{id}` reference in order |
| `BookPage.UnchangedEditRoundTrip` | src/components/Book/BookPage.jsx:94-131 | opening a book for edit and saving without changes sends the book back as it is: same id, fields, author, publisher and category ids |
| `BookPage.StockOnlyEdit` | src/components/Book/BookPage.jsx:123-131 | changing only the stock in the form changes only the stock of the update body |
| `BookPage.OutOfStockEditRejected` | src/components/Book/BookPage.jsx:94-120 | a book with stock 0, opened for edit and saved unchanged, is refused as incomplete with no request |
| `BookPage.DeleteRemovesExactlyOne` | src/components/Book/BookPage.jsx:158-161 | with distinct ids, deleting a listed book removes that one entry and keeps the rest in order |
| `PublisherPage.Load` | src/components/Publisher/PublisherPage.jsx:19-45 | an empty first list with every create succeeding issues exactly the five sample creates in order between two lists, and stores the second listing with an info notice; a non-empty list is stored with no create; a failure stores nothing, raises no notice and stops |
| `PublisherPage.ToggleDetails` | src/components/Publisher/PublisherPage.jsx:47-52 | flips the given id's visibility and changes nothing else |
| `PublisherPage.AddPublisher` | src/components/Publisher/PublisherPage.jsx:55-69 | a falsy name, year or address raises a warning and sends nothing; on success the returned publisher is appended and the form reset; a failure changes nothing |
| `PublisherPage.UpdatePublisher` | src/components/Publisher/PublisherPage.jsx:72-96 | no draft raises an error and a falsy field a warning, both with no request; on success the entries with the draft's id become the draft, ids kept, and the draft is cleared |
| `PublisherPage.DeletePublisher` | src/components/Publisher/PublisherPage.jsx:99-110 | only a confirmed prompt sends the delete; success keeps exactly the publishers with another id; a failure changes nothing |
| `PublisherPage.UpdateIgnoresResponse` | src/components/Publisher/PublisherPage.jsx:83-89 | the page after an update does not depend on the body the server answers with |
| `PublisherPage.AddThenDeleteRestores` | src/components/Publisher/PublisherPage.jsx:55-110 | deleting a publisher just added under a fresh id restores the list |
| `PublisherPage.DeleteRemovesExactlyOne` | src/components/Publisher/PublisherPage.jsx:99-103 | with distinct ids, deleting a listed publisher removes that one entry and keeps the rest in order |
| `AuthorPage.Load` | src/components/Author/AuthorPage.jsx:22-50 | an empty first list with every create succeeding issues exactly the five sample creates in order between two lists, and stores the second listing; a non-empty list is stored with no create; a failure stores nothing and stops; no path raises a notice |
| `AuthorPage.ToggleDetails` | src/components/Author/AuthorPage.jsx:53-58 | flips the given id's visibility and changes nothing else |
| `AuthorPage.AddAuthor` | src/components/Author/AuthorPage.jsx:61-71 | always sends the form as it stands; on success the returned author is appended and the form reset; a failure changes nothing |
| `AuthorPage.UpdateAuthor` | src/components/Author/AuthorPage.jsx:74-89 | no draft raises an error with no request; on success the entries with the draft's id become the draft, ids kept, and the draft is cleared; a failure changes nothing |
| `AuthorPage.DeleteAuthor` | src/components/Author/AuthorPage.jsx:92-103 | only a confirmed prompt sends the delete; success keeps exactly the authors with another id; a failure changes nothing |
| `AuthorPage.UpdateIgnoresResponse` | src/components/Author/AuthorPage.jsx:74-84 | the page after an update does not depend on the body the server answers with |
| `AuthorPage.AddThenDeleteRestores` | src/components/Author/AuthorPage.jsx:61-103 | deleting an author just added under a fresh id restores the list |
| `AuthorPage.DeleteRemovesExactlyOne` | src/components/Author/AuthorPage.jsx:92-96 | with distinct ids, deleting a listed author removes that one entry and keeps the rest in order |
| `CategoryPage.Load` | src/components/Category/CategoryPage.jsx:14-36 | an empty first list with every create succeeding issues exactly the five sample creates in order between two lists, and stores the second listing; a non-empty list is stored with no create; a failure stores nothing and stops; no path raises a notice |
| `CategoryPage.ToggleDetails` | src/components/Category/CategoryPage.jsx:39-44 | flips the given id's visibility and changes nothing else |
| `CategoryPage.AddCategory` | src/components/Category/CategoryPage.jsx:47-57 | always sends the form as it stands; on success the returned category is appended and the form reset to an empty name and description; a failure changes nothing |
| `CategoryPage.UpdateCategory` | src/components/Category/CategoryPage.jsx:60-74 | no draft raises an error with no request; on success the entries with the draft's id become the draft, ids kept, and the draft is cleared; a failure changes nothing |
| `CategoryPage.DeleteCategory` | src/components/Category/CategoryPage.jsx:77-88 | only a confirmed prompt sends the delete; success keeps exactly the categories with another id; a failure changes nothing |
| `CategoryPage.UpdateIgnoresResponse` | src/components/Category/CategoryPage.jsx:60-68 | the page after an update does not depend on the body the server answers with |
| `CategoryPage.AddThenDeleteRestores` | src/components/Category/CategoryPage.jsx:47-88 | deleting a category just added under a fresh id restores the list |
| `CategoryPage.DeleteRemovesExactlyOne` | src/components/Category/CategoryPage.jsx:77-81 | with distinct ids, deleting a listed category removes that one entry and keeps the rest in order |

## Left out

- The API modules under `src/api/` are thin HTTP wrappers. Each call is an
  abstract `Reply` supplied to the step function. The server's own state
  (for example its copy of a book's stock) is not modelled.
- `src/App.jsx`, the navigation bar and the home page hold routing and
  static markup and no logic.
- Rendering, styling, toast texts and console logging are left out. Only
  the kind of notice is kept.
- Asynchrony is left out: every handler runs as one atomic step. Some
  handlers use the list captured at call time rather than a functional
  updater (Books update and delete, Borrowing create). Interleaved
  responses and responses that arrive after unmount are not modelled.
- The confirmation prompt is a `bool` input. The `disabled` flag on
  out-of-stock options in the book picker is presentation only; the stock
  guard in the create handler is what the model relies on.
- The `required` attributes on the book form's inputs and pickers are
  presentation only and not modelled: the browser refuses an empty field
  before the submit handler runs, and the model covers the handler's own
  truthiness check, which is what a prefilled `0` stock reaches.
- The `onChange` setters that write one form field are not modelled. Every
  handler takes the drafts as they stand in the page state.
- JavaScript coercion beyond truthiness is not modelled. `parseInt` is an
  `Option<int>` input. Numbers are integers: floating point and `NaN` are
  not modelled. Ids used as `visibleDetails` keys are not stringified.
- Server records carry only the fields the pages read or write. Any further
  fields a spread would copy along are not modelled.
