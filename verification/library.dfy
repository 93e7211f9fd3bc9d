/** The records the remote service returns, as the pages hold them in their
    lists. Every id is assigned by the server. */
module Library {
  import opened Values

  /** A `{id}` reference from a book to its author, publisher or a category. */
  datatype Ref = Ref(id: int)

  datatype Book = Book(
    id: int,
    name: string,
    publicationYear: int,
    stock: int,
    author: Ref,
    publisher: Ref,
    categories: seq<Ref>)

  /** The copy of a book's display fields a borrowing carries. */
  datatype BookSnapshot = BookSnapshot(id: int, name: string, publicationYear: int, stock: int)

  /** A loan. `returnDate` is `Null` (or empty) while the loan is open. */
  datatype Borrowing = Borrowing(
    id: int,
    borrowerName: Value,
    borrowerMail: Value,
    borrowingDate: Value,
    returnDate: Value,
    book: Option<BookSnapshot>)

  /** Publishers, authors and categories are written back into their lists
      from the local edit draft, so their fields are form values. */
  datatype Publisher = Publisher(id: int, name: Value, establishmentYear: Value, address: Value)

  datatype Author = Author(id: int, name: Value, birthDate: Value, country: Value)

  datatype Category = Category(id: int, name: Value, description: Value)

  function BookId(b: Book): int { b.id }
  function BorrowingId(b: Borrowing): int { b.id }
  function PublisherId(p: Publisher): int { p.id }
  function AuthorId(a: Author): int { a.id }
  function CategoryId(c: Category): int { c.id }
}
