/** The library's records (authors, books, members, loans) and the two
    read-shaped views built from them. Loan dates are day numbers; the other
    dates are kept as the text the records carry.
 */
module Types {

  datatype Author = Author(id: string, name: string, bio: string, birthDate: string)

  datatype BookStatus = Available | Borrowed

  datatype Book = Book(
    id: string,
    title: string,
    authorId: string,
    isbn: string,
    publishedDate: string,
    description: string,
    coverImage: string,
    status: BookStatus)

  datatype User = User(id: string, name: string, email: string, memberSince: string)

  /** `returnedDate: string | null`: null, the empty text, or a return day. */
  datatype ReturnDate = NotReturned | EmptyText | ReturnedOn(day: int)
  {
    /** JavaScript truthiness: null and the empty string are falsy. */
    predicate Truthy() { ReturnedOn? }
  }

  datatype BorrowedRecord = BorrowedRecord(
    id: string,
    bookId: string,
    userId: string,
    borrowedDate: int,
    dueDate: int,
    returnedDate: ReturnDate)

  /** A book with its author resolved. `{...book, author}` also copies `authorId`,
      so the view keeps it even though the declared type omits it. */
  datatype PopulatedBook = PopulatedBook(
    id: string,
    title: string,
    authorId: string,
    isbn: string,
    publishedDate: string,
    description: string,
    coverImage: string,
    status: BookStatus,
    author: Author)

  datatype LoanStatus = OnLoan | Returned

  datatype PopulatedBorrowedRecord = PopulatedBorrowedRecord(
    id: string,
    bookTitle: string,
    authorName: string,
    userName: string,
    borrowedDate: int,
    dueDate: int,
    status: LoanStatus)

  function AuthorKey(a: Author): string { a.id }
  function BookKey(b: Book): string { b.id }
  function UserKey(u: User): string { u.id }
  function RecordKey(r: BorrowedRecord): string { r.id }

  /** `{...book, author}`. */
  function WithAuthor(book: Book, author: Author): PopulatedBook
  {
    PopulatedBook(book.id, book.title, book.authorId, book.isbn, book.publishedDate,
                  book.description, book.coverImage, book.status, author)
  }

  /** The book fields of a populated book. */
  function BookPart(p: PopulatedBook): Book
  {
    Book(p.id, p.title, p.authorId, p.isbn, p.publishedDate, p.description, p.coverImage, p.status)
  }

  /** `record.returnedDate ? 'Returned' : 'On Loan'`. */
  function LoanStatusOf(d: ReturnDate): LoanStatus
  {
    if d.Truthy() then Returned else OnLoan
  }

  /** An open loan of the book `bookId`: a record for it whose `returnedDate` is null. */
  predicate IsOpenLoanOf(r: BorrowedRecord, bookId: string)
  {
    r.bookId == bookId && r.returnedDate == NotReturned
  }

  /** The number of days from 1970-01-01 to the given day of the proleptic
      Gregorian calendar; it stands for the `yyyy-MM-dd` text of a loan date. */
  function DayNumber(year: int, month: int, day: int): int
    requires 1 <= month <= 12
  {
    var y := if month <= 2 then year - 1 else year;
    var era := y / 400;
    var yearOfEra := y - era * 400;
    var shiftedMonth := if month > 2 then month - 3 else month + 9;
    var dayOfYear := (153 * shiftedMonth + 2) / 5 + day - 1;
    var dayOfEra := yearOfEra * 365 + yearOfEra / 4 - yearOfEra / 100 + dayOfYear;
    era * 146097 + dayOfEra - 719468
  }
}
