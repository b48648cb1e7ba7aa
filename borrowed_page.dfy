/** The borrowed-books page's own join: each loan record with its book and
    member, without the author (the author name is always "Unknown"), keeping
    only the loans still on loan.
 */
module BorrowedPage {
  import opened Lookup
  import opened Types
  import Data

  /** The row the page builds for a loan record; unlike the library's view it
      also carries the book and member ids. */
  datatype LoanRow = LoanRow(
    id: string,
    bookId: string,
    userId: string,
    bookTitle: string,
    authorName: string,
    userName: string,
    borrowedDate: int,
    dueDate: int,
    status: LoanStatus)

  /** The record's book and member both exist; the author is not consulted. */
  ghost predicate Resolves(record: BorrowedRecord, books: seq<Book>, users: seq<User>)
  {
    HasId(books, BookKey, record.bookId) && HasId(users, UserKey, record.userId)
  }

  /** `x` is the row of `record` built from the first matching book and member. */
  ghost predicate IsRowOf(x: LoanRow, record: BorrowedRecord, books: seq<Book>, users: seq<User>)
  {
    exists b, u ::
      && IsFirstWithId(books, BookKey, record.bookId, b)
      && IsFirstWithId(users, UserKey, record.userId, u)
      && x == LoanRow(record.id, b.id, u.id, b.title, "Unknown", u.name, record.borrowedDate, record.dueDate,
                      if record.returnedDate.Truthy() then Returned else OnLoan)
  }

  /** The `map` callback: the row of one record, or null when its book or member is missing. */
  function RowOf(record: BorrowedRecord, books: seq<Book>, users: seq<User>): Option<LoanRow>
  {
    var book := FindById(books, BookKey, record.bookId);
    var user := FindById(users, UserKey, record.userId);
    if book.None? || user.None? then None
    else Some(LoanRow(record.id, book.value.id, user.value.id, book.value.title, "Unknown", user.value.name,
                      record.borrowedDate, record.dueDate, LoanStatusOf(record.returnedDate)))
  }

  function RowMaker(books: seq<Book>, users: seq<User>): BorrowedRecord -> Option<LoanRow>
  {
    record => RowOf(record, books, users)
  }

  predicate IsOnLoan(row: LoanRow)
  {
    row.status == OnLoan
  }

  /** The rows of the records still on loan whose book and member exist, in record order. */
  function ActiveLoans(records: Option<seq<BorrowedRecord>>, books: Option<seq<Book>>, users: Option<seq<User>>)
    : (r: seq<LoanRow>)
    ensures |r| <= |OrEmpty(records)|
    ensures forall x :: x in r ==> x.status == OnLoan && x.authorName == "Unknown"
  {
    Filter(Somes(MapSeq(OrEmpty(records), RowMaker(OrEmpty(books), OrEmpty(users)))), IsOnLoan)
  }

  /** A record gets a row exactly when its book and member exist; the row takes
      the ids, title and name of the first matching book and member. */
  lemma RowOfJoins(record: BorrowedRecord, books: seq<Book>, users: seq<User>)
    ensures RowOf(record, books, users).Some? <==> Resolves(record, books, users)
    ensures RowOf(record, books, users).Some? ==> IsRowOf(RowOf(record, books, users).value, record, books, users)
    ensures RowOf(record, books, users).Some? ==>
              RowOf(record, books, users).value.bookId == record.bookId &&
              RowOf(record, books, users).value.userId == record.userId
  {
  }

  /** Lists that are still null read as empty, so while the books or the
      members have not arrived the page shows no rows. */
  lemma ActiveLoansReadsNullAsEmpty(records: Option<seq<BorrowedRecord>>, books: Option<seq<Book>>,
                                    users: Option<seq<User>>)
    ensures ActiveLoans(records, books, users)
         == ActiveLoans(Some(OrEmpty(records)), Some(OrEmpty(books)), Some(OrEmpty(users)))
    ensures books.None? || users.None? ==> ActiveLoans(records, books, users) == []
  {
    if books.None? || users.None? {
      SomesOfNones(MapSeq(OrEmpty(records), RowMaker(OrEmpty(books), OrEmpty(users))));
    }
  }

  /** The page keeps record order: the rows of a concatenation are the rows of each part. */
  lemma ActiveLoansAppend(a: seq<BorrowedRecord>, b: seq<BorrowedRecord>, books: seq<Book>, users: seq<User>)
    ensures ActiveLoans(Some(a + b), Some(books), Some(users))
         == ActiveLoans(Some(a), Some(books), Some(users)) + ActiveLoans(Some(b), Some(books), Some(users))
  {
    var f := RowMaker(books, users);
    MapSeqAppend(a, b, f);
    SomesAppend(MapSeq(a, f), MapSeq(b, f));
    FilterAppend(Somes(MapSeq(a, f)), Somes(MapSeq(b, f)), IsOnLoan);
  }

  /** One record yields one row exactly when its book and member exist and its
      `returnedDate` is falsy, and that row is its join. */
  lemma ActiveLoansSingle(record: BorrowedRecord, books: seq<Book>, users: seq<User>)
    ensures var r := ActiveLoans(Some([record]), Some(books), Some(users));
      && (r != [] <==> Resolves(record, books, users) && !record.returnedDate.Truthy())
      && (r != [] ==> |r| == 1 && IsRowOf(r[0], record, books, users))
  {
  }

  /** The library's view of a row, forgetting the book and member ids. */
  function AsView(row: LoanRow): PopulatedBorrowedRecord
  {
    PopulatedBorrowedRecord(row.id, row.bookTitle, row.authorName, row.userName, row.borrowedDate, row.dueDate, row.status)
  }

  /** The library's view with the author name the page writes. */
  function WithoutAuthor(view: PopulatedBorrowedRecord): PopulatedBorrowedRecord
  {
    view.(authorName := "Unknown")
  }

  predicate IsOnLoanView(view: PopulatedBorrowedRecord)
  {
    view.status == OnLoan
  }

  /** The one-record case of `AgreesWithLibraryJoin`. */
  lemma SingleAgrees(record: BorrowedRecord, books: seq<Book>, users: seq<User>, authors: seq<Author>)
    requires forall b :: b in books ==> HasId(authors, AuthorKey, b.authorId)
    ensures MapSeq(ActiveLoans(Some([record]), Some(books), Some(users)), AsView)
         == MapSeq(Filter(Data.PopulatedBorrowedRecords([record], books, users, authors), IsOnLoanView), WithoutAuthor)
  {
  }

  /** When every book's author exists, the page shows exactly the library's
      on-loan views, in the same order, with the author name left "Unknown". */
  lemma {:induction false} AgreesWithLibraryJoin(records: seq<BorrowedRecord>, books: seq<Book>, users: seq<User>,
                                                 authors: seq<Author>)
    requires forall b :: b in books ==> HasId(authors, AuthorKey, b.authorId)
    ensures MapSeq(ActiveLoans(Some(records), Some(books), Some(users)), AsView)
         == MapSeq(Filter(Data.PopulatedBorrowedRecords(records, books, users, authors), IsOnLoanView), WithoutAuthor)
  {
    if records == [] {
    } else {
      var head, tail := [records[0]], records[1..];
      assert records == head + tail;
      ActiveLoansAppend(head, tail, books, users);
      Data.PopulatedBorrowedRecordsAppend(head, tail, books, users, authors);
      var libHead := Data.PopulatedBorrowedRecords(head, books, users, authors);
      var libTail := Data.PopulatedBorrowedRecords(tail, books, users, authors);
      FilterAppend(libHead, libTail, IsOnLoanView);
      MapSeqAppend(ActiveLoans(Some(head), Some(books), Some(users)), ActiveLoans(Some(tail), Some(books), Some(users)), AsView);
      MapSeqAppend(Filter(libHead, IsOnLoanView), Filter(libTail, IsOnLoanView), WithoutAuthor);
      SingleAgrees(records[0], books, users, authors);
      AgreesWithLibraryJoin(tail, books, users, authors);
    }
  }
}
