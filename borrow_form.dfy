/** Lending a book to a member from the borrow form. The form first checks that
    a member was chosen, then that someone is signed in; it then writes a new
    open loan record under a freshly pushed key and, in a second write, merges
    `status: 'borrowed'` into the book. The two tables live in one store.
 */
module BorrowForm {
  import opened Lookup
  import opened Types
  import Data

  /** The signed-in account, if any. Its uid only names the per-account path,
      and this model keeps a single store. */
  datatype Auth = SignedOut | SignedIn(uid: string)

  /** Which of the two writes, if any, the database rejects. */
  datatype WriteFault = NoFault | SetFails | UpdateFails

  /** What the person submitting the form is told. */
  datatype Outcome = InvalidForm | NotSignedIn | DatabaseError | Lent(record: BorrowedRecord)

  /** The books table and the loan-records table, each keyed by id. */
  datatype Tables = Tables(books: map<string, Book>, records: map<string, BorrowedRecord>)

  /** `add(borrowedDate, { weeks: 2 })`. */
  const LoanDays := 14

  /** Every entry is stored under its own id. */
  ghost predicate StoredUnderOwnId(t: Tables)
  {
    && (forall k :: k in t.books ==> t.books[k].id == k)
    && (forall k :: k in t.records ==> t.records[k].id == k)
  }

  /** A book is marked borrowed exactly when some record of it is still open. */
  ghost predicate LoanConsistent(t: Tables)
  {
    forall id :: id in t.books ==>
      (t.books[id].status == Borrowed <==> exists k :: k in t.records && IsOpenLoanOf(t.records[k], id))
  }

  /** No book has two open records. */
  ghost predicate SingleOpenLoan(t: Tables)
  {
    forall k1, k2 ::
      && k1 in t.records && k2 in t.records
      && t.records[k1].returnedDate == NotReturned && t.records[k2].returnedDate == NotReturned
      && t.records[k1].bookId == t.records[k2].bookId
      ==> k1 == k2
  }

  /** The tables after the form is submitted for the book `bookId` and the
      member `userId` on day `today`, the new record going under the pushed key
      `key`, and what the submitter is told. */
  function Submit(t: Tables, auth: Auth, bookId: string, userId: string, today: int, key: string, fault: WriteFault)
    : (r: (Tables, Outcome))
    requires bookId in t.books && key !in t.records
    ensures r.0 == t <==> key !in r.0.records
    ensures r.1.Lent? ==> key in r.0.records && r.0.records[key] == r.1.record
  {
    if userId == "" then (t, InvalidForm)
    else if auth.SignedOut? then (t, NotSignedIn)
    else if fault == SetFails then (t, DatabaseError)
    else
      var record := BorrowedRecord(key, bookId, userId, today, today + LoanDays, NotReturned);
      var afterSet := t.(records := t.records[key := record]);
      if fault == UpdateFails then (afterSet, DatabaseError)
      else (afterSet.(books := afterSet.books[bookId := afterSet.books[bookId].(status := Borrowed)]), Lent(record))
  }

  /** Nothing is written without a chosen member or without a signed-in account;
      the loan goes through exactly when both are there and neither write fails.
      A failed `set` writes nothing; a failed `update` leaves the new record in
      place and the books untouched. Either failure is reported. */
  lemma SubmitGates(t: Tables, auth: Auth, bookId: string, userId: string, today: int, key: string, fault: WriteFault)
    requires bookId in t.books && key !in t.records
    ensures var (after, outcome) := Submit(t, auth, bookId, userId, today, key, fault);
      && (userId == "" ==> after == t && outcome == InvalidForm)
      && (userId != "" && auth.SignedOut? ==> after == t && outcome == NotSignedIn)
      && (outcome.Lent? <==> userId != "" && auth.SignedIn? && fault == NoFault)
      && (fault == SetFails ==> after == t)
      && (userId != "" && auth.SignedIn? && fault == SetFails ==> outcome == DatabaseError)
      && (userId != "" && auth.SignedIn? && fault == UpdateFails ==>
            && after.books == t.books
            && after.records == t.records[key := BorrowedRecord(key, bookId, userId, today, today + 14, NotReturned)]
            && outcome == DatabaseError)
  {
  }

  /** A lent book gets a new open record under the pushed key, due two weeks
      after it was borrowed, and the book is then marked borrowed. */
  lemma SubmitOpensLoan(t: Tables, auth: Auth, bookId: string, userId: string, today: int, key: string, fault: WriteFault)
    requires bookId in t.books && key !in t.records
    ensures var (after, outcome) := Submit(t, auth, bookId, userId, today, key, fault);
      outcome.Lent? ==>
        && key in after.records && after.records[key] == outcome.record
        && outcome.record.id == key
        && outcome.record.bookId == bookId
        && outcome.record.userId == userId
        && outcome.record.borrowedDate == today
        && outcome.record.dueDate == outcome.record.borrowedDate + 14
        && outcome.record.returnedDate == NotReturned
        && after.books[bookId].status == Borrowed
  {
  }

  /** Existing records are untouched and at most the pushed key is added; the
      book keeps every field but `status`, and every other book is untouched. */
  lemma SubmitChangesNothingElse(t: Tables, auth: Auth, bookId: string, userId: string, today: int, key: string,
                                 fault: WriteFault)
    requires bookId in t.books && key !in t.records
    ensures var after := Submit(t, auth, bookId, userId, today, key, fault).0;
      && t.records.Keys <= after.records.Keys <= t.records.Keys + {key}
      && (forall k :: k in t.records ==> after.records[k] == t.records[k])
      && after.books.Keys == t.books.Keys
      && (forall id :: id in t.books && id != bookId ==> after.books[id] == t.books[id])
      && after.books[bookId].(status := t.books[bookId].status) == t.books[bookId]
  {
  }

  /** Every entry stays stored under its own id. */
  lemma SubmitKeepsEntriesUnderOwnId(t: Tables, auth: Auth, bookId: string, userId: string, today: int, key: string,
                                     fault: WriteFault)
    requires bookId in t.books && key !in t.records
    requires StoredUnderOwnId(t)
    ensures StoredUnderOwnId(Submit(t, auth, bookId, userId, today, key, fault).0)
  {
  }

  /** When both writes land, or neither does, "borrowed iff an open record
      exists" survives the submission. */
  lemma SubmitPreservesLoanConsistency(t: Tables, auth: Auth, bookId: string, userId: string, today: int, key: string,
                                       fault: WriteFault)
    requires bookId in t.books && key !in t.records
    requires LoanConsistent(t)
    requires fault != UpdateFails
    ensures LoanConsistent(Submit(t, auth, bookId, userId, today, key, fault).0)
  {
    var (after, outcome) := Submit(t, auth, bookId, userId, today, key, fault);
    if outcome.Lent? {
      assert forall k :: k in t.records ==> k in after.records && after.records[k] == t.records[k];
      assert IsOpenLoanOf(after.records[key], bookId);
    }
  }

  /** A book marked available ends with exactly one open record. Availability
      is assumed, not checked: the handler does not look at the status, and the
      only guard in the source is the "Borrow Book" menu item, which is disabled
      for borrowed books. */
  lemma SubmitPreservesSingleOpenLoan(t: Tables, auth: Auth, bookId: string, userId: string, today: int, key: string,
                                      fault: WriteFault)
    requires bookId in t.books && key !in t.records
    requires LoanConsistent(t) && SingleOpenLoan(t)
    requires t.books[bookId].status == Available
    ensures SingleOpenLoan(Submit(t, auth, bookId, userId, today, key, fault).0)
  {
  }

  /** The submission itself does not check the book's status: lending a book
      that is already out leaves it with two open records. */
  lemma SubmitOnBorrowedBookOpensSecondLoan(t: Tables, auth: Auth, bookId: string, userId: string, today: int,
                                            key: string)
    requires bookId in t.books && key !in t.records
    requires LoanConsistent(t) && t.books[bookId].status == Borrowed
    requires userId != "" && auth.SignedIn?
    ensures !SingleOpenLoan(Submit(t, auth, bookId, userId, today, key, NoFault).0)
  {
    var after := Submit(t, auth, bookId, userId, today, key, NoFault).0;
    var k :| k in t.records && IsOpenLoanOf(t.records[k], bookId);
    assert k != key && after.records[k] == t.records[k] && IsOpenLoanOf(after.records[key], bookId);
  }

  /** The two writes are separate: when the second one fails after the first
      landed, an available book is left with an open record. */
  lemma FailedUpdateBreaksLoanConsistency(t: Tables, auth: Auth, bookId: string, userId: string, today: int,
                                          key: string)
    requires bookId in t.books && key !in t.records
    requires t.books[bookId].status == Available
    requires userId != "" && auth.SignedIn?
    ensures !LoanConsistent(Submit(t, auth, bookId, userId, today, key, UpdateFails).0)
  {
    var after := Submit(t, auth, bookId, userId, today, key, UpdateFails).0;
    assert IsOpenLoanOf(after.records[key], bookId);
  }

  /** The tables the seeder writes: every seed book and seed loan record stored
      under its own id. */
  function SeedTables(): Tables
  {
    Tables(KeyedById(Data.Books, BookKey), KeyedById(Data.BorrowedRecords, RecordKey))
  }

  /** Tables built by keying lists by id are keyed by id, and they are loan
      consistent when the lists are: a book is marked borrowed iff it has an
      open record. */
  lemma KeyedTablesLoanConsistent(books: seq<Book>, records: seq<BorrowedRecord>)
    requires UniqueIds(records, RecordKey)
    requires Data.StatusMatchesLoans(books, records)
    ensures var t := Tables(KeyedById(books, BookKey), KeyedById(records, RecordKey));
      StoredUnderOwnId(t) && LoanConsistent(t)
  {
    var t := Tables(KeyedById(books, BookKey), KeyedById(records, RecordKey));
    forall id | id in t.books
      ensures t.books[id].status == Borrowed <==> exists k :: k in t.records && IsOpenLoanOf(t.records[k], id)
    {
      var i :| 0 <= i < |books| && books[i] == t.books[id];
      if j :| 0 <= j < |records| && IsOpenLoanOf(records[j], id) {
        KeyedByIdFindsEach(records, RecordKey, j);
        assert IsOpenLoanOf(t.records[records[j].id], id);
      }
      if k :| k in t.records && IsOpenLoanOf(t.records[k], id) {
        var j :| 0 <= j < |records| && records[j] == t.records[k];
        assert IsOpenLoanOf(records[j], books[i].id);
      }
    }
  }

  /** No two seed loans still open are of the same book. */
  lemma SeedOpenLoansDistinct()
    ensures forall r1, r2 :: r1 in Data.BorrowedRecords && r2 in Data.BorrowedRecords
              && r1.returnedDate == NotReturned && r2.returnedDate == NotReturned && r1.bookId == r2.bookId
              ==> r1 == r2
  {
  }

  /** The store the seeder leaves behind satisfies the invariants the borrow
      step is proved against. */
  lemma SeedTablesConsistent()
    ensures StoredUnderOwnId(SeedTables())
    ensures LoanConsistent(SeedTables())
    ensures SingleOpenLoan(SeedTables())
  {
    Data.SeedIdsUnique();
    Data.SeedStatusMatchesLoans();
    KeyedTablesLoanConsistent(Data.Books, Data.BorrowedRecords);
    SeedOpenLoansDistinct();
  }

  /** The store the form writes to. */
  class LibraryStore {
    var books: map<string, Book>
    var borrowedRecords: map<string, BorrowedRecord>

    function Snapshot(): Tables
      reads this
    {
      Tables(books, borrowedRecords)
    }

    constructor (books: map<string, Book>, borrowedRecords: map<string, BorrowedRecord>)
      ensures Snapshot() == Tables(books, borrowedRecords)
    {
      this.books := books;
      this.borrowedRecords := borrowedRecords;
    }

    /** Submits the borrow form for `book` with the chosen member `userId` on
        day `today`; `newKey` is the key the database pushed for the record. */
    method SubmitBorrow(auth: Auth, book: Book, userId: string, today: int, newKey: string, fault: WriteFault)
      returns (outcome: Outcome)
      requires book.id in books
      requires newKey !in borrowedRecords
      modifies this
      ensures (Snapshot(), outcome) == Submit(old(Snapshot()), auth, book.id, userId, today, newKey, fault)
      ensures old(LoanConsistent(Snapshot())) && fault != UpdateFails ==> LoanConsistent(Snapshot())
      ensures old(StoredUnderOwnId(Snapshot())) ==> StoredUnderOwnId(Snapshot())
    {
      ghost var before := Snapshot();
      if StoredUnderOwnId(before) {
        SubmitKeepsEntriesUnderOwnId(before, auth, book.id, userId, today, newKey, fault);
      }
      if fault != UpdateFails && LoanConsistent(before) {
        SubmitPreservesLoanConsistency(before, auth, book.id, userId, today, newKey, fault);
      }
      if userId == "" {
        return InvalidForm;
      }
      if auth.SignedOut? {
        return NotSignedIn;
      }
      var borrowedDate := today;
      var dueDate := borrowedDate + LoanDays;
      var record := BorrowedRecord(newKey, book.id, userId, borrowedDate, dueDate, NotReturned);
      if fault == SetFails {
        return DatabaseError;
      }
      borrowedRecords := borrowedRecords[newKey := record];
      if fault == UpdateFails {
        return DatabaseError;
      }
      books := books[book.id := books[book.id].(status := Borrowed)];
      outcome := Lent(record);
    }
  }
}
