/** The library's seed collections and its two joins: books with their
    authors, and loan records with their book, member and author.
 */
module Data {
  import opened Lookup
  import opened Types

  // ---------------------------------------------------------------------------
  // Seed collections
  // ---------------------------------------------------------------------------

  const Authors: seq<Author> := [
    Author("1", "George Orwell", "English novelist, essayist, journalist and critic.", "1903-06-25"),
    Author("2", "Jane Austen", "English novelist known for her romantic fiction.", "1775-12-16"),
    Author("3", "J.R.R. Tolkien", "English writer, poet, philologist, and academic.", "1892-01-03"),
    Author("4", "Agatha Christie", "English writer known for her detective novels.", "1890-09-15")
  ]

  /** Cover images come from a placeholder table that is not part of this model;
      `Cover(i)` stands for the URL of its entry `i`. */
  function Cover(i: nat): string
  {
    "placeholder-image-" + [(i % 10) as char + '0']
  }

  const Books: seq<Book> := [
    Book("1", "1984", "1", "978-0451524935", "1949-06-08",
         "A dystopian social science fiction novel and cautionary tale.", Cover(0), Borrowed),
    Book("2", "Pride and Prejudice", "2", "978-1503290563", "1813-01-28",
         "A romantic novel of manners.", Cover(1), Available),
    Book("3", "The Hobbit", "3", "978-0345339683", "1937-09-21",
         "A children's fantasy novel.", Cover(2), Available),
    Book("4", "Animal Farm", "1", "978-0451526342", "1945-08-17",
         "A beast fable, in the form of a satirical allegorical novella.", Cover(3), Available),
    Book("5", "Sense and Sensibility", "2", "978-15032905 Sense", "1811-10-30",
         "A novel by Jane Austen.", Cover(4), Borrowed),
    Book("6", "The Lord of the Rings", "3", "978-0618640157", "1954-07-29",
         "An epic high-fantasy novel.", Cover(5), Available),
    Book("7", "And Then There Were None", "4", "978-0312330873", "1939-11-06",
         "A mystery novel.", Cover(0), Borrowed)
  ]

  const Users: seq<User> := [
    User("1", "Alice Johnson", "alice@example.com", "2023-01-15"),
    User("2", "Bob Smith", "bob@example.com", "2023-03-22"),
    User("3", "Charlie Brown", "charlie@example.com", "2023-05-30")
  ]

  const BorrowedRecords: seq<BorrowedRecord> := [
    BorrowedRecord("1", "1", "1", DayNumber(2024, 5, 1), DayNumber(2024, 5, 22), NotReturned),
    BorrowedRecord("2", "5", "2", DayNumber(2024, 5, 10), DayNumber(2024, 5, 31), NotReturned),
    BorrowedRecord("3", "2", "1", DayNumber(2024, 4, 15), DayNumber(2024, 5, 6), ReturnedOn(DayNumber(2024, 5, 5))),
    BorrowedRecord("4", "7", "3", DayNumber(2024, 5, 18), DayNumber(2024, 6, 8), NotReturned)
  ]

  /** A book is marked borrowed exactly when some loan record of it is still open. */
  ghost predicate StatusMatchesLoans(books: seq<Book>, records: seq<BorrowedRecord>)
  {
    forall i :: 0 <= i < |books| ==>
      (books[i].status == Borrowed <==> exists j :: 0 <= j < |records| && IsOpenLoanOf(records[j], books[i].id))
  }

  // ---------------------------------------------------------------------------
  // Books joined with their authors
  // ---------------------------------------------------------------------------

  /** The author a book whose author cannot be found is shown with. */
  const UnknownAuthor := Author("unknown", "Unknown Author", "", "")

  function PopulateBook(book: Book, authors: seq<Author>): PopulatedBook
  {
    match FindById(authors, AuthorKey, book.authorId)
    case None => WithAuthor(book, UnknownAuthor)
    case Some(author) => WithAuthor(book, author)
  }

  function BookJoiner(authors: seq<Author>): Book -> PopulatedBook
  {
    book => PopulateBook(book, authors)
  }

  /** Every book, in order, with all its fields and the first author carrying
      its `authorId`, or the unknown-author placeholder when there is none. */
  function PopulatedBooks(books: seq<Book>, authors: seq<Author>): (r: seq<PopulatedBook>)
    ensures |r| == |books|
    ensures forall i :: 0 <= i < |books| ==> BookPart(r[i]) == books[i]
    ensures forall i :: 0 <= i < |books| && HasId(authors, AuthorKey, books[i].authorId) ==>
              IsFirstWithId(authors, AuthorKey, books[i].authorId, r[i].author)
    ensures forall i :: 0 <= i < |books| && !HasId(authors, AuthorKey, books[i].authorId) ==>
              r[i].author == UnknownAuthor
  {
    MapSeq(books, BookJoiner(authors))
  }

  // ---------------------------------------------------------------------------
  // Loan records joined with their book, member and author
  // ---------------------------------------------------------------------------

  /** The record's book, its member, and the author of its (first matching) book all exist. */
  ghost predicate Resolves(record: BorrowedRecord, books: seq<Book>, users: seq<User>, authors: seq<Author>)
  {
    && HasId(users, UserKey, record.userId)
    && exists b :: IsFirstWithId(books, BookKey, record.bookId, b) && HasId(authors, AuthorKey, b.authorId)
  }

  /** `x` is the view of `record` built from the first book, member and author that match it. */
  ghost predicate IsJoinOf(x: PopulatedBorrowedRecord, record: BorrowedRecord,
                           books: seq<Book>, users: seq<User>, authors: seq<Author>)
  {
    exists b, u, a ::
      && IsFirstWithId(books, BookKey, record.bookId, b)
      && IsFirstWithId(users, UserKey, record.userId, u)
      && IsFirstWithId(authors, AuthorKey, b.authorId, a)
      && x == PopulatedBorrowedRecord(record.id, b.title, a.name, u.name, record.borrowedDate, record.dueDate,
                                      if record.returnedDate.Truthy() then Returned else OnLoan)
  }

  /** The `map` callback: the view of one record, or null when a reference
      dangles. A record is dropped exactly when one of its references dangles;
      a kept record is joined with the first matching book, member and author. */
  function PopulateRecord(record: BorrowedRecord, books: seq<Book>, users: seq<User>, authors: seq<Author>)
    : (r: Option<PopulatedBorrowedRecord>)
    ensures r.Some? <==> Resolves(record, books, users, authors)
    ensures r.Some? ==> IsJoinOf(r.value, record, books, users, authors)
  {
    var book := FindById(books, BookKey, record.bookId);
    var user := FindById(users, UserKey, record.userId);
    var author := if book.Some? then FindById(authors, AuthorKey, book.value.authorId) else None;
    if book.None? || user.None? || author.None? then None
    else Some(PopulatedBorrowedRecord(record.id, book.value.title, author.value.name, user.value.name,
                                      record.borrowedDate, record.dueDate, LoanStatusOf(record.returnedDate)))
  }

  function RecordJoiner(books: seq<Book>, users: seq<User>, authors: seq<Author>)
    : BorrowedRecord -> Option<PopulatedBorrowedRecord>
  {
    record => PopulateRecord(record, books, users, authors)
  }

  /** The views of the records whose references all resolve, in record order. */
  function PopulatedBorrowedRecords(records: seq<BorrowedRecord>, books: seq<Book>, users: seq<User>, authors: seq<Author>)
    : (r: seq<PopulatedBorrowedRecord>)
    ensures |r| <= |records|
    ensures |r| == |records| <==> forall i :: 0 <= i < |records| ==> Resolves(records[i], books, users, authors)
  {
    Somes(MapSeq(records, RecordJoiner(books, users, authors)))
  }

  /** The join keeps record order: joining a concatenation joins each part. */
  lemma PopulatedBorrowedRecordsAppend(a: seq<BorrowedRecord>, b: seq<BorrowedRecord>,
                                       books: seq<Book>, users: seq<User>, authors: seq<Author>)
    ensures PopulatedBorrowedRecords(a + b, books, users, authors)
         == PopulatedBorrowedRecords(a, books, users, authors) + PopulatedBorrowedRecords(b, books, users, authors)
  {
    var f := RecordJoiner(books, users, authors);
    MapSeqAppend(a, b, f);
    SomesAppend(MapSeq(a, f), MapSeq(b, f));
  }

  /** One record yields one view, its join, when its references resolve, and nothing otherwise. */
  lemma PopulatedBorrowedRecordsSingle(record: BorrowedRecord, books: seq<Book>, users: seq<User>, authors: seq<Author>)
    ensures var r := PopulatedBorrowedRecords([record], books, users, authors);
      && (r == [] <==> !Resolves(record, books, users, authors))
      && (r != [] ==> |r| == 1 && IsJoinOf(r[0], record, books, users, authors))
  {
  }

  /** A single record with a dangling reference among resolving ones costs the
      join exactly one view. */
  lemma DropsOnlyTheDanglingRecord(records: seq<BorrowedRecord>, i: nat,
                                   books: seq<Book>, users: seq<User>, authors: seq<Author>)
    requires i < |records|
    requires !Resolves(records[i], books, users, authors)
    requires forall j :: 0 <= j < |records| && j != i ==> Resolves(records[j], books, users, authors)
    ensures |PopulatedBorrowedRecords(records, books, users, authors)| == |records| - 1
  {
    var before, at, after := records[..i], [records[i]], records[i + 1..];
    assert records == before + (at + after);
    assert |PopulatedBorrowedRecords(before, books, users, authors)| == |before| by {
      forall j | 0 <= j < |before| ensures Resolves(before[j], books, users, authors) {
        assert before[j] == records[j];
      }
    }
    assert |PopulatedBorrowedRecords(after, books, users, authors)| == |after| by {
      forall j | 0 <= j < |after| ensures Resolves(after[j], books, users, authors) {
        assert after[j] == records[i + 1 + j];
      }
    }
    PopulatedBorrowedRecordsSingle(records[i], books, users, authors);
    PopulatedBorrowedRecordsAppend(at, after, books, users, authors);
    PopulatedBorrowedRecordsAppend(before, at + after, books, users, authors);
  }

  // ---------------------------------------------------------------------------
  // Facts about the seed collections
  // ---------------------------------------------------------------------------

  /** The seed ids are "1", "2", ...: the id of the element at position `i` is the digit `i + 1`. */
  function PositionId(i: nat): string
    requires i < 9
  {
    [('1' as int + i) as char]
  }

  lemma PositionIdsUnique<T>(xs: seq<T>, key: T -> string)
    requires |xs| <= 9
    requires forall i :: 0 <= i < |xs| ==> key(xs[i]) == PositionId(i)
    ensures UniqueIds(xs, key)
  {
  }

  /** Within each seed collection the ids are distinct. */
  lemma SeedIdsUnique()
    ensures UniqueIds(Authors, AuthorKey)
    ensures UniqueIds(Books, BookKey)
    ensures UniqueIds(Users, UserKey)
    ensures UniqueIds(BorrowedRecords, RecordKey)
  {
    PositionIdsUnique(Authors, AuthorKey);
    PositionIdsUnique(Books, BookKey);
    PositionIdsUnique(Users, UserKey);
    PositionIdsUnique(BorrowedRecords, RecordKey);
  }

  /** The seed books marked borrowed are exactly those with an open seed loan. */
  lemma SeedStatusMatchesLoans()
    ensures StatusMatchesLoans(Books, BorrowedRecords)
  {
    assert IsOpenLoanOf(BorrowedRecords[0], Books[0].id);
    assert IsOpenLoanOf(BorrowedRecords[1], Books[4].id);
    assert IsOpenLoanOf(BorrowedRecords[3], Books[6].id);
  }

  /** Every seed loan runs three weeks. */
  lemma SeedLoansRunThreeWeeks()
    ensures forall r :: r in BorrowedRecords ==> r.dueDate == r.borrowedDate + 21
  {
  }

  /** In a collection whose ids are positional, the element at position `i`
      is the one `find` returns for the id `PositionId(i)`. */
  lemma PositionIsFirst<T>(xs: seq<T>, key: T -> string, i: nat)
    requires |xs| <= 9 && i < |xs|
    requires forall k :: 0 <= k < |xs| ==> key(xs[k]) == PositionId(k)
    ensures IsFirstWithId(xs, key, PositionId(i), xs[i])
  {
  }

  /** The seed loan at position `i` resolves: its book is at position `b`, its
      member at position `u`, and that book's author at position `a`. */
  lemma SeedRecordResolves(i: nat, b: nat, u: nat, a: nat)
    requires i < |BorrowedRecords| && b < |Books| && u < |Users| && a < |Authors|
    requires BorrowedRecords[i].bookId == PositionId(b)
    requires BorrowedRecords[i].userId == Users[u].id
    requires Books[b].authorId == Authors[a].id
    ensures Resolves(BorrowedRecords[i], Books, Users, Authors)
  {
    PositionIsFirst(Books, BookKey, b);
  }

  /** Every seed loan's book, member and author exist. */
  lemma SeedRecordsResolve()
    ensures forall i :: 0 <= i < |BorrowedRecords| ==> Resolves(BorrowedRecords[i], Books, Users, Authors)
  {
    forall i | 0 <= i < |BorrowedRecords| ensures Resolves(BorrowedRecords[i], Books, Users, Authors) {
      if i == 0 {
        SeedRecordResolves(0, 0, 0, 0);
      } else if i == 1 {
        SeedRecordResolves(1, 4, 1, 1);
      } else if i == 2 {
        SeedRecordResolves(2, 1, 0, 1);
      } else {
        SeedRecordResolves(3, 6, 2, 3);
      }
    }
  }

  /** So the join keeps all four seed loans. */
  lemma SeedJoinKeepsEveryRecord()
    ensures |PopulatedBorrowedRecords(BorrowedRecords, Books, Users, Authors)| == |BorrowedRecords|
  {
    SeedRecordsResolve();
  }
}
