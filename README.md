# Library loans: joins and the borrow step, in Dafny

This project models the core of a small library-management web application:
its catalogue of authors and books, its members, and its loan records.

It models four things:

- **The book → author join.** Every book is shown with its author. There are two
  copies of this join: `getPopulatedBooks` in `src/lib/data.ts`, and the inline
  join on the books page. When no author matches, each copy substitutes an
  "Unknown Author" placeholder. The library copy gives the placeholder the id
  `"unknown"`. The page copy gives it the dangling `authorId`.
- **The loan-record → book/member/author join.** There are two copies here too:
  `getPopulatedBorrowedRecords`, and the inline join on the borrowed-books page.
  A record whose references do not resolve is dropped. Each kept record gets the
  label "On Loan" or "Returned" from its `returnedDate`. The page copy never
  looks up the author (it writes "Unknown") and keeps only the "On Loan" rows.
- **The borrow step** behind the borrow form. The form checks that a member was
  chosen, then that someone is signed in. It then writes an open loan record
  (due two weeks after the borrow day) under a freshly pushed key. In a second,
  separate write it merges `status: 'borrowed'` into the book.
- **The seed collections** the application starts from. The model checks them
  against the rule that a book is marked borrowed iff it has an open loan. It
  also checks that the tables the seeder writes, each list keyed by id, satisfy
  the invariants the borrow step preserves.

Modules, one per source file:

- `Lookup` (`lookup.dfy`): the JavaScript array operations the joins use.
  These are `find` by id, `xs || []`, `map`, `filter(r => r !== null)` and
  `filter`. The module also has the seeder's `reduce` that keys a list by id.
- `Types` (`types.dfy`): the records and views of `src/lib/types.ts`.
- `Data` (`data.dfy`): `src/lib/data.ts`.
- `BooksPage` (`books_page.dfy`): `src/app/books/page.tsx`.
- `BorrowedPage` (`borrowed_page.dfy`): `src/app/borrowed/page.tsx`.
- `BorrowForm` (`borrow_form.dfy`): `src/app/books/_components/borrow-form.tsx`.
  The store is the class `LibraryStore`. It holds `map<string, Book>` and
  `map<string, BorrowedRecord>`, and its method `SubmitBorrow` changes them in
  two steps. The method is proved equal to the function `Submit`. The
  invariant lemmas are about `Submit`.

Representation choices:

- Loan dates are integer day numbers (days since 1970-01-01). `Types.DayNumber`
  writes the seed dates as calendar days, and "two weeks later" is `+ 14`.
  The other dates (`birthDate`, `publishedDate`, `memberSince`) stay text,
  because the placeholder author's `birthDate` is the empty text.
- `returnedDate` is `NotReturned` (null), `EmptyText` (`''`) or `ReturnedOn(day)`.
  Only `ReturnedOn` is truthy. An open loan is one whose `returnedDate` is null.
- A populated book keeps `authorId`. `{...book, author}` copies it, even though
  the declared view type omits it.
- A list that a page has not received yet (null) is `None`.

Three rules one would expect of a loan ledger do not hold in the code:
borrowing an already-borrowed book fails, the two writes are atomic, and every
loan runs 14 days. The model follows the code:

- The borrow step does not check the book's status (`SubmitOnBorrowedBookOpensSecondLoan`).
- The two writes are separate, and a failed second write leaves an open record
  on an available book (`FailedUpdateBreaksLoanConsistency`).
- The seed loans run 21 days (`SeedLoansRunThreeWeeks`).

## Model

| member | source | states |
|---|---|---|
| Lookup.OrEmpty | src/app/books/page.tsx:27-28 | `xs \|\| []`: a null list reads as the empty list, and a present list reads as itself. |
| Lookup.MapSeq | src/lib/data.ts:35 | `map` gives one output per input, in order: output `i` is the callback applied to input `i`. |
| Lookup.MapSeqAppend | src/lib/data.ts:53 | `map` keeps order: on a concatenation it acts on each part separately. |
| Lookup.KeyedById | src/lib/data-seeder.ts:23-26 | The seeder's `reduce` keys a list by id. The keys are exactly the ids in the list, every entry is stored under its own id, and every entry comes from the list. |
| Lookup.KeyedByIdFindsEach | src/lib/data-seeder.ts:23-26 | When the ids are distinct, the entry under an element's id is that element. |
| Lookup.FindById | src/lib/data.ts:36 | `find` by id gives a value iff some element carries the id, and then it is the first such element. |
| Lookup.FirstWithIdUnique | src/lib/data.ts:36 | Only one element can be "the first with this id", so `find` has one answer. |
| Lookup.Somes | src/lib/data.ts:72 | Dropping the nulls keeps exactly the present values. The result is no longer than the input, and the same length iff nothing was null. |
| Lookup.SomesAppend | src/lib/data.ts:72 | Dropping nulls keeps order: on a concatenation it acts on each part separately. |
| Lookup.Filter | src/app/borrowed/page.tsx:46 | `filter` keeps exactly the elements that satisfy the predicate, and no more than the input. |
| Lookup.FilterAppend | src/app/borrowed/page.tsx:45-46 | `filter` keeps order: on a concatenation it acts on each part separately. |
| Data.PopulatedBooks | src/lib/data.ts:34-50 | One output per input book, in input order, with every book field copied. The author is the first one whose id is the book's `authorId`. If there is none, the author is `{id:'unknown', name:'Unknown Author', bio:'', birthDate:''}`. |
| Data.PopulateRecord | src/lib/data.ts:53-71 | A record gets a view iff its member exists, its book exists, and the author of its first matching book exists. The view takes `id`, `borrowedDate` and `dueDate` from the record, and the title, author name and member name from the first matches. Its status is "Returned" iff `returnedDate` is truthy. |
| Data.PopulatedBorrowedRecords | src/lib/data.ts:52-73 | The output is no longer than the input. It has the same length iff every record resolves. |
| Data.PopulatedBorrowedRecordsAppend | src/lib/data.ts:53-72 | The join keeps record order: joining a concatenation joins each part. |
| Data.PopulatedBorrowedRecordsSingle | src/lib/data.ts:53-72 | One record yields nothing iff one of its references dangles. Otherwise it yields exactly its join. |
| Data.DropsOnlyTheDanglingRecord | src/lib/data.ts:54-61 | If exactly one record has a dangling reference, the join is exactly one shorter than the records. |
| Data.SeedIdsUnique | src/lib/data.ts:4-32 | Within each seed collection the ids are distinct. |
| Data.SeedStatusMatchesLoans | src/lib/data.ts:11-32 | A seed book is marked borrowed iff some seed loan of it has a null `returnedDate`. |
| Data.SeedLoansRunThreeWeeks | src/lib/data.ts:27-32 | Every seed loan is due 21 days after it was borrowed. |
| Data.SeedRecordsResolve | src/lib/data.ts:4-32 | For every seed loan, its book, its member and its book's author exist. |
| Data.SeedJoinKeepsEveryRecord | src/lib/data.ts:27-32 | Joining the seed collections keeps all four seed loans. |
| BooksPage.PopulatedBooks | src/app/books/page.tsx:27-33 | Null lists count as empty. One output per listed book, in order, with every book field copied. The author is the first listed one whose id is the book's `authorId`. If there is none, it is a placeholder with `id == authorId`, name "Unknown Author", and empty `bio` and `birthDate`. |
| BooksPage.AgreesWithLibraryJoin | src/app/books/page.tsx:27-33 | With both lists present, the page's join equals the library's join row by row. The one exception is a dangling author, where only the placeholder's id differs (`authorId` instead of `'unknown'`). |
| BorrowedPage.ActiveLoans | src/app/borrowed/page.tsx:24-46 | The output is no longer than the (null-as-empty) records. Every row is "On Loan", and every row's author name is "Unknown". |
| BorrowedPage.RowOfJoins | src/app/borrowed/page.tsx:25-44 | A record gets a row iff its book and member exist. The author is not consulted. The row's `bookId` and `userId` equal the record's, and its title and member name come from the first matches. |
| BorrowedPage.ActiveLoansReadsNullAsEmpty | src/app/borrowed/page.tsx:24-27 | Null records, books or members read as empty lists. While the books or the members are null, the page has no rows. |
| BorrowedPage.ActiveLoansAppend | src/app/borrowed/page.tsx:24-46 | The page keeps record order: the rows of a concatenation are the rows of each part. |
| BorrowedPage.ActiveLoansSingle | src/app/borrowed/page.tsx:25-46 | One record yields a row iff its book and member exist and its `returnedDate` is falsy. That row is its join. |
| BorrowedPage.AgreesWithLibraryJoin | src/app/borrowed/page.tsx:24-46 | When every book's author exists, the page shows exactly the library join's "On Loan" views, in order, with the author name replaced by "Unknown". |
| BorrowForm.Submit | src/app/books/_components/borrow-form.tsx:53-96 | The store changes iff the pushed key gets a record. A successful borrow reports the record stored under that key. |
| BorrowForm.SubmitGates | src/app/books/_components/borrow-form.tsx:29-95 | With no member chosen, or with no one signed in, nothing is written and an error is reported. The loan goes through iff both checks pass and neither write fails. A failed `set` writes nothing and reports a database error. A failed `update` leaves the books as they were and the new open record in place, and reports a database error. |
| BorrowForm.SubmitOpensLoan | src/app/books/_components/borrow-form.tsx:63-81 | A successful borrow stores the new record under the pushed key, with `id` equal to that key. The record has the book's id, the chosen member, borrow day = today, due day = borrow day + 14, and a null `returnedDate`. Afterwards the book is marked borrowed. |
| BorrowForm.SubmitChangesNothingElse | src/app/books/_components/borrow-form.tsx:66-81 | Existing records are untouched, and at most the pushed key is added. The book keeps every field except `status`. Every other book is untouched. |
| BorrowForm.SubmitKeepsEntriesUnderOwnId | src/app/books/_components/borrow-form.tsx:66-78 | If every entry is stored under its own id before, that still holds afterwards. |
| BorrowForm.SubmitPreservesLoanConsistency | src/app/books/_components/borrow-form.tsx:78-81 | "A book is borrowed iff it has an open record" is preserved, unless the second write alone fails. |
| BorrowForm.SubmitPreservesSingleOpenLoan | src/app/books/_components/borrow-form.tsx:78-81 | For a book marked available, "no book has two open records" is preserved. The handler does not check availability. The only guard in the source is the "Borrow Book" menu item at book-columns.tsx:88, which is disabled for borrowed books, so availability is a precondition here. |
| BorrowForm.SubmitOnBorrowedBookOpensSecondLoan | src/app/books/_components/borrow-form.tsx:53-96 | The submit handler itself does not reject a borrowed book. Lending such a book again leaves it with two open records. |
| BorrowForm.FailedUpdateBreaksLoanConsistency | src/app/books/_components/borrow-form.tsx:78-95 | If the status update fails after the record was written, an available book is left with an open record. |
| BorrowForm.KeyedTablesLoanConsistent | src/lib/data-seeder.ts:24-26 | Keying lists of books and of loan records by id gives tables stored under their own ids. When the record ids are distinct and the lists satisfy "borrowed iff an open loan exists", so do the tables. |
| BorrowForm.SeedOpenLoansDistinct | src/lib/data.ts:27-32 | No two open seed loans are of the same book. |
| BorrowForm.SeedTablesConsistent | src/lib/data-seeder.ts:24-26 | The tables the seeder writes satisfy the three invariants the borrow step is proved against: entries under their own ids, loan consistency, and at most one open loan per book. |
| BorrowForm.LibraryStore.SubmitBorrow | src/app/books/_components/borrow-form.tsx:53-96 | The store method writes the record, then the book status, and its new state and reply are exactly `Submit`'s. It preserves loan consistency (unless the update alone fails) and keeps entries stored under their own ids. |

## Left out

- Rendering: pages, dialogs, toasts, loading skeletons, column definitions, navigation and sign-in wiring are UI. The `console.warn` calls in `src/lib/data.ts` are left out for the same reason.
- Subscriptions and seeding: the realtime-database hooks and the seeder's reads and writes are I/O over a client library. Only the seeder's keying of each list by id is modelled (`KeyedById`, `SeedTables`). The "data already seeded" check is not modelled.
- The key-to-`id` rewrite in the list hook is not modelled as a function. The pages take their lists as given, and `StoredUnderOwnId` says keys and ids agree.
- The order of `Object.keys` is not modelled. The joins take the lists in whatever order they arrive.
- The author, member and book forms and the server action are left out. Their validation is schema-library calls and their ids come from the clock and `Math.random`.
- The clock is a parameter, `today`. The pushed key is the parameter `newKey`, which must not already be a record key. This is what the database's push guarantees.
- Write faults are a parameter. Only "the set fails" and "the update fails" are modelled. Concurrent sessions and interleaving of the two writes are not modelled, and the model does not claim the borrow step is atomic.
- BorrowForm.LibraryStore.SubmitBorrow: requires the book's id to be a key of the books table. The form's caller is not in the source. The model assumes the book comes from the books table, whose list hook gives every entry its key as `id` (use-list.tsx:30). An update on a missing key would create a node holding only `status`, which a table of whole books cannot represent.
- The per-account path prefix is left out. The writers and the readers use different paths, and the model keeps one store.
- Date formatting (`format`, `add`) is left out. Dates are day numbers, and "two weeks" is 14 days.
- Seed cover images come from a placeholder table that is not part of this model. `Data.Cover(i)` is a stand-in text for entry `i`.
- There is no return operation, no delete guard and no status check on borrowing, because the code has none. Availability is an assumption stated only in `SubmitPreservesSingleOpenLoan`. The source's only guard is the disabled menu item.
- BorrowedPage.ActiveLoans: its own contract gives only bounds and row labels. `ActiveLoansReadsNullAsEmpty` reduces null lists to present empty ones. For present lists, membership and order are stated by `ActiveLoansSingle` and `ActiveLoansAppend`, and the link to the library join by `AgreesWithLibraryJoin`.
