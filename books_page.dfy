/** The books page's own join of the listed books with the listed authors.
    It differs from `Data.PopulatedBooks` in two ways: a list that is still
    null reads as empty, and the placeholder for a dangling author keeps the
    dangling id instead of "unknown".
 */
module BooksPage {
  import opened Lookup
  import opened Types
  import Data

  /** The author shown for a book whose `authorId` matches no author. */
  function Placeholder(authorId: string): Author
  {
    Author(authorId, "Unknown Author", "", "")
  }

  /** The `map` callback: `{...book, author: author || placeholder}`. */
  function PopulateBook(book: Book, authors: seq<Author>): PopulatedBook
  {
    match FindById(authors, AuthorKey, book.authorId)
    case Some(author) => WithAuthor(book, author)
    case None => WithAuthor(book, Placeholder(book.authorId))
  }

  function BookJoiner(authors: seq<Author>): Book -> PopulatedBook
  {
    book => PopulateBook(book, authors)
  }

  /** Every listed book, in order, with all its fields and the first listed author
      carrying its `authorId`, or a placeholder that keeps that id. */
  function PopulatedBooks(books: Option<seq<Book>>, authors: Option<seq<Author>>): (r: seq<PopulatedBook>)
    ensures |r| == |OrEmpty(books)|
    ensures forall i :: 0 <= i < |r| ==> BookPart(r[i]) == OrEmpty(books)[i]
    ensures forall i :: 0 <= i < |r| && HasId(OrEmpty(authors), AuthorKey, OrEmpty(books)[i].authorId) ==>
              IsFirstWithId(OrEmpty(authors), AuthorKey, OrEmpty(books)[i].authorId, r[i].author)
    ensures forall i :: 0 <= i < |r| && !HasId(OrEmpty(authors), AuthorKey, OrEmpty(books)[i].authorId) ==>
              r[i].author == Author(OrEmpty(books)[i].authorId, "Unknown Author", "", "")
  {
    MapSeq(OrEmpty(books), BookJoiner(OrEmpty(authors)))
  }

  /** With both lists present, the page's join and the library's join agree on
      every row except the placeholder's id. */
  lemma AgreesWithLibraryJoin(books: seq<Book>, authors: seq<Author>)
    ensures var page, lib := PopulatedBooks(Some(books), Some(authors)), Data.PopulatedBooks(books, authors);
      && |page| == |lib|
      && forall i :: 0 <= i < |page| ==>
           page[i] == if HasId(authors, AuthorKey, books[i].authorId) then lib[i]
                      else lib[i].(author := lib[i].author.(id := books[i].authorId))
  {
  }
}
