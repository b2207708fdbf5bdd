/** The values a library holds: books, bookmarks, and index documents. */
module Books {
  /** `pathValid` stands for the file-system check done when the path was set. */
  datatype Book = Book(
    id: string, title: string, description: string, name: string, flavour: string, date: string,
    creator: string, publisher: string, language: string, category: string, tags: string,
    path: string, pathValid: bool, url: string, size: nat, readOnly: bool)

  datatype Bookmark = Bookmark(
    bookId: string, bookTitle: string, bookName: string, bookFlavour: string,
    url: string, title: string, language: string, date: string)

  /** `Book::update` for a book with the same id: a read-only book stays as it is. */
  function Updated(book: Book, other: Book): Book {
    if book.readOnly then book else other
  }

  predicate SameArchive(book1: Book, book2: Book) {
    book1.pathValid && book2.pathValid && book1.path == book2.path
  }

  /** A document: its data is the book id. */
  datatype Document = Document(data: string, terms: set<string>)

  function IdTerm(id: string): string {
    "Q" + id
  }

  lemma IdTermInjective(id: string, other: string)
    ensures IdTerm(id) == IdTerm(other) ==> id == other
    ensures IdTerm(id)[1..] == id
  {
    assert IdTerm(id)[1..] == id && IdTerm(other)[1..] == other;
  }
}
