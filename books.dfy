/** A catalog entry: the bibliographic fields never change after
    construction; only the availability flag does. */
module Books {

  class Book {
    const title: string
    const author: string
    const isbn: string
    var available: bool

    /** A new book keeps the given fields and starts available. */
    constructor (title: string, author: string, isbn: string)
      ensures this.title == title && this.author == author && this.isbn == isbn
      ensures available
    {
      this.title := title;
      this.author := author;
      this.isbn := isbn;
      available := true;
    }
  }

  /** BookFactory::createBook: always succeeds, no validation of the fields. */
  method CreateBook(title: string, author: string, isbn: string) returns (book: Book)
    ensures fresh(book)
    ensures book.title == title && book.author == author && book.isbn == isbn
    ensures book.available
  {
    book := new Book(title, author, isbn);
  }
}
