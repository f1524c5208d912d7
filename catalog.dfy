/** The book record the catalogue pages receive. */
module Catalog {
  import opened Base

  /** A book as the pages hold it after `GET /api/books`; any text field may be null. */
  datatype ListedBook = ListedBook(id: int, title: Option<string>, author: Option<string>, isbn: Option<string>,
                                   genre: Option<string>, quantity: int)
}
