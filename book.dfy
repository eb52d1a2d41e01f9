/** The shared book record: eleven text fields, an absent value being "". */
module Books {

  /** The fields in declaration order; the scrapers build books positionally in this order. */
  datatype Book = Book(
    ID: string,
    Author: string,
    Title: string,
    Year: string,
    Checksum: string,
    Format: string,
    Pages: string,
    Size: string,
    Language: string,
    Isbn: string,
    CoverURL: string)

  /** The zero value `book.Book{}`. */
  const EmptyBook := Book("", "", "", "", "", "", "", "", "", "", "")
}
