/**
 * The first version of the bot: it scrapes the result table of a Library
 * Genesis search page by column index and answers a text message with one
 * message per book.
 */
module LegacyBot {

  import opened Wrappers
  import opened Text
  import opened Dom
  import opened Chat

  /** The program's own record: four text fields. */
  datatype Book = Book(id: string, author: string, title: string, year: string)

  /** The children of one `td`. */
  type Cell = seq<Node>

  /** The `td` cells of one table row, in order. */
  type Row = seq<Cell>

  const Font := Selector("font", None)
  const TitledLink := Selector("a", Some("title"))

  /** `row.Eq(k)`: the k-th cell, an empty selection past the end of the row. */
  function CellAt(row: Row, k: nat): Cell
  {
    if k < |row| then row[k] else []
  }

  /** `row.Eq(k).Text()`. */
  function CellText(row: Row, k: nat): string
  {
    TextOfAll(CellAt(row, k))
  }

  /** The title cell after its `font` nodes are removed: the text of its first link,
      in document order, that has a `title` attribute; "" when every such link was
      inside a `font` node, or there was none. */
  function TitleOf(cell: Cell): (title: string)
    ensures title == match FirstInOrder(Preorder(RemoveAll(cell, Font)), TitledLink)
      case None => ""
      case Some(link) => TextOf(link)
    ensures !AnyOutside(cell, Font, TitledLink) ==> title == ""
  {
    FindFirstInDocumentOrder(RemoveAll(cell, Font), TitledLink);
    RemoveAllKeeps(cell, Font, TitledLink);
    match FindFirst(RemoveAll(cell, Font), TitledLink)
    case None => ""
    case Some(link) => TextOf(link)
  }

  /** Font markup never reaches a title: the link whose text is read has no font
      node anywhere below it. */
  lemma TitleLinkHasNoFont(cell: Cell)
    requires FindFirst(RemoveAll(cell, Font), TitledLink).Some?
    ensures !Any([FindFirst(RemoveAll(cell, Font), TitledLink).value], Font)
  {
    FindFirstInside(RemoveAll(cell, Font), TitledLink, Font);
  }

  /** A title cell without font markup is read as it is. */
  lemma TitleWithoutFont(cell: Cell)
    requires !Any(cell, Font)
    ensures TitleOf(cell) == match FindFirst(cell, TitledLink)
      case None => ""
      case Some(link) => TextOf(link)
  {
    RemoveAllNothing(cell, Font);
  }

  /** The book a table row describes: raw cell texts for id (column 0), author
      (column 1) and year (column 4), the title from column 2. */
  function RowBook(row: Row): (b: Book)
    ensures b.id == CellText(row, 0) && b.author == CellText(row, 1) && b.year == CellText(row, 4)
    ensures b.title == TitleOf(CellAt(row, 2))
  {
    Book(CellText(row, 0), CellText(row, 1), TitleOf(CellAt(row, 2)), CellText(row, 4))
  }

  /** Column 3 is never read. */
  lemma RowBookIgnoresColumn3(row: Row, other: Cell)
    requires |row| > 3
    ensures RowBook(row[3 := other]) == RowBook(row)
  {
  }

  /** `extractBooks`: one book per table row except the first, in order. */
  method ExtractBooks(rows: seq<Row>) returns (books: seq<Book>)
    ensures |books| == if rows == [] then 0 else |rows| - 1
    ensures forall i | 0 <= i < |books| :: books[i] == RowBook(rows[i + 1])
  {
    books := [];
    if rows == [] {
      return;
    }
    var i := 1;
    while i < |rows|
      invariant 1 <= i <= |rows|
      invariant |books| == i - 1
      invariant forall k | 0 <= k < i - 1 :: books[k] == RowBook(rows[k + 1])
    {
      var row := rows[i];
      var id := CellText(row, 0);
      var author := CellText(row, 1);
      var titleCell := RemoveAll(CellAt(row, 2), Font);
      var link := FindFirst(titleCell, TitledLink);
      var title := if link.Some? then TextOf(link.value) else "";
      var year := CellText(row, 4);
      books := books + [Book(id, author, title, year)];
      i := i + 1;
    }
  }

  /** The query as sent: every space replaced by '+'. */
  function CleanQuery(query: string): (q: string)
    ensures |q| == |query| && ' ' !in q
    ensures forall i | 0 <= i < |query| :: q[i] == (if query[i] == ' ' then '+' else query[i])
  {
    ReplaceAllRemoves(query, ' ', '+');
    ReplaceAll(query, ' ', '+')
  }

  /** A query that had no '+' of its own can be read back from the URL. */
  lemma CleanQueryReversible(query: string)
    requires '+' !in query
    ensures ReplaceAll(CleanQuery(query), '+', ' ') == query
  {
    ReplaceAllRoundTrip(query, ' ', '+');
  }

  const SearchPrefix := "https://libgen.is/search.php?req="

  function SearchURL(query: string): (url: string)
    ensures |url| == |SearchPrefix| + |query|
    ensures url[..|SearchPrefix|] == SearchPrefix && url[|SearchPrefix|..] == CleanQuery(query)
  {
    SearchPrefix + CleanQuery(query)
  }

  /** `searchBooks`: the books of the result table, none when the fetch fails. */
  method SearchBooks(query: string, get: string -> Result<seq<Row>, Error>) returns (books: seq<Book>)
    ensures get(SearchURL(query)).Failure? ==> books == []
    ensures get(SearchURL(query)).Success? ==>
      var rows := get(SearchURL(query)).value;
      && |books| == (if rows == [] then 0 else |rows| - 1)
      && forall i | 0 <= i < |books| :: books[i] == RowBook(rows[i + 1])
  {
    match get(SearchURL(query)) {
      case Failure(_) =>
        return [];
      case Success(rows) =>
        books := ExtractBooks(rows);
    }
  }

  /** `formatBookMessage`. */
  function FormatBookMessage(b: Book): string
  {
    "*" + b.title + "*\n" + "By _" + b.author + "_\n" + b.year
  }

  /** The message has three lines: the title in bold, "By" and the author in italics,
      then the year, as long as no field has a line break of its own. */
  lemma FormatBookMessageLines(b: Book)
    requires '\n' !in b.title && '\n' !in b.author && '\n' !in b.year
    ensures Split(FormatBookMessage(b), '\n') == ["*" + b.title + "*", "By _" + b.author + "_", b.year]
  {
    var l1, l2 := "*" + b.title + "*", "By _" + b.author + "_";
    assert '\n' !in l1 by { NoBreakInWrapped("*", b.title, "*"); }
    assert '\n' !in l2 by { NoBreakInWrapped("By _", b.author, "_"); }
    assert FormatBookMessage(b) == l1 + "\n" + (l2 + "\n" + b.year);
    SplitAt(l1, '\n', l2 + "\n" + b.year);
    SplitAt(l2, '\n', b.year);
  }

  lemma NoBreakInWrapped(pre: string, s: string, post: string)
    requires '\n' !in pre && '\n' !in s && '\n' !in post
    ensures '\n' !in pre + s + post
  {
  }

  function ResultMessage(b: Book): Outbound
  {
    Message(FormatBookMessage(b), true, [])
  }

  /** The text handler: "Searching...", then the result loop. */
  method OnText(query: string, get: string -> Result<seq<Row>, Error>) returns (sent: seq<Outbound>)
    ensures |sent| >= 2 && sent[0] == Searching
    ensures get(SearchURL(query)).Failure? ==> sent == [Searching, NoResult]
    ensures get(SearchURL(query)).Success? ==>
      var rows := get(SearchURL(query)).value;
      && (|rows| <= 1 ==> sent == [Searching, NoResult])
      && (|rows| > 1 ==> |sent| == 1 + Min(|rows| - 1, LastIndex + 1))
      && forall k | 1 <= k < |sent| && |rows| > 1 :: sent[k] == ResultMessage(RowBook(rows[k]))
  {
    var books := SearchBooks(query, get);
    var replies := SendResults(books, ResultMessage);
    sent := [Searching] + replies;
    assert forall k | 1 <= k < |sent| :: sent[k] == replies[k - 1];
  }
}
