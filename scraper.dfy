/**
 * The scraper: turns the selector results of a catalogue's detail and search
 * pages into books, finds links on download pages, and builds the URLs it fetches.
 * A fetch is a function from URL to page (or error), so the URL asked for is
 * part of every contract.
 */
module Scraper {

  import opened Wrappers
  import opened Go
  import opened Text
  import opened Dom
  import opened Books

  const Host := "https://b-ok.cc"

  /** What the detail page's selectors match. */
  datatype DetailPage = DetailPage(
    downloadButtons: Selection, // a.dlButton
    headings: Selection,        // .itemFullText h1
    authorLinks: Selection,     // .itemFullText i a
    years: Selection,           // .bookDetailsBox .property_year .property_value
    languages: Selection,       // .bookDetailsBox .property_language .property_value
    pages: Selection,           // .bookDetailsBox .property_pages span
    isbns: Selection,           // .bookDetailsBox .property_isbn .property_value
    files: Selection,           // .bookDetailsBox .property__file .property_value
    covers: Selection)          // .cardBooks .details-book-cover img

  /** What one search result's selectors match (`div#searchResultBox div.resItemBox`). */
  datatype ListingItem = ListingItem(
    titleLinks: Selection,      // h3 a
    authorLinks: Selection,     // .authors a
    years: Selection,           // .property_year .property_value
    files: Selection)           // .property__file .property_value

  /** `format` is the text before the first comma of `data` and `size` the text
      between the first comma and the next one (or the end). */
  ghost predicate FormatSizeOf(data: string, format: string, size: string)
  {
    ',' !in format && ',' !in size &&
    (format + "," + size == data || format + "," + size + "," <= data)
  }

  /** Only one split of `data` fits FormatSizeOf. */
  lemma FormatSizeUnique(data: string, f1: string, s1: string, f2: string, s2: string)
    requires FormatSizeOf(data, f1, s1) && FormatSizeOf(data, f2, s2)
    ensures f1 == f2 && s1 == s2
  {
    FirstFieldUnique(data, f1, f2);
    var rest := data[|f1| + 1..];
    assert s1 == rest || s1 + "," <= rest;
    assert s2 == rest || s2 + "," <= rest;
    FirstFieldUnique(rest + ",", s1, s2);
  }

  /** The text before the first comma is determined by the data. */
  lemma FirstFieldUnique(data: string, f1: string, f2: string)
    requires ',' !in f1 && f1 + "," <= data
    requires ',' !in f2 && f2 + "," <= data
    ensures f1 == f2
  {
    assert forall k | 0 <= k < |f1| :: data[k] == f1[k] != ',';
    assert forall k | 0 <= k < |f2| :: data[k] == f2[k] != ',';
    assert data[|f1|] == ',' && data[|f2|] == ',';
    assert f1 == data[..|f1|] && f2 == data[..|f2|];
  }

  /** The two pieces of `strings.Split(data, ",")` the scrapers read, `files[0]`
      and `files[1]`; the second index is out of range when there is no comma. */
  function FormatAndSize(data: string): (r: Outcome<(string, string)>)
    ensures r.Panicked? <==> ',' !in data
    ensures r.Panicked? ==> r.panic == IndexOutOfRange(1, 1)
    ensures r.Returned? ==> FormatSizeOf(data, r.value.0, r.value.1)
  {
    var files := Split(data, ',');
    if |files| < 2 then Panicked(IndexOutOfRange(1, |files|))
    else
      SplitFirstTwo(data, ',');
      Returned((files[0], files[1]))
  }

  /** `ExtractBookMetadata`: the book a detail page describes. */
  function ExtractBookMetadata(page: DetailPage): (r: Outcome<Book>)
    ensures r.Panicked? <==> ',' !in TrimSpace(FirstText(page.files))
    ensures r.Returned? ==>
      var b := r.value;
      && b.Checksum == ""
      && FormatSizeOf(TrimSpace(FirstText(page.files)), b.Format, b.Size)
      && b.ID == FirstAttr(page.downloadButtons, "href")
      && b.CoverURL == FirstAttr(page.covers, "src")
      && b.Title == TrimSpace(FirstText(page.headings)) && IsTrimmed(b.Title)
      && b.Author == TrimSpace(FirstText(page.authorLinks)) && IsTrimmed(b.Author)
      && b.Year == TrimSpace(FirstText(page.years)) && IsTrimmed(b.Year)
      && b.Language == TrimSpace(FirstText(page.languages)) && IsTrimmed(b.Language)
      && b.Isbn == TrimSpace(FirstText(page.isbns)) && IsTrimmed(b.Isbn)
      && b.Pages == FirstText(page.pages)
  {
    var id := FirstAttr(page.downloadButtons, "href");
    var title := TrimSpace(FirstText(page.headings));
    var author := TrimSpace(FirstText(page.authorLinks));
    var year := TrimSpace(FirstText(page.years));
    var language := TrimSpace(FirstText(page.languages));
    var pages := FirstText(page.pages);
    var isbn := TrimSpace(FirstText(page.isbns));
    var fileData := TrimSpace(FirstText(page.files));
    match FormatAndSize(fileData)
    case Panicked(p) => Panicked(p)
    case Returned((format, size)) =>
      var coverURL := FirstAttr(page.covers, "src");
      Returned(Book(id, author, title, year, "", format, pages, size, language, isbn, coverURL))
  }

  /** The book one search result describes; the body of the loop in `extractBooksFromList`. */
  function ListingBook(item: ListingItem): (r: Outcome<Book>)
    ensures r.Panicked? <==> ',' !in FirstText(item.files)
    ensures r.Panicked? ==> r.panic == IndexOutOfRange(1, 1)
  {
    match FormatAndSize(FirstText(item.files))
    case Panicked(p) => Panicked(p)
    case Returned((format, size)) =>
      Returned(Book(FirstAttr(item.titleLinks, "href"), Join(AuthorTexts(item.authorLinks), ""),
                    FirstText(item.titleLinks), FirstText(item.years), "", format, "", size, "", "", ""))
  }

  /** What a search result's book holds: the first title link's href as id and its text
      as title, the author links' texts run together, the first year, the format and
      size split off the file field (untrimmed), and nothing else. */
  lemma ListingBookFields(item: ListingItem)
    requires ListingBook(item).Returned?
    ensures var b := ListingBook(item).value;
      && FormatSizeOf(FirstText(item.files), b.Format, b.Size)
      && b.Author == Concat(AuthorTexts(item.authorLinks))
      && b.ID == FirstAttr(item.titleLinks, "href")
      && b.Title == FirstText(item.titleLinks)
      && b.Year == FirstText(item.years)
      && b.Checksum == "" && b.Pages == "" && b.Language == "" && b.Isbn == "" && b.CoverURL == ""
  {
    JoinWithoutSeparator(AuthorTexts(item.authorLinks));
  }

  /** The text of each author link, in order. */
  function AuthorTexts(links: Selection): (r: seq<string>)
    ensures |r| == |links| && forall i | 0 <= i < |links| :: r[i] == TextOf(links[i])
  {
    seq(|links|, i requires 0 <= i < |links| => TextOf(links[i]))
  }

  /** `extractBooksFromList`: one book per search result, in document order; the
      first result without a comma in its file field panics. */
  method ExtractBooksFromList(items: seq<ListingItem>) returns (r: Outcome<seq<Book>>)
    ensures r == Each(items, ListingBook)
  {
    var books: seq<Book> := [];
    var i := 0;
    while i < |items|
      invariant 0 <= i <= |items|
      invariant Each(items[..i], ListingBook) == Returned(books)
    {
      assert items[..i + 1][..i] == items[..i];
      var book := ExtractListingItem(items[i]);
      match book {
        case Panicked(p) =>
          EachPanicPersists(items, ListingBook, i + 1);
          return Panicked(p);
        case Returned(b) =>
          books := books + [b];
      }
      i := i + 1;
    }
    assert items[..i] == items;
    return Returned(books);
  }

  /** The callback `extractBooksFromList` runs on each search result. */
  method ExtractListingItem(s: ListingItem) returns (r: Outcome<Book>)
    ensures r == ListingBook(s)
  {
    var id := FirstAttr(s.titleLinks, "href");
    var authors: seq<string> := [];
    var j := 0;
    while j < |s.authorLinks|
      invariant 0 <= j <= |s.authorLinks|
      invariant authors == AuthorTexts(s.authorLinks[..j])
    {
      authors := authors + [TextOf(s.authorLinks[j])];
      j := j + 1;
    }
    assert s.authorLinks[..j] == s.authorLinks;
    var author := Join(authors, "");
    var checksum := "";
    var title := FirstText(s.titleLinks);
    var year := FirstText(s.years);
    var file := Split(FirstText(s.files), ',');
    if |file| < 2 {
      return Panicked(IndexOutOfRange(1, |file|));
    }
    var format := file[0];
    var pages := "";
    var size := file[1];
    return Returned(Book(id, author, title, year, checksum, format, pages, size, "", "", ""));
  }

  /** `ExtractDownloadURL`: the href of the last `#info a` link whose text is exactly
      "GET"; a later match overwrites an earlier one. "" when no link matches. */
  method ExtractDownloadURL(links: Selection) returns (url: string)
    ensures (forall i | 0 <= i < |links| :: TextOf(links[i]) != "GET") ==> url == ""
    ensures forall i | 0 <= i < |links| && TextOf(links[i]) == "GET" && IsLastGet(links, i) ::
      url == AttrOr(links[i], "href", "")
  {
    url := "";
    var i := 0;
    while i < |links|
      invariant 0 <= i <= |links|
      invariant (forall k | 0 <= k < i :: TextOf(links[k]) != "GET") ==> url == ""
      invariant forall k | 0 <= k < i && TextOf(links[k]) == "GET" && IsLastGet(links[..i], k) ::
        url == AttrOr(links[k], "href", "")
    {
      if TextOf(links[i]) == "GET" {
        url := AttrOr(links[i], "href", "");
      }
      i := i + 1;
    }
    assert links[..i] == links;
  }

  /** No link after position `k` has the text "GET". */
  ghost predicate IsLastGet(links: Selection, k: nat)
  {
    forall j | k < j < |links| :: TextOf(links[j]) != "GET"
  }

  /** `ExtractDetailedMetadataURL`: the href of the first `td.itemCover a` link. */
  function ExtractDetailedMetadataURL(covers: Selection): (url: string)
    ensures covers == [] ==> url == ""
    ensures covers != [] ==> url == AttrOr(covers[0], "href", "")
  {
    FirstAttr(covers, "href")
  }

  /** The URL fetched for an id: the host followed by the id verbatim. */
  function BookURL(id: string): (url: string)
    ensures |url| == |Host| + |id| && url[..|Host|] == Host && url[|Host|..] == id
  {
    Host + id
  }

  /** Different ids are fetched from different URLs. */
  lemma BookURLInjective(a: string, b: string)
    requires BookURL(a) == BookURL(b)
    ensures a == b
  {
    assert a == BookURL(a)[|Host|..];
  }

  /** `FetchBookMetadata`: the detail page's book with its Checksum set to the id asked
      for; the empty book and the error when the fetch fails. */
  function FetchBookMetadata(id: string, get: string -> Result<DetailPage, Error>): (r: Outcome<(Book, Option<Error>)>)
    ensures get(BookURL(id)).Failure? ==> r == Returned((EmptyBook, Some(get(BookURL(id)).error)))
    ensures get(BookURL(id)).Success? ==>
      match ExtractBookMetadata(get(BookURL(id)).value)
      case Panicked(p) => r == Panicked(p)
      case Returned(b) => r.Returned? && r.value.1 == None && r.value.0.Checksum == id
                          && r.value.0 == b.(Checksum := id)
  {
    match get(BookURL(id))
    case Failure(err) => Returned((EmptyBook, Some(err)))
    case Success(page) =>
      match ExtractBookMetadata(page)
      case Panicked(p) => Panicked(p)
      case Returned(b) => Returned((b.(Checksum := id), None))
  }

  /** `GetBookFile`: a single fetch of the id's URL, its response or its error. */
  function GetBookFile<R>(id: string, get: string -> Result<R, Error>): (r: Result<R, Error>)
    ensures r == get(Host + id)
  {
    get(BookURL(id))
  }

  /** The search URL: the search path followed by the escaped query. */
  function SearchURL(query: string, escape: string -> string): (url: string)
    ensures url == Host + "/s/" + escape(query)
  {
    Host + "/s/" + escape(query)
  }

  /** `SearchBooks`: the books of the results page for the query; none when the fetch
      fails. `escape` stands for `url.QueryEscape`. */
  method SearchBooks(query: string, escape: string -> string, get: string -> Result<seq<ListingItem>, Error>)
    returns (r: Outcome<seq<Book>>)
    ensures get(SearchURL(query, escape)).Failure? ==> r == Returned([])
    ensures get(SearchURL(query, escape)).Success? ==> r == Each(get(SearchURL(query, escape)).value, ListingBook)
  {
    var apiURL := SearchURL(query, escape);
    match get(apiURL)
    case Failure(_) =>
      return Returned([]);
    case Success(items) =>
      r := ExtractBooksFromList(items);
  }

  /** The example from the catalogue: the size keeps the blank after the comma. */
  lemma FormatAndSizeExample()
    ensures FormatAndSize("EPUB, 2.1 MB") == Returned(("EPUB", " 2.1 MB"))
  {
    var data := "EPUB, 2.1 MB";
    assert FormatSizeOf(data, "EPUB", " 2.1 MB") by {
      assert data == "EPUB" + "," + " 2.1 MB";
    }
    assert ',' in data by {
      assert data[4] == ',';
    }
    var r := FormatAndSize(data);
    FormatSizeUnique(data, r.value.0, r.value.1, "EPUB", " 2.1 MB");
  }
}
