/**
 * The bot's handlers: a text message searches the catalogue and lists the
 * results with "More info" and "Download" buttons; "More info" sends the
 * detail page's data with the cover; "Download" sends the file and, for an
 * EPUB, a MOBI conversion of it as well.
 */
module Bot {

  import opened Wrappers
  import opened Go
  import opened Text
  import opened Paths
  import opened Books
  import opened Chat
  import Scraper
  import Converter

  /** `formatBookMessage`. */
  function FormatBookMessage(b: Book): string
  {
    "*" + b.Title + "*\n" + "By _" + b.Author + "_\n" + b.Year + " | " + b.Format + " | " + b.Size
  }

  /** `formatInfoBookMessage`. */
  function FormatInfoBookMessage(b: Book): string
  {
    "Title: *" + b.Title + "*\n" + "Author: _" + b.Author + "_\n" + "Year: " + b.Year + "\n"
    + "Format: " + b.Format + "\n" + "Pages: " + b.Pages + "\n" + "Language: " + b.Language + "\n"
    + "ISBN: " + b.Isbn + "\n"
  }

  /** Lines, each followed by a line break. */
  function Lines(ls: seq<string>): string
  {
    if ls == [] then "" else ls[0] + "\n" + Lines(ls[1..])
  }

  /** Text made of break-free lines splits back into those lines, plus the empty
      text after the final break. */
  lemma {:induction false} SplitLines(ls: seq<string>)
    requires forall k | 0 <= k < |ls| :: '\n' !in ls[k]
    ensures Split(Lines(ls), '\n') == ls + [""]
  {
    if ls != [] {
      var head, tail := ls[0], ls[1..];
      assert forall k | 0 <= k < |tail| :: tail[k] == ls[k + 1];
      SplitLines(tail);
      SplitLinesStep(head, tail);
      assert ls == [head] + tail;
    }
  }

  lemma SplitLinesStep(head: string, tail: seq<string>)
    requires '\n' !in head && Split(Lines(tail), '\n') == tail + [""]
    ensures Split(Lines([head] + tail), '\n') == [head] + tail + [""]
  {
    var rest := Lines(tail);
    var t := LinesCons(head, tail);
    assert t == head + ['\n'] + rest;
    SplitAt(head, '\n', rest);
    AppendAssoc([head], tail, [""]);
  }

  lemma AppendEmpty<T>(a: seq<T>)
    ensures a + [] == a
  {
  }

  lemma AppendAssoc<T>(a: seq<T>, b: seq<T>, c: seq<T>)
    ensures a + (b + c) == a + b + c
  {
  }

  /** The seven labelled lines of the detail message, in order. */
  function InfoLines(b: Book): seq<string>
  {
    ["Title: *" + b.Title + "*", "Author: _" + b.Author + "_", "Year: " + b.Year, "Format: " + b.Format,
     "Pages: " + b.Pages, "Language: " + b.Language, "ISBN: " + b.Isbn]
  }

  /** The detail message is its seven labelled lines, each ending in a line break. */
  lemma InfoMessageIsLines(b: Book)
    ensures FormatInfoBookMessage(b) == Lines(InfoLines(b))
  {
    var l0, l1, l2, l3, l4, l5, l6 := "Title: *" + b.Title + "*", "Author: _" + b.Author + "_", "Year: " + b.Year,
      "Format: " + b.Format, "Pages: " + b.Pages, "Language: " + b.Language, "ISBN: " + b.Isbn;
    InfoMessageGrouped(b);
    assert "Title: *" + b.Title + "*\n" == l0 + "\n";
    assert "Author: _" + b.Author + "_\n" == l1 + "\n";
    SevenLines(l0, l1, l2, l3, l4, l5, l6);
  }

  lemma InfoMessageGrouped(b: Book)
    ensures FormatInfoBookMessage(b)
         == ("Title: *" + b.Title + "*\n") + ("Author: _" + b.Author + "_\n") + ("Year: " + b.Year + "\n")
          + ("Format: " + b.Format + "\n") + ("Pages: " + b.Pages + "\n") + ("Language: " + b.Language + "\n")
          + ("ISBN: " + b.Isbn + "\n")
  {
    var m0 := "Title: *" + b.Title + "*\n";
    Group3(m0, "Author: _", b.Author, "_\n");
    var m1 := m0 + ("Author: _" + b.Author + "_\n");
    Group3(m1, "Year: ", b.Year, "\n");
    var m2 := m1 + ("Year: " + b.Year + "\n");
    Group3(m2, "Format: ", b.Format, "\n");
    var m3 := m2 + ("Format: " + b.Format + "\n");
    Group3(m3, "Pages: ", b.Pages, "\n");
    var m4 := m3 + ("Pages: " + b.Pages + "\n");
    Group3(m4, "Language: ", b.Language, "\n");
    var m5 := m4 + ("Language: " + b.Language + "\n");
    Group3(m5, "ISBN: ", b.Isbn, "\n");
  }

  lemma Group3(x: string, a: string, b: string, c: string)
    ensures x + a + b + c == x + (a + b + c)
  {
  }

  lemma SevenLines(l0: string, l1: string, l2: string, l3: string, l4: string, l5: string, l6: string)
    ensures Lines([l0, l1, l2, l3, l4, l5, l6])
         == (l0 + "\n") + (l1 + "\n") + (l2 + "\n") + (l3 + "\n") + (l4 + "\n") + (l5 + "\n") + (l6 + "\n")
  {
    var s6 := [l6];
    var t6 := LinesCons(l6, []);
    AppendEmpty(s6);
    AppendEmpty(l6 + "\n");
    assert t6 == l6 + "\n";
    var s5 := [l5] + s6;
    var t5 := LinesCons(l5, s6);
    var s4 := [l4] + s5;
    var t4 := LinesCons(l4, s5);
    var s3 := [l3] + s4;
    var t3 := LinesCons(l3, s4);
    var s2 := [l2] + s3;
    var t2 := LinesCons(l2, s3);
    var s1 := [l1] + s2;
    var t1 := LinesCons(l1, s2);
    var s0 := [l0] + s1;
    var t0 := LinesCons(l0, s1);
    SevenCons(l0, l1, l2, l3, l4, l5, l6);
    Reassociate(l0 + "\n", l1 + "\n", l2 + "\n", l3 + "\n", l4 + "\n", l5 + "\n", l6 + "\n");
  }

  lemma SevenCons<T>(a: T, b: T, c: T, d: T, e: T, f: T, g: T)
    ensures [a, b, c, d, e, f, g] == [a] + ([b] + ([c] + ([d] + ([e] + ([f] + [g])))))
  {
  }

  lemma Reassociate(a: string, b: string, c: string, d: string, e: string, f: string, g: string)
    ensures a + b + c + d + e + f + g == a + (b + (c + (d + (e + (f + g)))))
  {
    assert a + b + c + d + e + f + g == a + (b + c + d + e + f + g);
    assert b + c + d + e + f + g == b + (c + d + e + f + g);
    assert c + d + e + f + g == c + (d + e + f + g);
    assert d + e + f + g == d + (e + f + g);
    assert e + f + g == e + (f + g);
  }

  lemma LinesCons(l: string, ls: seq<string>) returns (t: string)
    ensures t == Lines([l] + ls) == l + "\n" + Lines(ls)
  {
    assert ([l] + ls)[1..] == ls;
    t := Lines([l] + ls);
  }

  /** As long as no field has a line break of its own, the detail message splits back
      into its seven lines, with the empty text after the final break. */
  lemma InfoMessageLines(b: Book)
    requires NoBreaksInInfo(b)
    ensures Split(FormatInfoBookMessage(b), '\n') == InfoLines(b) + [""]
  {
    InfoMessageIsLines(b);
    NoBreakInLabelled(b);
    SplitLines(InfoLines(b));
  }

  /** None of the fields the detail message shows has a line break. */
  ghost predicate NoBreaksInInfo(b: Book)
  {
    '\n' !in b.Title && '\n' !in b.Author && '\n' !in b.Year && '\n' !in b.Format
    && '\n' !in b.Pages && '\n' !in b.Language && '\n' !in b.Isbn
  }

  /** None of the fields the result message shows has a line break. */
  ghost predicate NoBreaksInResult(b: Book)
  {
    '\n' !in b.Title && '\n' !in b.Author && '\n' !in b.Year && '\n' !in b.Format && '\n' !in b.Size
  }

  lemma NoBreakInLabelled(b: Book)
    requires NoBreaksInInfo(b)
    ensures forall k | 0 <= k < |InfoLines(b)| :: '\n' !in InfoLines(b)[k]
  {
  }

  /** The detail message does not depend on the size, id, checksum or cover. */
  lemma InfoMessageOmits(b: Book, size: string, id: string, checksum: string, cover: string)
    ensures FormatInfoBookMessage(b.(Size := size, ID := id, Checksum := checksum, CoverURL := cover))
         == FormatInfoBookMessage(b)
  {
  }

  /** The result message has three lines: the title in bold, "By" and the author in
      italics, then year, format and size separated by " | ". */
  lemma BookMessageLines(b: Book)
    requires NoBreaksInResult(b)
    ensures Split(FormatBookMessage(b), '\n')
         == ["*" + b.Title + "*", "By _" + b.Author + "_", b.Year + " | " + b.Format + " | " + b.Size]
  {
    var l1, l2, l3 := "*" + b.Title + "*", "By _" + b.Author + "_", b.Year + " | " + b.Format + " | " + b.Size;
    assert '\n' !in l1 && '\n' !in l2 && '\n' !in l3;
    assert FormatBookMessage(b) == l1 + "\n" + (l2 + "\n" + l3);
    SplitAt(l1, '\n', l2 + "\n" + l3);
    SplitAt(l2, '\n', l3);
  }

  function InfoButton(id: string): Button
  {
    Button("info_button", "More info", id)
  }

  function DownloadButton(id: string): Button
  {
    Button("download_button", "Download", id)
  }

  /** One search result: its message in Markdown, with both buttons carrying its id. */
  function ResultReply(b: Book): Outbound
  {
    Message(FormatBookMessage(b), true, [InfoButton(b.ID), DownloadButton(b.ID)])
  }

  /** The text handler: "Searching...", then the result loop over the books of the
      search page; a listing that panics stops the handler after "Searching...". */
  method OnText(query: string, escape: string -> string, get: string -> Result<seq<Scraper.ListingItem>, Error>)
    returns (sent: seq<Outbound>, panic: Option<Panic>)
    ensures |sent| >= 1 && sent[0] == Searching
    ensures get(Scraper.SearchURL(query, escape)).Failure? ==> sent == [Searching, NoResult] && panic == None
    ensures get(Scraper.SearchURL(query, escape)).Success? ==>
      var items := get(Scraper.SearchURL(query, escape)).value;
      && (panic.Some? <==> exists i | 0 <= i < |items| :: Scraper.ListingBook(items[i]).Panicked?)
      && (panic.Some? ==> sent == [Searching])
      && (panic.None? && items == [] ==> sent == [Searching, NoResult])
      && (panic.None? && items != [] ==> |sent| == 1 + Min(|items|, LastIndex + 1))
      && (panic.None? && items != [] ==> forall k | 1 <= k < |sent| ::
            Scraper.ListingBook(items[k - 1]).Returned? &&
            sent[k] == ResultReply(Scraper.ListingBook(items[k - 1]).value))
  {
    sent := [Searching];
    var found := Scraper.SearchBooks(query, escape, get);
    if get(Scraper.SearchURL(query, escape)).Success? {
      var items := get(Scraper.SearchURL(query, escape)).value;
      EachReturns(items, Scraper.ListingBook);
    }
    match found {
      case Panicked(p) =>
        return sent, Some(p);
      case Returned(books) =>
        var replies := SendResults(books, ResultReply);
        sent := sent + replies;
        panic := None;
    }
  }

  /** The "More info" handler: answers the callback, fetches the detail page of the
      button's id, and sends its cover with the detail message and a "Download" button
      carrying the detail page's own id. Nothing more is sent when the fetch fails. */
  method OnInfo(data: string, get: string -> Result<Scraper.DetailPage, Error>)
    returns (sent: seq<Outbound>, panic: Option<Panic>)
    ensures |sent| >= 1 && sent[0] == CallbackAnswer("Fetching more data...")
    ensures panic.Some? <==> Scraper.FetchBookMetadata(data, get).Panicked?
    ensures panic.Some? ==> sent == [CallbackAnswer("Fetching more data...")]
    ensures Scraper.FetchBookMetadata(data, get).Returned? ==>
      var (b, err) := Scraper.FetchBookMetadata(data, get).value;
      && (err.Some? ==> sent == [sent[0]])
      && (err.None? ==> sent == [sent[0], Photo(b.CoverURL, FormatInfoBookMessage(b), true, [DownloadButton(b.ID)])])
  {
    sent := [CallbackAnswer("Fetching more data...")];
    match Scraper.FetchBookMetadata(data, get) {
      case Panicked(p) =>
        return sent, Some(p);
      case Returned((b, err)) =>
        panic := None;
        if err.Some? {
          return;
        }
        sent := sent + [Photo(b.CoverURL, FormatInfoBookMessage(b), true, [DownloadButton(b.ID)])];
    }
  }

  /** The response to a file download: the `filename` parameter of its
      Content-Disposition header ("" when the header is missing or does not parse)
      and the body, or the error reading it. */
  datatype FileResponse = FileResponse(filename: string, body: Result<Bytes, Error>)

  const Downloading := Plain("Downloading...")
  const Uploading := Plain("Uploading to Telegram...")
  const Converting := Plain("Converting to mobi as well...")
  const ConversionFailed := Plain("Convertion failed :'(")

  /** What is sent for a downloaded file: the file under its own name; then, only
      when its extension is exactly ".epub", the conversion. */
  function Delivery(filename: string, content: Bytes, env: Converter.Environment): seq<Outbound>
  {
    [Uploading, Document(filename, content)]
    + if Ext(filename) == ".epub" then [Converting] + ConversionReport(Converter.Conversion(filename, env)) else []
  }

  /** After the conversion: a failure is reported and a document is still sent, built
      from the empty result. */
  function ConversionReport(c: Converter.Converted): seq<Outbound>
  {
    (if c.err.Some? then [ConversionFailed] else [])
    + [Document(Base(c.name), if c.content.Some? then c.content.value else [])]
  }

  /** The file goes first under its own name; the conversion follows exactly when the
      extension is ".epub". */
  lemma DeliveryStart(filename: string, content: Bytes, env: Converter.Environment)
    ensures var d := Delivery(filename, content, env);
      && |d| >= 2 && d[..2] == [Uploading, Document(filename, content)]
      && (Converting in d <==> Ext(filename) == ".epub")
      && (Ext(filename) != ".epub" ==> |d| == 2)
  {
    var d := Delivery(filename, content, env);
    var start := [Uploading, Document(filename, content)];
    if Ext(filename) == ".epub" {
      var report := ConversionReport(Converter.Conversion(filename, env));
      assert d == start + [Converting] + report;
      assert d[2] == Converting;
    } else {
      assert d == start;
      assert Converting !in start by {
        assert start[0] != Converting && start[1] != Converting;
      }
    }
  }

  /** For an EPUB, after "Converting to mobi as well...": a failed conversion is reported
      and then sent anyway as an empty document named ".", the base name of ""; a
      successful one is sent under the base name of the converted path, with the
      converted bytes. */
  lemma DeliveryOfEpub(filename: string, content: Bytes, env: Converter.Environment)
    requires Ext(filename) == ".epub"
    ensures var d, c := Delivery(filename, content, env), Converter.Conversion(filename, env);
      && |d| >= 3 && d[2] == Converting
      && (c.err.Some? ==> d[3..] == [ConversionFailed, Document(".", [])])
      && (c.err.None? ==> d[3..] == [Document(Base(c.name), c.content.value)])
  {
    var d := Delivery(filename, content, env);
    var c := Converter.Conversion(filename, env);
    var report := ConversionReport(c);
    Converter.ConversionOutcome(filename, env);
    assert d == [Uploading, Document(filename, content), Converting] + report;
  }

  /** A plain e-book name, stem + ".epub", is also delivered as stem + ".mobi", with the
      converter's output as its content. */
  lemma DeliveredAsMobi(stem: string, content: Bytes, env: Converter.Environment)
    requires stem != "" && Converter.AllAllowed(stem) && '.' !in stem
    requires Converter.Conversion(stem + ".epub", env).err.None?
    ensures Last(Delivery(stem + ".epub", content, env)) == Document(stem + ".mobi", env.read.value)
  {
    ExtOfDotted(stem, ".epub");
    Converter.ConvertedEpubName(stem, env);
  }

  function Last<T>(s: seq<T>): T
    requires s != []
  {
    s[|s| - 1]
  }

  /** The download handler's part after the download: sends the file and, for an EPUB,
      the converted file. */
  method DeliverFile(filename: string, content: Bytes, env: Converter.Environment) returns (sent: seq<Outbound>)
    ensures sent == Delivery(filename, content, env)
  {
    sent := [Uploading, Document(filename, content)];
    var extension := Ext(filename);
    if extension == ".epub" {
      sent := sent + [Converting];
      var report := SendConversion(filename, content, env);
      sent := sent + report;
    }
  }

  /** Converting an EPUB and sending the result, whether or not the conversion failed. */
  method SendConversion(filename: string, content: Bytes, env: Converter.Environment) returns (sent: seq<Outbound>)
    ensures sent == ConversionReport(Converter.Conversion(filename, env))
  {
    var converted, _ := Converter.ConvertFile(filename, content, env);
    sent := [];
    if converted.err.Some? {
      sent := [ConversionFailed];
    }
    var bytes := if converted.content.Some? then converted.content.value else [];
    sent := sent + [Document(Base(converted.name), bytes)];
  }

  /** The "Download" handler: "Downloading...", the detail page of the button's id,
      then a single fetch of the file at the detail page's id; nothing more is sent when
      either fetch or the read of the body fails. */
  method OnDownload(data: string, getPage: string -> Result<Scraper.DetailPage, Error>,
                    getFile: string -> Result<FileResponse, Error>, env: Converter.Environment)
    returns (sent: seq<Outbound>, panic: Option<Panic>)
    ensures |sent| >= 1 && sent[0] == Downloading
    ensures panic.Some? <==> Scraper.FetchBookMetadata(data, getPage).Panicked?
    ensures panic.Some? ==> sent == [Downloading]
    ensures Scraper.FetchBookMetadata(data, getPage).Returned? ==>
      var (b, err) := Scraper.FetchBookMetadata(data, getPage).value;
      var file := getFile(Scraper.BookURL(b.ID));
      && (err.Some? || file.Failure? || file.value.body.Failure? ==> sent == [Downloading])
      && (err.None? && file.Success? && file.value.body.Success? ==>
            sent == [Downloading] + Delivery(file.value.filename, file.value.body.value, env))
  {
    sent := [Downloading];
    panic := None;
    match Scraper.FetchBookMetadata(data, getPage) {
      case Panicked(p) =>
        return sent, Some(p);
      case Returned((b, err)) =>
        if err.Some? {
          return;
        }
        match Scraper.GetBookFile(b.ID, getFile) {
          case Failure(_) =>
            return;
          case Success(response) =>
            match response.body {
              case Failure(_) =>
                return;
              case Success(content) =>
                var delivered := DeliverFile(response.filename, content, env);
                sent := sent + delivered;
            }
        }
    }
  }
}
