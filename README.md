# LibBot, modelled in Dafny

LibBot is a Telegram bot that finds e-books on a catalogue site. A text message
is a search. The bot lists up to eleven results, each with a "More info" and a
"Download" button. "More info" sends the book's cover with its details.
"Download" sends the file. For an EPUB it also converts the file to MOBI with
Calibre's `ebook-convert` and sends that too. An older bot (`cmd/libbot.go`)
scraped a Library Genesis result table by column and answered with one
message per book.

This project models:

- the scrapers that turn the selector results of detail and search pages into
  `Book` records;
- the URLs they fetch;
- the converter's file naming and its all-or-nothing result;
- the message templates;
- the three handlers of the current bot and the text handler of the old one.

Modules follow the repository:

| module | file | models |
|---|---|---|
| `Books` | `book.dfy` | `book/book.go`: the eleven-field record, in declaration order |
| `Scraper` | `scraper.dfy` | `scraper/scraper.go` |
| `Converter` | `converter.dfy` | `converter/converter.go` |
| `Bot` | `bot.dfy` | `libbot.go`: templates, text, "More info" and "Download" handlers |
| `LegacyBot` | `legacy_bot.dfy` | `cmd/libbot.go` |
| `Chat` | `chat.dfy` | the outbound Telegram messages and the shared result loop |
| `Go`, `Text`, `Paths`, `Dom`, `Wrappers` | | Go run-time panics, the `strings` and `path/filepath` functions used, selector results, Option/Result |

How the outside world appears in the model:

- **Selector results.** goquery results are inputs: a `Dom.Selection` is the
  sequence of matched nodes in document order. `Eq(0).Text()` is
  `Dom.FirstText`; `Eq(0).AttrOr(a, "")` is `Dom.FirstAttr`.
- **HTTP fetches.** A fetch is a function parameter `get` from URL to page or
  error, so every contract names the URL fetched.
- **Panics.** A Go index-out-of-range panic is `Go.Outcome.Panicked`.
- **Loops over selections.** The `Each` loop over selections is `Go.Each`:
  results in order, and the first panic ends the run.
- **Converter I/O.** The converter's I/O steps are a `Converter.Environment`
  of outcomes. `ConvertFile` returns the trace of effects it asks for.
- **Sending.** Handlers return the sequence of `Chat.Outbound` values they
  send.

Some consequences of the code that the model keeps:

- A file field without a comma panics, because `files[1]` is out of range.
  There is no fallback to an empty size.
- One malformed search result aborts the whole listing. It is not skipped.
- The file download is a single fetch of the host followed by the detail
  page's id.
- A missing or unparsable Content-Disposition header gives the file an empty
  name. The handler still sends it.
- Only some detail fields are trimmed, and no field of a search result is.

## Model

| member | source | states |
|---|---|---|
| Go.EachReturns | scraper/scraper.go:49-66 | the per-item loop completes iff no item panics, and then yields exactly one result per item, in document order |
| Go.EachPanics | scraper/scraper.go:61-64 | a panicking loop's panic is that of the first item that panics, all earlier items having succeeded |
| Go.EachPanicPersists | scraper/scraper.go:49-66 | once the items seen so far panic, the whole loop ends in that same panic |
| Text.TrimSpace | scraper/scraper.go:23-33 | the trimmed text starts and ends with a non-blank character (or is empty) |
| Text.TrimLeft | scraper/scraper.go:23-33 | drops exactly a blank prefix: the result is a suffix, what was dropped is all blank, the result does not start blank |
| Text.TrimRight | scraper/scraper.go:23-33 | drops exactly a blank suffix: the result is a prefix, what was dropped is all blank, the result does not end blank |
| Text.TrimSpaceOf | scraper/scraper.go:23-33 | TrimSpace removes the surrounding blanks and nothing else: blank + core + blank gives back any core that is itself trimmed |
| Text.TrimSpaceIdempotent | scraper/scraper.go:23-33 | trimming twice is trimming once |
| Text.Split | scraper/scraper.go:34 | at least one piece; a single piece iff the separator does not occur; no piece contains the separator |
| Text.JoinSplit | scraper/scraper.go:34 | joining the pieces of a split with the separator gives back the string |
| Text.SplitJoin | scraper/scraper.go:34 | splitting a join of separator-free pieces gives back the pieces |
| Text.SplitFirstTwo | scraper/scraper.go:34-36 | with a separator present there are at least two pieces; the first ends at the first separator and the second runs to the next one or the end |
| Text.JoinWithoutSeparator | scraper/scraper.go:56 | joining with "" is the plain concatenation of the pieces |
| Text.ReplaceAll | cmd/libbot.go:55 | same length; each character equal to the old one becomes the new one, every other character is unchanged |
| Text.ReplaceAllRemoves | cmd/libbot.go:55 | after replacing, the replaced character no longer occurs |
| Text.ReplaceAllRoundTrip | cmd/libbot.go:55 | replacing back restores the text when the replacement did not occur in it |
| Text.TrimSuffix | converter/converter.go:34 | a present suffix is removed so that result + suffix is the input; otherwise the input is returned unchanged |
| Paths.LastElement | converter/converter.go:34 | the final element has no separator and is what follows the last separator |
| Paths.Ext | converter/converter.go:34 | the extension is "" iff the final element has no '.', and otherwise starts with the final element's last '.' |
| Paths.ExtIsSuffix | converter/converter.go:34 | the extension is a suffix of the path |
| Paths.ExtOfDotted | libbot.go:126 | appending '.' and text without '.' or '/' makes that the extension |
| Paths.ExtOfMobi | converter/converter.go:35 | any path with ".mobi" appended has extension ".mobi" |
| Paths.Base | libbot.go:135 | the base is "." for the empty path and "/" for a path of separators only; otherwise it is the non-empty, separator-free text after the last separator once trailing separators are dropped |
| Paths.TrimTrailingSlashes | libbot.go:135 | a prefix of the path that does not end in a separator, everything dropped being separators |
| Paths.BaseOfChild | libbot.go:135 | a separator-free name placed under a directory is the base of the joined path |
| Dom.FirstText | scraper/scraper.go:23 | the text of the first node of the selection, "" when the selection is empty |
| Dom.FirstAttr | scraper/scraper.go:21 | the first node's attribute; "" when nothing matched or the attribute is absent |
| Dom.RemoveAll | cmd/libbot.go:33-36 | after removal no node matching the selector is left at any depth |
| Dom.RemoveAllKeeps | cmd/libbot.go:33-37 | a selector matches after removal iff it matched a node with no removed node at or above it |
| Dom.RemoveAllText | cmd/libbot.go:33-37 | the text after removal is exactly the text outside the removed subtrees, in document order |
| Dom.RemoveAllNothing | cmd/libbot.go:33-36 | a forest without matching nodes is left unchanged |
| Dom.RemoveAllAddsNothing | cmd/libbot.go:33-37 | removal never makes another selector match where it did not before |
| Dom.RemoveAllIdempotent | cmd/libbot.go:33-36 | removing twice is removing once |
| Dom.FindFirst | cmd/libbot.go:37 | the node found matches the selector, and nothing is found iff no node at any depth matches |
| Dom.FirstInOrder | cmd/libbot.go:37 | the first node of a sequence that matches: it matches and no earlier one does; none iff no node matches |
| Dom.FindFirstInDocumentOrder | cmd/libbot.go:37 | the node found is the first match of the forest in document order (each node before the nodes below it, then its next sibling) |
| Dom.FindFirstInside | cmd/libbot.go:37 | the node found lies inside the forest: a forest with no node of another kind yields none below it |
| Chat.SendResults | libbot.go:149-166 | no results sends only "No result found"; otherwise the first min(n, 11) results are rendered, in order |
| Scraper.FormatAndSize | scraper/scraper.go:34-36 | panics (index 1 of length 1) iff the field has no comma; otherwise format is the text before the first comma and size the text up to the next comma or the end |
| Scraper.FormatSizeUnique | scraper/scraper.go:34-36 | the format and size are determined by the field: only one split fits |
| Scraper.FormatAndSizeExample | scraper/scraper.go:33-36 | "EPUB, 2.1 MB" gives "EPUB" and " 2.1 MB", the blank after the comma kept |
| Scraper.ExtractBookMetadata | scraper/scraper.go:14-40 | panics iff the trimmed file field has no comma; otherwise title, author, year, language and isbn are trimmed first texts, pages is untrimmed, id and cover are attributes ("" if absent), format and size split the trimmed file field, checksum is "" |
| Scraper.ListingBook | scraper/scraper.go:61-64 | a search result panics iff its file field has no comma, with index 1 out of range for length 1 |
| Scraper.ListingBookFields | scraper/scraper.go:49-65 | a search result's book: id and title from the first title link, author the author texts concatenated in order, untrimmed year, format and size from the untrimmed file field, every other field "" |
| Scraper.AuthorTexts | scraper/scraper.go:51-55 | one text per author link, in order |
| Scraper.ExtractListingItem | scraper/scraper.go:49-66 | the loop body builds exactly the search result's book, or its panic |
| Scraper.ExtractBooksFromList | scraper/scraper.go:42-68 | the books are the per-item results in document order, or the first item's panic |
| Scraper.ExtractDownloadURL | scraper/scraper.go:70-84 | the href of the last link whose text is exactly "GET"; "" when none is |
| Scraper.ExtractDetailedMetadataURL | scraper/scraper.go:86-94 | the first cover link's href, "" when there is none |
| Scraper.BookURL | scraper/scraper.go:98-99 | the host followed by the id verbatim |
| Scraper.BookURLInjective | scraper/scraper.go:98-99 | different ids are fetched from different URLs |
| Scraper.FetchBookMetadata | scraper/scraper.go:96-109 | fetches the id's URL; on error the all-empty book and that error; otherwise the page's book with only its checksum replaced by the id, or its panic |
| Scraper.GetBookFile | scraper/scraper.go:111-122 | one fetch of the host followed by the id |
| Scraper.SearchURL | scraper/scraper.go:126-127 | the search path followed by the escaped query |
| Scraper.SearchBooks | scraper/scraper.go:124-136 | no books when the search fetch fails; otherwise the listing of the fetched results page |
| Converter.Sanitize | converter/converter.go:20-27 | the sanitised name has only ASCII letters, digits and '.', and is no longer than the input |
| Converter.SanitizeIsSubsequence | converter/converter.go:20-27 | sanitising only deletes: the result is a subsequence of the input |
| Converter.SanitizeCounts | converter/converter.go:20-27 | each allowed character occurs as often as in the input, no other character occurs |
| Converter.SanitizeAppend | converter/converter.go:20-27 | sanitising distributes over concatenation |
| Converter.SanitizeKeepsAllowed | converter/converter.go:20-27 | a name of allowed characters is left unchanged |
| Converter.SanitizeIdempotent | converter/converter.go:20-27 | sanitising twice is sanitising once |
| Converter.StagingPath | converter/converter.go:27 | a name other than "", "." and ".." is joined under the temporary directory and is the base of the path |
| Converter.MobiName | converter/converter.go:34-35 | the output name always ends in ".mobi" |
| Converter.MobiNameExt | converter/converter.go:34-35 | the output name's extension is ".mobi" |
| Converter.MobiNameStem | converter/converter.go:34-35 | the output name is the path with its extension removed, plus ".mobi" |
| Converter.MobiNameWithoutDot | converter/converter.go:27-35 | a sanitised name without '.' loses nothing: the output name is the path plus ".mobi" |
| Converter.MobiOfDotted | converter/converter.go:34-35 | replacing a final extension by ".mobi" keeps everything before it |
| Converter.ConversionOutcome | converter/converter.go:14-53 | all or nothing: an error comes with "" and no content, success with the .mobi name and the bytes read; success iff every step succeeds; the error is the first failing step's |
| Converter.ConvertedEpubName | converter/converter.go:27-52 | stem + ".epub" with a plain stem converts to stem + ".mobi" in the temporary directory, whose base is stem + ".mobi" |
| Converter.EpubStagedAsMobi | converter/converter.go:27-35 | stem + ".epub" is staged under the temporary directory and named stem + ".mobi" there |
| Converter.EffectsOrder | converter/converter.go:15-52 | the directory is made first and alone on failure; then write, run and read-back each only after the step before succeeded; the directory is removed last whatever happened |
| Converter.ConvertFile | converter/converter.go:14-53 | the step-by-step method returns the conversion outcome and asks for exactly the effects above |
| LegacyBot.TitleOf | cmd/libbot.go:33-37 | the title is the text of the first link with a `title` attribute, in document order, in cell 2 after every `font` node is removed; "" when every such link lay inside a `font` node or there was none |
| LegacyBot.TitleLinkHasNoFont | cmd/libbot.go:33-37 | the link whose text becomes the title has no font node below it |
| LegacyBot.TitleWithoutFont | cmd/libbot.go:33-37 | a title cell without font nodes is read as the first titled link's text |
| LegacyBot.RowBook | cmd/libbot.go:30-39 | id, author and year are the raw texts of cells 0, 1 and 4; the title comes from cell 2 |
| LegacyBot.RowBookIgnoresColumn3 | cmd/libbot.go:30-39 | cell 3 is never read |
| LegacyBot.ExtractBooks | cmd/libbot.go:22-42 | every row but the first yields exactly one book, in order |
| LegacyBot.CleanQuery | cmd/libbot.go:55 | same length, no spaces, each space replaced by '+' and every other character unchanged |
| LegacyBot.CleanQueryReversible | cmd/libbot.go:55 | a query without '+' can be read back from its cleaned form |
| LegacyBot.SearchURL | cmd/libbot.go:56 | the fixed prefix followed by the cleaned query |
| LegacyBot.SearchBooks | cmd/libbot.go:53-64 | no books when the fetch fails; otherwise one book per table row after the first |
| LegacyBot.FormatBookMessageLines | cmd/libbot.go:44-51 | the message has three lines: bold title, "By" and the italic author, the year |
| LegacyBot.OnText | cmd/libbot.go:86-104 | "Searching..." first; "No result found" when there are no books; otherwise the first min(n, 11) books' messages, in order |
| Bot.BookMessageLines | libbot.go:18-25 | the result message has three lines: bold title, "By" and the italic author, then year, format and size separated by " \| " |
| Bot.InfoMessageIsLines | libbot.go:27-39 | the detail message is its seven labelled lines Title, Author, Year, Format, Pages, Language, ISBN, each ending in a line break |
| Bot.InfoMessageLines | libbot.go:27-39 | with break-free fields the detail message splits back into exactly those seven lines |
| Bot.InfoMessageOmits | libbot.go:27-39 | the detail message does not depend on size, id, checksum or cover |
| Bot.SplitLines | libbot.go:27-39 | text of break-free lines, each ended by a break, splits back into those lines and a final "" |
| Bot.OnText | libbot.go:144-167 | "Searching..." first; a panicking listing stops there; no books sends "No result found"; otherwise the first min(n, 11) results, in order, each with its own id on both buttons |
| Bot.OnInfo | libbot.go:70-93 | answers the callback first; nothing more when the detail page panics or the fetch fails; otherwise the cover photo with the detail message and a Download button carrying the page's id |
| Bot.DeliveryStart | libbot.go:116-127 | the file is sent first under its own name; conversion is announced iff the extension is exactly ".epub", and nothing more is sent otherwise |
| Bot.DeliveryOfEpub | libbot.go:128-140 | a failed conversion is reported and still sent, as an empty document named "."; a successful one is sent under its base name with the converted bytes |
| Bot.DeliveredAsMobi | libbot.go:126-137 | stem + ".epub" with a plain stem is also delivered as stem + ".mobi" with the converter's output |
| Bot.DeliverFile | libbot.go:116-141 | the step-by-step delivery sends exactly the delivery described above |
| Bot.SendConversion | libbot.go:129-140 | after converting: the failure message when it failed, then always the document |
| Bot.OnDownload | libbot.go:95-142 | "Downloading..." first; nothing more when the detail fetch, the file fetch or the body read fails; otherwise the delivery of the file at the detail page's id, under its Content-Disposition name |

## Left out

- HTML parsing and CSS selector matching (goquery): selector results are
  inputs. `log.Fatal` on a parse error is a process exit and is not modelled.
- The network: fetches are function parameters. `url.QueryEscape` is an
  opaque parameter `escape` of `Scraper.SearchURL` and `Bot.OnText`.
- `mime.ParseMediaType`: `Bot.FileResponse` carries the already-extracted
  filename, "" when the header is missing or does not parse, as the code
  ignores that error.
- Telegram: bot creation, polling, the token, and the errors of `Send`. The
  code only logs those errors, so every send is assumed to go out.
- The shared `downloadButton`/`infoButton` values that the handlers
  reassign. Each reply here carries its own buttons, so races between
  concurrent callbacks are not modelled.
- The temporary directory, the file write and read, `os.RemoveAll` and the
  `ebook-convert` process: their outcomes are inputs, and they appear only as
  a trace of effects. The converter's standard output is not modelled.
- The regular expression's compile error: it cannot happen for the fixed
  pattern `[^a-zA-Z0-9.]+`, which is modelled directly as a character class.
- Logging.
- Text.TrimSpace: blank characters are the six ASCII ones plus U+0085 and
  U+00A0. The other Unicode space characters Go also trims (U+1680,
  U+2000-U+200A, U+2028, U+2029, U+202F, U+205F, U+3000) are not modelled.
- Dom.RemoveAll: `extractBooks` removes `font` nodes from the document in
  place. The model computes the cell without them as a new value, so
  aliasing with the rest of the document is not captured.
- LegacyBot.ExtractBooks: the `table.c tr:not(:first-child)` and `td`
  selectors are taken as given. The input is the table's rows, the header
  first, and each row is its cells in order.
- Go's `byte` slices are sequences of `Go.byte`. A nil slice and an empty
  one both send an empty document.
