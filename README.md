# book-retriever-v3 in Dafny

This project models the core of book-retriever-v3, a browser application that
keeps a reading list. The list is imported from a Goodreads "Want to Read" RSS
feed, or built by hand from a bibliographic search. Each record's identifiers
are filled in from the Google Books volumes service. Each record can be
checked for ebook and audiobook availability in the New York Public Library
catalog. The model covers:

- the feed ingestor (`GoodreadsService`): the saved feed URL, the fetch guards,
  the `rss > channel > item` normalisation, the 20-item cap and the per-field
  fallback chains of `parseRssItem`, including `cleanText`'s tag removal;
- the identifier resolver (`BookService`): `extractIdentifiers` as a loop,
  `fetchBookDetails` with its query choice, one-level retry and field merge,
  and the result mapping of `searchBooks`;
- the availability checker (`LibraryService`): the default library, the
  catalog search URL, the page classification into formats, the negative
  record on any failure, the sequential full check and the clearing of
  availability;
- the record store (`Storage.Database`): four keys with typed values, full
  replace saves, defaults on absent keys or read faults, rethrown write faults
  and `clearAll`;
- the handlers of the application shell (`App`), the import form
  (`GoodreadsImport`) and the reading list view (`BookList`), as classes whose
  fields are the component state.

The network, the XML parser, the clock and the random generator are inputs.
A fetch is an oracle `fetch: string -> Http.Response` from the URL fetched to
its outcome. The parser is `parse: string -> Document`. The volumes service
is `lookup: Query -> LookupResponse`. The time and the random token drawn
for the i-th item are `clock(i)` and `random(i)`. Storage faults are two flags
of a `Database` object: `readable` and `writable`.

Files: `types.dfy` (records and errors), `text.dfy` (substring search, trim,
join, tag removal, character references), `http.dfy` (responses,
`encodeURIComponent`, the relay URL), `storage.dfy`, `goodreads_service.dfy`,
`book_service.dfy`, `library_service.dfy`, `app.dfy`, `goodreads_import.dfy`,
`book_list.dfy`.

## Model

| member | source | states |
|---|---|---|
| Types.SearchIsbn | src/services/LibraryService.ts:23 | the search key is the ISBN-13 when it is present, else the ISBN-10; it is empty exactly when the record has neither |
| Text.ContainsIffOccurs | src/services/LibraryService.ts:59-60 | `includes` holds exactly when the phrase occurs at some index of the page |
| Text.TrimEmptyIffBlank | src/services/GoodreadsService.ts:57 | `trim()` gives '' exactly for texts made only of ECMAScript whitespace and line terminators |
| Text.TrimsToEmpty | src/components/GoodreadsImport.tsx:20 | the `trim()` emptiness test is the blank-text test |
| Text.StripTags | src/services/GoodreadsService.ts:251 | removing tags never lengthens the text |
| Text.StripTagsWithoutTags | src/services/GoodreadsService.ts:251 | text with no '<' passes through tag removal unchanged |
| Text.StripTagsIsTagFree | src/services/GoodreadsService.ts:251 | what tag removal leaves contains no tag start |
| Text.StripTagsFixesTagFree | src/services/GoodreadsService.ts:251 | tag-free text is a fixed point of tag removal |
| Text.StripTagsIdempotent | src/services/GoodreadsService.ts:251 | removing tags twice gives what removing them once gives |
| Text.StripTagsItalic | src/services/GoodreadsService.ts:251 | `<i>Dune</i>` becomes `Dune` |
| Text.DecodeEntities | src/services/GoodreadsService.ts:254-256 | decoding references never lengthens the text |
| Text.DecodeEntitiesWithoutReferences | src/services/GoodreadsService.ts:254-256 | text without '&' is not changed by reference decoding |
| Http.EncodeUriComponent | src/services/LibraryService.ts:43 | every character of the encoding is unreserved or '%', and the encoding is never shorter |
| Http.EncodeUnreservedUnchanged | src/services/LibraryService.ts:43 | a text of unreserved characters only, such as an ISBN, is encoded as itself |
| Http.ProxyUrl | src/services/GoodreadsService.ts:40 | the relay URL starts with the relay prefix and the encoded target adds no '&', '?' or '#' |
| Storage.ReadOr | src/services/Database.ts:13-18 | a getter gives the stored value when the key is present and readable, else its default |
| Storage.Database.GetBooks | src/services/Database.ts:11-19 | an absent key or a read fault gives []; a readable key gives the saved list |
| Storage.Database.GetUser | src/services/Database.ts:31-39 | an absent or unreadable key gives null; a readable key gives the saved user |
| Storage.Database.GetLibraries | src/services/Database.ts:51-59 | an absent key or a read fault gives []; a readable key gives the saved list |
| Storage.Database.GetAvailability | src/services/Database.ts:71-79 | an absent key or a read fault gives {}; a readable key gives the saved map |
| Storage.Database.SaveBooks | src/services/Database.ts:21-28 | a full replace of the books key only; a following read returns exactly the list; a write fault is rethrown and changes nothing |
| Storage.Database.SaveUser | src/services/Database.ts:41-48 | the same for the user key |
| Storage.Database.SaveLibraries | src/services/Database.ts:61-68 | the same for the libraries key |
| Storage.Database.SaveAvailability | src/services/Database.ts:81-88 | the same for the availability key |
| Storage.Database.ClearAll | src/services/Database.ts:91-101 | after a successful clear every getter gives its default and the feed URL key is kept; a fault is rethrown and removes nothing |
| GoodreadsService.GetRssUrl | src/services/GoodreadsService.ts:21-28 | the saved feed URL, or null when absent or unreadable |
| GoodreadsService.SaveRssUrl | src/services/GoodreadsService.ts:11-18 | writes only the feed URL key, which then reads back as the URL; a fault is rethrown |
| GoodreadsService.CleanText | src/services/GoodreadsService.ts:247-257 | absent or empty text gives ''; cleaning never lengthens text; a numeric title makes it throw |
| GoodreadsService.CleanTextPlain | src/services/GoodreadsService.ts:248-256 | text with no '<' and no '&' is cleaned to itself |
| GoodreadsService.CleanTextItalicTitle | src/services/GoodreadsService.ts:251-256 | the title `<i>Dune</i>` is cleaned to `Dune` |
| GoodreadsService.BookIdOf | src/services/GoodreadsService.ts:183-186 | the id is `book_id` if present, else `guid`, else a made-up `goodreads-` id; never empty |
| GoodreadsService.TitleOf | src/services/GoodreadsService.ts:189 | the cleaned title, or 'Unknown Title' when cleaning yields ''; never empty |
| GoodreadsService.AuthorAsWrittenUndefined | src/services/GoodreadsService.ts:192-193 | an `<author>` without `<name>` gives an undefined author as written, 'Unknown Author' as corrected |
| GoodreadsService.AuthorAsWritten | src/services/GoodreadsService.ts:192-193 | the chain as written: `author_name` when present; else, with no `<author>`, 'Unknown Author'; the author is undefined exactly when there is no `author_name` and an `<author>` without `<name>` |
| GoodreadsService.AuthorOf | src/services/GoodreadsService.ts:192-193 | never empty; equal to the written chain wherever that gives a non-empty author; 'Unknown Author' when no author field is there |
| GoodreadsService.DigitRun | src/services/GoodreadsService.ts:218 | the greedy `\d+`: a prefix made of digits that stops before the next non-digit |
| GoodreadsService.ShowId | src/services/GoodreadsService.ts:218-219 | a match is a non-empty run of digits that occurs after `/show/` in the link |
| GoodreadsService.ShowIdLeftmost | src/services/GoodreadsService.ts:218-219 | `match(/\/show\/(\d+)/)`: no match exactly when no `/show/<digit>` occurs; otherwise the group is the greedy digit run at the leftmost occurrence |
| GoodreadsService.CoverUrlOf | src/services/GoodreadsService.ts:202-222 | the first present image URL in the order large, standard, medium, small; without images, the placeholder for the `/show/` id of a text link mentioning goodreads.com when it has one, and '' in every other case |
| GoodreadsService.ErrorRecord | src/services/GoodreadsService.ts:232-243 | the minimal record has a non-empty title |
| GoodreadsService.ParseRssItem | src/services/GoodreadsService.ts:174-243 | every record, mapped or from the catch, has a non-empty id, title and author, no ISBN-13 and no availability |
| GoodreadsService.ParseRssItemFields | src/services/GoodreadsService.ts:174-231 | every record has a non-empty id, title and author and no availability; a text title takes every fallback chain, with isbn and date defaulting to '' |
| GoodreadsService.ParseRssItemNumericTitle | src/services/GoodreadsService.ts:232-243 | an item whose mapping throws becomes id `error-<time>`, the raw title, author 'Unknown', empty isbn, cover and date |
| GoodreadsService.ParseRssItemDune | src/services/GoodreadsService.ts:174-231 | the worked example item maps to id 77, title Dune, author Frank Herbert, its ISBN and its large image |
| GoodreadsService.ItemsOf | src/services/GoodreadsService.ts:93-95 | a single item becomes a one-element list; a list is kept |
| GoodreadsService.FirstItems | src/services/GoodreadsService.ts:100 | the first min(n, 20) items, in feed order |
| GoodreadsService.FeedRecords | src/services/GoodreadsService.ts:77-103 | a parse without `rss` or `channel` is an error; no `item` gives []; else at most 20 records, record i mapped from item i |
| GoodreadsService.SingleItemOneRecord | src/services/GoodreadsService.ts:93-95 | a channel with a single item yields exactly one record |
| GoodreadsService.FetchFeed | src/services/GoodreadsService.ts:40-59 | a network failure, a non-ok status or a blank body throws before any item is mapped; otherwise the parsed feed is mapped; never more than 20 records |
| GoodreadsService.FetchBooks | src/services/GoodreadsService.ts:31-37 | the URL given, else the saved one; with neither it throws 'No RSS URL provided' |
| BookService.LastIdentifierIsLast | src/services/BookService.ts:91-97 | the last identifier entry of a type wins |
| BookService.LastIdentifierAbsent | src/services/BookService.ts:85-97 | without an entry of the type the identifier is '' |
| BookService.ExtractIdentifiers | src/services/BookService.ts:84-100 | the scan returns the last ISBN-10 and the last ISBN-13, '' for missing ones or an absent list |
| BookService.DetailsQuery | src/services/BookService.ts:48-49 | `isbn:<isbn>` when the ISBN-10 is non-empty, else the title and author query; one result |
| BookService.Merge | src/services/BookService.ts:71-77 | id, title, author and availability kept; non-empty hit identifiers replace the record's; a present cover or date is kept |
| BookService.RetryErasesIsbn | src/services/BookService.ts:57-65 | as written, two misses return the record with its ISBN-10 erased; corrected, the record comes back unchanged |
| BookService.AsWrittenRetryIsbn | src/services/BookService.ts:59-63 | as written, the retry path returns the hit's ISBN-10 or '' |
| BookService.FetchBookDetailsAsWritten | src/services/BookService.ts:40-82 | as written: no query exactly when the record has an ISBN-13; at most two queries, and one when the ISBN-10 is empty; the id is kept |
| BookService.AsWrittenKeeps | src/services/BookService.ts:57-77 | through the retry, id, title, author, availability and a present ISBN-13, cover or date are kept |
| BookService.FetchBookDetails | src/services/BookService.ts:40-82 | corrected: a record with an ISBN-10 still has one afterwards |
| BookService.FetchBookDetailsNoOp | src/services/BookService.ts:42-44 | a record with an ISBN-13 is returned unchanged without a query |
| BookService.FetchBookDetailsQueries | src/services/BookService.ts:48-65 | one query, or two exactly when the ISBN query misses; the second is the title query; each asks for one result |
| BookService.FetchBookDetailsKeeps | src/services/BookService.ts:71-77 | enrichment never removes information from the record |
| BookService.FetchBookDetailsFailure | src/services/BookService.ts:51-53 | a non-ok or failed first request returns the record unchanged |
| BookService.FetchBookDetailsNoHit | src/services/BookService.ts:55-81 | without a usable hit (no items, a first volume without info, whose error is caught, or a retry that finds nothing usable) the record comes back as received |
| BookService.FetchBookDetailsHit | src/services/BookService.ts:68-77 | a hit on the first query is merged into the record |
| BookService.SearchResult | src/services/BookService.ts:20-33 | id and title from the volume; authors joined by ', ' or 'Unknown'; isbn and isbn13 from the identifiers, '' when missing |
| BookService.SearchBooks | src/services/BookService.ts:6-38 | a non-ok status or failed request throws; no items gives []; otherwise one record per item in order, or an error when a volume lacks its info |
| LibraryService.SearchUrlQuery | src/services/LibraryService.ts:43 | the fixed catalog URL with the encoded key filling exactly the `query` parameter |
| LibraryService.SearchUrl | src/services/LibraryService.ts:43 | the URL starts with the catalog search prefix and is as long as prefix, encoded key and fixed parameters together |
| LibraryService.IsEbookAvailable | src/services/LibraryService.ts:59 | the ebook flag holds exactly when 'Available to borrow' and 'eBook' both occur in the page |
| LibraryService.IsAudiobookAvailable | src/services/LibraryService.ts:60 | the audiobook flag holds exactly when 'Available to borrow' and 'Audiobook' both occur in the page |
| LibraryService.FormatOf | src/services/LibraryService.ts:62-70 | the format stands for exactly the formats found and is 'none' exactly when none was |
| LibraryService.CheckedRecord | src/services/LibraryService.ts:59-88 | one entry from the stored library with the search URL, the time of the check, the flags of the page; available iff format is not 'none'; only availability changes |
| LibraryService.NegativeRecord | src/services/LibraryService.ts:91-107 | one entry for the default library, not available, format 'none', same URL; only availability changes |
| LibraryService.FindLibrary | src/services/LibraryService.ts:36 | a library found is in the list and has the id |
| LibraryService.FindLibraryFirst | src/services/LibraryService.ts:36-40 | the first library with the id is found, and none exactly when no library has it |
| LibraryService.InitLibraries | src/services/LibraryService.ts:13-18 | the key is left alone or set to the default library; a readable non-empty list is kept; with a writable medium the list read afterwards is non-empty |
| LibraryService.InitLibrariesKeepsStored | src/services/LibraryService.ts:13-18 | a readable non-empty list is never overwritten |
| LibraryService.InitLibrariesProvidesDefault | src/services/LibraryService.ts:13-18 | with a working store, an empty list becomes exactly the default library |
| LibraryService.InitLibrariesIdempotent | src/services/LibraryService.ts:13-18 | initialising twice is initialising once, and fails only if the first run did |
| LibraryService.InitializeDefaultLibrary | src/services/LibraryService.ts:13-18 | writes the default library only when the list read is empty; fails only on that write |
| LibraryService.CheckedBook | src/services/LibraryService.ts:21-109 | no search key returns the record as it is; in every case only availability changes |
| LibraryService.CheckedBookShape | src/services/LibraryService.ts:21-108 | with a search key: one entry of the 'nypl' library, for the search URL of the ISBN-13, else ISBN-10, stamped now, available exactly when a format was found |
| LibraryService.CheckedBookAvailableOnlyFromPage | src/services/LibraryService.ts:50-76 | a checked record is marked available only if the catalog page was fetched and says 'Available to borrow' |
| LibraryService.CheckedBookBothFormats | src/services/LibraryService.ts:59-88 | a page offering both formats gives the default library, available, 'both' |
| LibraryService.CheckedBookFetchFails | src/services/LibraryService.ts:46-54 | a non-ok or failed catalog request gives the negative record of the default library |
| LibraryService.CheckedBookNoLibrary | src/services/LibraryService.ts:31-40 | a failed initialisation, or no 'nypl' library in the list read, gives the negative record |
| LibraryService.CheckedBookFound | src/services/LibraryService.ts:35-90 | a fetched page and the stored 'nypl' library give that library's entry, with its name and the formats found on the page |
| LibraryService.CheckBookAvailability | src/services/LibraryService.ts:21-109 | returns `CheckedBook` of the libraries before the call, whose entry the CheckedBook lemmas give for each path; initialises the libraries only when there is a search key |
| LibraryService.CheckedBooks | src/services/LibraryService.ts:118-121 | same length and order as the list; record i is the check of record i at its time |
| LibraryService.CheckedBookAfterInit | src/services/LibraryService.ts:31-36 | a check after initialisation gives what a check before it gives |
| LibraryService.CheckStep | src/services/LibraryService.ts:118-121 | checking a record after earlier records initialised the libraries gives what checking against the libraries at the start gives |
| LibraryService.CheckEach | src/services/LibraryService.ts:118-124 | the loop returns the checked list of `CheckedBooks` and waits 500 ms per record |
| LibraryService.CheckAllBooksAvailability | src/services/LibraryService.ts:112-134 | returns and saves the checked list, one 500 ms pause per record; only the final save can fail |
| LibraryService.WithoutAvailability | src/services/LibraryService.ts:141-144 | same length; each record without availability and otherwise unchanged |
| LibraryService.WithoutAvailabilityIdempotent | src/services/LibraryService.ts:141-144 | clearing twice is clearing once |
| LibraryService.ClearAvailabilityData | src/services/LibraryService.ts:137-153 | returns and saves the cleared list; a write fault is rethrown |
| App.RemoveById | src/App.tsx:84 | no record of the id is left; every kept record was in the list; every record of another id is kept |
| App.RemoveAbsentId | src/App.tsx:84 | removing an absent id changes nothing |
| App.RemoveByIdConcat | src/App.tsx:84 | removal distributes over concatenation, so the kept records stay in order |
| App.RemoveByIdKeepsUnique | src/App.tsx:84 | removal keeps ids unique |
| App.RemoveByIdCount | src/App.tsx:84 | with unique ids, removing a listed id removes exactly one record |
| App.DemoBooksWellFormed | src/App.tsx:112-140 | three demo records with distinct ids, each with both ISBNs |
| App.DemoBooksResolved | src/App.tsx:112-140 | the resolver leaves each demo record unchanged without a query; the catalog key is its ISBN-13 |
| App.DemoBooks | src/App.tsx:112-140 | three demo records with distinct ids |
| App.AppState.constructor | src/App.tsx:14-19 | the initial state: no books, loading, no error, not importing, not in demo mode |
| App.AppState.LoadBooks | src/App.tsx:23-60 | stored records win; else a non-empty feed result is shown and saved; a feed failure changes nothing and sets no error; loading ends on every path |
| App.AppState.AddBook | src/App.tsx:65-80 | a listed id gives the duplicate message and changes nothing; otherwise the record is appended and saved; a failed save shows a message; ids stay unique |
| App.AppState.RemoveBook | src/App.tsx:82-91 | the list without the id is shown and saved; a failed save shows a message |
| App.AppState.HandleBooksImported | src/App.tsx:93-102 | the imported list replaces the list and is saved; the import view closes only when the save succeeds |
| App.AppState.UpdateBooks | src/App.tsx:104-106 | the list shown becomes the given list |
| App.AppState.HandleStartDemo | src/App.tsx:108-151 | the demo records replace the list and are saved; demo mode starts only when the save succeeds; loading ends |
| GoodreadsImport.FailureMessage | src/components/GoodreadsImport.tsx:49 | the failure message starts with the import failure prefix |
| GoodreadsImport.ReportOf | src/components/GoodreadsImport.tsx:38-49 | books are handed on and success shown exactly for a non-empty result, with no error; every other result shows an error |
| GoodreadsImport.ImportForm.constructor | src/components/GoodreadsImport.tsx:11-15 | the URL field starts as the saved feed URL or '' |
| GoodreadsImport.ImportForm.EditRssUrl | src/components/GoodreadsImport.tsx:86 | the field holds what was typed |
| GoodreadsImport.ImportForm.ReportFetch | src/components/GoodreadsImport.tsx:35-46 | the form after the fetch is the report of its result |
| GoodreadsImport.ImportForm.SaveAndFetch | src/components/GoodreadsImport.tsx:32-49 | the URL is saved before the fetch; a failed save is reported and nothing is fetched |
| GoodreadsImport.ImportForm.HandleImport | src/components/GoodreadsImport.tsx:17-53 | a blank URL is refused before any save or fetch; otherwise the URL is saved, then the fetch result is reported; loading ends on every path |
| BookList.DisplayedBooks | src/components/BookList.tsx:19 | at most the first 20 records, in order |
| BookList.NoticeIffHidden | src/components/BookList.tsx:72-76 | the overflow notice appears exactly when some record is not shown |
| BookList.ReplaceById | src/components/BookList.tsx:30 | same length and ids in place; records of the id become the update, the others are untouched |
| BookList.ReplaceAbsentId | src/components/BookList.tsx:30 | replacing an absent id changes nothing |
| BookList.ReplaceByIdIdempotent | src/components/BookList.tsx:30 | replacing twice is replacing once |
| BookList.ReplaceByIdUnique | src/components/BookList.tsx:30 | ids stay unique and a listed id then holds the update |
| BookList.EbookAvailable | src/components/BookList.tsx:80-82 | the ebook badge needs a checked record with an entry; FlagsAfterCheck gives its value after a check |
| BookList.AudiobookAvailable | src/components/BookList.tsx:84-86 | the audiobook badge needs a checked record with an entry; FlagsAfterCheck gives its value after a check |
| BookList.FlagsAfterCheck | src/components/BookList.tsx:80-86 | the ebook and audiobook flags shown are the findings on the page; after a failed check both are off |
| BookList.OffersIsbn13Lookup | src/components/BookList.tsx:130 | the 'Get ISBN-13' action is offered only for a record whose catalog key is its ISBN-10 |
| BookList.OfferedLookupQueries | src/components/BookList.tsx:130 | the 'Get ISBN-13' action is offered only when the resolver would send a query |
| BookList.BookListState.HandleCheckLibraryAvailability | src/components/BookList.tsx:21-41 | the checked record replaces its id; the list is saved before the parent is notified; the record's flag ends off |
| BookList.BookListState.HandleUpdateIsbn13 | src/components/BookList.tsx:43-63 | the same with the resolved record |
| BookList.UpdateIsbnKeepsOthers | src/components/BookList.tsx:49-52 | the list handed on keeps its length and every record of another id |

## Left out

- The network is an oracle from URL to outcome. The CORS relay is a URL prefix. Headers and response types are not modelled.
- The XML parser is not modelled. `parse` is an oracle giving the parsed tree. Numbers are integers only; fractional values and attributes are not represented.
- `saveXmlToFile` is not modelled: it is DOM work and timers for a debug download. Console logging is not modelled.
- `cleanText` decodes references through a DOM `textarea`. The model decodes the named references `&amp;`, `&lt;`, `&gt;`, `&quot;`, `&apos;` and `&nbsp;` (section 13.5 of the WHATWG HTML Living Standard) and the numeric reference `&#39;`. Other references, named or numeric, are left as they are.
- `encodeURIComponent` is written out as UTF-8 percent-encoding of a Dafny `char`. Lone surrogates, which make it throw, cannot occur in a Dafny string.
- `Date.now()` and `Math.random()` are parameters. Synthesized ids are not claimed to be unique.
- The 500 ms `setTimeout` pause is counted as milliseconds waited; no time passes.
- `localStorage` and JSON are replaced by typed fields. A read fault (storage or `JSON.parse` error) is one flag for the whole store, not one per key.
- Concurrent handlers and the last-write-wins race on the books key are not modelled: each handler runs to completion.
- The intermediate React states are not modelled. For example, `isLoading` and the per-record flags are true only while a handler runs. The methods set them, but their contracts state only the final state.
- Rendering, `Header.tsx`, `Footer.tsx`, `BookSearch.tsx` and `LibraryChecker.tsx` are not modelled.
- App.AppState.LoadBooks: the outer `catch` that sets 'Failed to load your books' is not modelled because no step inside it can throw. `getBooks` and `getRssUrl` swallow faults, and the inner `catch` handles the feed and its save.
- BookService.SearchBooks: a volume without `volumeInfo` throws a `TypeError` whose text depends on the engine; the model gives one fixed message for it. A missing `title` is not represented.
- GoodreadsImport.ImportForm.HandleImport: the guard tests `Text.IsBlank`, which `Text.TrimsToEmpty` proves equal to `!rssUrl.trim()`.
- GoodreadsService.ParseRssItem: a number the parser made of a title becomes its decimal text in the error record. Dates, ISBNs and ids the parser made numbers become their decimal text in the record.
- GoodreadsService.AuthorOf and BookService.FetchBookDetails: the records of the model use these corrected definitions. The definitions as written are kept beside them; see Findings.

## Findings

| source | as written | input that shows it | evidently intended | confidence | as-written member | corrected member |
|---|---|---|---|---|---|---|
| src/services/GoodreadsService.ts:192-193 | `item.author_name \|\| (item.author ? item.author.name : 'Unknown Author')` yields `undefined` when an `<author>` element has no `<name>`, and '' for an empty name | an item with no `author_name` and `author: {}` | an author field that is never empty: author name, else nested name, else 'Unknown Author' | not executed; medium | GoodreadsService.AuthorAsWritten, GoodreadsService.AuthorAsWrittenUndefined | GoodreadsService.AuthorOf |
| src/services/BookService.ts:57-63 | the retry calls `fetchBookDetails({...book, isbn: ''})` and returns its result, so the record's ISBN-10 is lost | a record with isbn '0441013597', no isbn13, and a service that finds nothing for either query | clearing `isbn` only steers the retry to the title query; the record keeps its own ISBN-10 unless a hit brings one | not executed; medium | BookService.FetchBookDetailsAsWritten, BookService.RetryErasesIsbn | BookService.FetchBookDetails |
