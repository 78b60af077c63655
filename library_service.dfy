/** The availability checker (src/services/LibraryService.ts): the default
    library record, the search of the library's catalog for one record's ISBN
    through the relay, the reading of the returned page, the sequential check
    of every stored record and the removal of all availability data. The
    network is an oracle `fetch` from the fetched URL to its outcome, and
    `Date.now()` is a parameter `now` (or `clock(i)` for the i-th record). */
module LibraryService {

  import opened Types
  import Text
  import Http
  import Storage

  /** `DEFAULT_LIBRARY`. */
  const DefaultLibrary := Library("nypl", "New York Public Library", "https://www.nypl.org",
                                  Some("https://borrow.nypl.org/search"))

  /** The phrases the catalog page is searched for. */
  const Borrowable := "Available to borrow"
  const EbookMarker := "eBook"
  const AudiobookMarker := "Audiobook"

  /** The pause after each record of the full check, in milliseconds. */
  const DelayMs := 500

  const SearchPrefix := "https://borrow.nypl.org/search?query="
  const SearchSuffix := "&searchType=everything&pageSize=10&mode=advanced&materialTypeIds=z,n&pageNum=0"

  /** The catalog search URL for an ISBN. */
  function SearchUrl(isbn: string): (url: string)
    ensures SearchPrefix <= url
    ensures |url| == |SearchPrefix| + |Http.EncodeUriComponent(isbn)| + |SearchSuffix|
  {
    SearchPrefix + Http.EncodeUriComponent(isbn) + SearchSuffix
  }

  /** The ISBN fills exactly the `query` parameter: its encoding holds no '&',
      '=' or '#', so it cannot end the parameter or add another. */
  lemma SearchUrlQuery(isbn: string)
    ensures var url := SearchUrl(isbn); var q := Http.EncodeUriComponent(isbn);
      && SearchPrefix <= url
      && url[|SearchPrefix|..|SearchPrefix| + |q|] == q
      && url[|SearchPrefix| + |q|..] == SearchSuffix
      && forall i :: 0 <= i < |q| ==> q[i] != '&' && q[i] != '=' && q[i] != '#'
  {
    var q := Http.EncodeUriComponent(isbn);
    var url := SearchUrl(isbn);
    assert url == SearchPrefix + q + SearchSuffix;
    assert url[|SearchPrefix|..|SearchPrefix| + |q|] == q;
  }

  /** The page offers a borrowable ebook: both phrases occur somewhere in it. */
  predicate IsEbookAvailable(html: string): (b: bool)
    ensures b <==> (exists i :: Text.OccursAt(html, Borrowable, i)) && (exists j :: Text.OccursAt(html, EbookMarker, j))
  {
    Text.ContainsIffOccurs(html, Borrowable);
    Text.ContainsIffOccurs(html, EbookMarker);
    Text.Contains(html, Borrowable) && Text.Contains(html, EbookMarker)
  }

  /** The page offers a borrowable audiobook. */
  predicate IsAudiobookAvailable(html: string): (b: bool)
    ensures b <==> (exists i :: Text.OccursAt(html, Borrowable, i)) && (exists j :: Text.OccursAt(html, AudiobookMarker, j))
  {
    Text.ContainsIffOccurs(html, Borrowable);
    Text.ContainsIffOccurs(html, AudiobookMarker);
    Text.Contains(html, Borrowable) && Text.Contains(html, AudiobookMarker)
  }

  /** The formats a format value stands for. */
  predicate OffersEbook(f: Format) {
    f == Ebook || f == Both
  }

  predicate OffersAudiobook(f: Format) {
    f == Audiobook || f == Both
  }

  /** The format recorded for the two findings: it stands for exactly the
      formats found, and it is 'none' exactly when nothing was found. */
  function FormatOf(ebook: bool, audiobook: bool): (f: Format)
    ensures OffersEbook(f) == ebook && OffersAudiobook(f) == audiobook
    ensures f == NoFormat <==> !ebook && !audiobook
  {
    if ebook && audiobook then Both
    else if ebook then Ebook
    else if audiobook then Audiobook
    else NoFormat
  }

  /** The record after a successful check against library `lib`. */
  function CheckedRecord(book: Book, lib: Library, url: string, html: string, now: nat): (r: Book)
    ensures r.availability.Some? && r.availability.value.lastChecked == now
    ensures |r.availability.value.libraries| == 1
    ensures var entry := r.availability.value.libraries[0];
      && entry.libraryId == lib.id && entry.name == lib.name && entry.url == Some(url)
      && OffersEbook(entry.format) == IsEbookAvailable(html)
      && OffersAudiobook(entry.format) == IsAudiobookAvailable(html)
      && (entry.available <==> entry.format != NoFormat)
      && (entry.available ==> Text.Contains(html, Borrowable))
    ensures r.(availability := book.availability) == book
  {
    var e := IsEbookAvailable(html);
    var a := IsAudiobookAvailable(html);
    book.(availability := Some(BookAvailability(now, [LibraryAvailability(lib.id, lib.name, e || a, FormatOf(e, a), Some(url))])))
  }

  /** The record after a failed check: the default library, not available. */
  function NegativeRecord(book: Book, url: string, now: nat): (r: Book)
    ensures r.availability.Some? && r.availability.value.lastChecked == now
    ensures r.availability.value.libraries
         == [LibraryAvailability(DefaultLibrary.id, DefaultLibrary.name, false, NoFormat, Some(url))]
    ensures r.(availability := book.availability) == book
  {
    book.(availability := Some(BookAvailability(now, [LibraryAvailability(DefaultLibrary.id, DefaultLibrary.name, false, NoFormat, Some(url))])))
  }

  /** `libraries.find(lib => lib.id === id)`. */
  function FindLibrary(libraries: seq<Library>, id: string): (r: Option<Library>)
    ensures r.Some? ==> r.value in libraries && r.value.id == id
  {
    if libraries == [] then None
    else if libraries[0].id == id then Some(libraries[0])
    else FindLibrary(libraries[1..], id)
  }

  /** The search finds the first library with the id, and nothing when none has it. */
  lemma {:induction false} FindLibraryFirst(libraries: seq<Library>, id: string)
    ensures FindLibrary(libraries, id).None? <==> forall i :: 0 <= i < |libraries| ==> libraries[i].id != id
    ensures forall i :: 0 <= i < |libraries| && libraries[i].id == id
              && (forall j :: 0 <= j < i ==> libraries[j].id != id)
              ==> FindLibrary(libraries, id) == Some(libraries[i])
  {
    if libraries != [] && libraries[0].id != id {
      var tail := libraries[1..];
      FindLibraryFirst(tail, id);
      assert forall i :: 1 <= i < |libraries| ==> libraries[i] == tail[i - 1];
      forall i | 0 <= i < |libraries| && libraries[i].id == id && (forall j :: 0 <= j < i ==> libraries[j].id != id)
        ensures FindLibrary(libraries, id) == Some(libraries[i])
      {
        assert i > 0;
        assert forall j :: 0 <= j < i - 1 ==> tail[j].id != id by {
          forall j | 0 <= j < i - 1 ensures tail[j].id != id {
            assert tail[j] == libraries[j + 1];
          }
        }
      }
    }
  }

  // ---------------------------------------------------------------------
  // Initialisation

  /** The libraries key after `initializeDefaultLibrary`: the default library
      is written when the read gives an empty list and the medium takes writes. */
  function InitLibraries(stored: Option<seq<Library>>, readable: bool, writable: bool): (r: Option<seq<Library>>)
    ensures r == stored || r == Some([DefaultLibrary])
    ensures readable && stored.Some? && |stored.value| > 0 ==> r == stored
    ensures writable ==> |Storage.ReadOr(r, true, [])| > 0
  {
    if |Storage.ReadOr(stored, readable, [])| == 0 && writable then Some([DefaultLibrary]) else stored
  }

  /** `initializeDefaultLibrary` throws: it had to write and the write failed. */
  predicate InitFails(stored: Option<seq<Library>>, readable: bool, writable: bool) {
    |Storage.ReadOr(stored, readable, [])| == 0 && !writable
  }

  /** A readable, non-empty list of libraries is never overwritten. */
  lemma InitLibrariesKeepsStored(stored: Option<seq<Library>>, writable: bool)
    requires stored.Some? && |stored.value| > 0
    ensures InitLibraries(stored, true, writable) == stored
    ensures !InitFails(stored, true, writable)
  {
  }

  /** When the medium works, after initialisation the list read back holds a
      library with the default's id. */
  lemma InitLibrariesProvidesDefault(stored: Option<seq<Library>>)
    requires stored.None? || stored.value == []
    ensures Storage.ReadOr(InitLibraries(stored, true, true), true, []) == [DefaultLibrary]
    ensures FindLibrary(Storage.ReadOr(InitLibraries(stored, true, true), true, []), "nypl") == Some(DefaultLibrary)
  {
  }

  /** Initialising twice is initialising once, and the second run fails only if
      the first did: checking one record after another sees the same libraries. */
  lemma {:induction false} InitLibrariesIdempotent(stored: Option<seq<Library>>, readable: bool, writable: bool)
    ensures InitLibraries(InitLibraries(stored, readable, writable), readable, writable)
         == InitLibraries(stored, readable, writable)
    ensures InitFails(InitLibraries(stored, readable, writable), readable, writable)
         == InitFails(stored, readable, writable)
  {
    if |Storage.ReadOr(stored, readable, [])| == 0 && writable {
      assert InitLibraries(stored, readable, writable) == Some([DefaultLibrary]);
    }
  }

  /** `initializeDefaultLibrary()`. */
  method InitializeDefaultLibrary(db: Storage.Database) returns (o: Outcome)
    modifies db`libraries
    ensures db.libraries == InitLibraries(old(db.libraries), db.readable, db.writable)
    ensures o == if InitFails(old(db.libraries), db.readable, db.writable) then Fail(db.WriteError()) else Pass
  {
    var libraries := db.GetLibraries();
    if |libraries| == 0 {
      o := db.SaveLibraries([DefaultLibrary]);
    } else {
      o := Pass;
    }
  }

  // ---------------------------------------------------------------------
  // Checking one record

  /** The record `checkBookAvailability` returns, given the libraries key before the call. */
  function CheckedBook(book: Book, stored: Option<seq<Library>>, readable: bool, writable: bool,
                       fetch: string -> Http.Response, now: nat): (r: Book)
    ensures SearchIsbn(book) == "" ==> r == book
    ensures r.(availability := book.availability) == book
  {
    var isbn := SearchIsbn(book);
    if isbn == "" then book
    else
      var url := SearchUrl(isbn);
      if InitFails(stored, readable, writable) then NegativeRecord(book, url, now)
      else match FindLibrary(LibrariesSeen(stored, readable, writable), DefaultLibrary.id)
        case None => NegativeRecord(book, url, now)
        case Some(lib) =>
          match fetch(Http.ProxyUrl(url))
          case Ok(html) => CheckedRecord(book, lib, url, html, now)
          case NotOk(_, _) => NegativeRecord(book, url, now)
          case NetworkFailure(_) => NegativeRecord(book, url, now)
  }

  /** Without an ISBN the record is returned as it is; with one, only its
      availability changes, to a single entry for the search URL of the ISBN-13
      (else the ISBN-10), stamped with the time of the check. */
  lemma CheckedBookShape(book: Book, stored: Option<seq<Library>>, readable: bool, writable: bool,
                         fetch: string -> Http.Response, now: nat)
    ensures var r := CheckedBook(book, stored, readable, writable, fetch, now);
      && (SearchIsbn(book) == "" ==> r == book)
      && r.(availability := book.availability) == book
      && (SearchIsbn(book) != "" ==>
            && r.availability.Some? && r.availability.value.lastChecked == now
            && |r.availability.value.libraries| == 1
            && r.availability.value.libraries[0].url == Some(SearchUrl(SearchIsbn(book)))
            && r.availability.value.libraries[0].libraryId == DefaultLibrary.id
            && (r.availability.value.libraries[0].available <==> r.availability.value.libraries[0].format != NoFormat))
  {
  }

  /** The libraries the check looks in: the list read after initialisation. */
  function LibrariesSeen(stored: Option<seq<Library>>, readable: bool, writable: bool): seq<Library> {
    Storage.ReadOr(InitLibraries(stored, readable, writable), readable, [])
  }

  /** A failed catalog request gives the negative record. */
  lemma CheckedBookFetchFails(book: Book, stored: Option<seq<Library>>, readable: bool, writable: bool,
                              fetch: string -> Http.Response, now: nat)
    requires SearchIsbn(book) != ""
    requires !fetch(Http.ProxyUrl(SearchUrl(SearchIsbn(book)))).Ok?
    ensures CheckedBook(book, stored, readable, writable, fetch, now)
         == NegativeRecord(book, SearchUrl(SearchIsbn(book)), now)
  {
  }

  /** A failed initialisation, or a list without the 'nypl' library, gives
      the negative record whatever the page says. */
  lemma CheckedBookNoLibrary(book: Book, stored: Option<seq<Library>>, readable: bool, writable: bool,
                             fetch: string -> Http.Response, now: nat)
    requires SearchIsbn(book) != ""
    requires InitFails(stored, readable, writable)
             || FindLibrary(LibrariesSeen(stored, readable, writable), DefaultLibrary.id).None?
    ensures CheckedBook(book, stored, readable, writable, fetch, now)
         == NegativeRecord(book, SearchUrl(SearchIsbn(book)), now)
  {
  }

  /** A fetched page with the stored 'nypl' library gives the entry of that
      library: its id and name, and the formats found on the page. */
  lemma CheckedBookFound(book: Book, stored: Option<seq<Library>>, readable: bool, writable: bool,
                         fetch: string -> Http.Response, now: nat, lib: Library, html: string)
    requires SearchIsbn(book) != "" && !InitFails(stored, readable, writable)
    requires FindLibrary(LibrariesSeen(stored, readable, writable), DefaultLibrary.id) == Some(lib)
    requires fetch(Http.ProxyUrl(SearchUrl(SearchIsbn(book)))) == Http.Ok(html)
    ensures CheckedBook(book, stored, readable, writable, fetch, now)
         == CheckedRecord(book, lib, SearchUrl(SearchIsbn(book)), html, now)
    ensures var entry := CheckedBook(book, stored, readable, writable, fetch, now).availability.value.libraries[0];
      entry.libraryId == DefaultLibrary.id && entry.name == lib.name && lib in LibrariesSeen(stored, readable, writable)
  {
  }

  /** A record is marked available only when the catalog page was fetched and
      says 'Available to borrow'. */
  lemma CheckedBookAvailableOnlyFromPage(book: Book, stored: Option<seq<Library>>, readable: bool, writable: bool,
                                         fetch: string -> Http.Response, now: nat)
    requires var r := CheckedBook(book, stored, readable, writable, fetch, now);
      SearchIsbn(book) != ""
      && r.availability.Some? && |r.availability.value.libraries| > 0 && r.availability.value.libraries[0].available
    ensures var response := fetch(Http.ProxyUrl(SearchUrl(SearchIsbn(book))));
      response.Ok? && Text.Contains(response.body, Borrowable)
  {
  }

  /** With a readable store holding the default library and a page that
      offers both formats, the record is marked available as both. */
  lemma CheckedBookBothFormats(book: Book, fetch: string -> Http.Response, now: nat, html: string)
    requires SearchIsbn(book) != ""
    requires fetch(Http.ProxyUrl(SearchUrl(SearchIsbn(book)))) == Http.Ok(html)
    requires IsEbookAvailable(html) && IsAudiobookAvailable(html)
    ensures var r := CheckedBook(book, Some([DefaultLibrary]), true, false, fetch, now);
      r.availability == Some(BookAvailability(now, [LibraryAvailability("nypl", "New York Public Library", true, Both,
                                                                          Some(SearchUrl(SearchIsbn(book))))]))
  {
    assert FindLibrary([DefaultLibrary], "nypl") == Some(DefaultLibrary);
  }

  /** `checkBookAvailability(book)`. Every failure inside the check gives the
      negative record; the call itself never fails. */
  method CheckBookAvailability(db: Storage.Database, book: Book, fetch: string -> Http.Response, now: nat)
    returns (r: Book)
    modifies db`libraries
    ensures r == CheckedBook(book, old(db.libraries), db.readable, db.writable, fetch, now)
    ensures db.libraries == if SearchIsbn(book) == "" then old(db.libraries)
                            else InitLibraries(old(db.libraries), db.readable, db.writable)
  {
    var isbn := SearchIsbn(book);
    if isbn == "" {
      return book;
    }
    var url := SearchUrl(isbn);
    var init := InitializeDefaultLibrary(db);
    if init.Fail? {
      return NegativeRecord(book, url, now);
    }
    var libraries := db.GetLibraries();
    var nypl := FindLibrary(libraries, DefaultLibrary.id);
    if nypl.None? {
      return NegativeRecord(book, url, now);
    }
    var response := fetch(Http.ProxyUrl(url));
    if !response.Ok? {
      return NegativeRecord(book, url, now);
    }
    r := CheckedRecord(book, nypl.value, url, response.body, now);
  }

  // ---------------------------------------------------------------------
  // Checking every record

  /** Every record checked in order, the i-th at time clock(i). */
  function CheckedBooks(books: seq<Book>, stored: Option<seq<Library>>, readable: bool, writable: bool,
                        fetch: string -> Http.Response, clock: nat -> nat): (r: seq<Book>)
    ensures |r| == |books|
    ensures forall i :: 0 <= i < |books| ==> r[i] == CheckedBook(books[i], stored, readable, writable, fetch, clock(i))
  {
    seq(|books|, i requires 0 <= i < |books| => CheckedBook(books[i], stored, readable, writable, fetch, clock(i)))
  }

  /** Checking a record against an initialised store gives what checking it
      against the store before initialisation gives. */
  lemma CheckedBookAfterInit(book: Book, stored: Option<seq<Library>>, readable: bool, writable: bool,
                             fetch: string -> Http.Response, now: nat)
    ensures CheckedBook(book, InitLibraries(stored, readable, writable), readable, writable, fetch, now)
         == CheckedBook(book, stored, readable, writable, fetch, now)
  {
    InitLibrariesIdempotent(stored, readable, writable);
  }

  /** `checkAllBooksAvailability()`: each stored record is checked in turn with
      a pause after each, then the whole list is saved and returned; only that
      save can fail. */
  /** One step of the full check: whether or not an earlier step initialised
      the libraries, the record is checked as against the libraries at the
      start, and the libraries stay initialised or untouched. */
  lemma CheckStep(book: Book, stored: Option<seq<Library>>, current: Option<seq<Library>>,
                  readable: bool, writable: bool, fetch: string -> Http.Response, now: nat)
    requires current == stored || current == InitLibraries(stored, readable, writable)
    ensures CheckedBook(book, current, readable, writable, fetch, now)
         == CheckedBook(book, stored, readable, writable, fetch, now)
    ensures InitLibraries(current, readable, writable) == stored
         || InitLibraries(current, readable, writable) == InitLibraries(stored, readable, writable)
  {
    InitLibrariesIdempotent(stored, readable, writable);
    if current != stored {
      CheckedBookAfterInit(book, stored, readable, writable, fetch, now);
    }
  }

  /** The loop of `checkAllBooksAvailability`: each record in turn, with a
      500 ms pause after each. */
  method CheckEach(db: Storage.Database, books: seq<Book>, fetch: string -> Http.Response, clock: nat -> nat)
    returns (updated: seq<Book>, waitedMs: nat)
    modifies db`libraries
    ensures updated == CheckedBooks(books, old(db.libraries), db.readable, db.writable, fetch, clock)
    ensures db.libraries == old(db.libraries)
         || db.libraries == InitLibraries(old(db.libraries), db.readable, db.writable)
    ensures waitedMs == DelayMs * |books|
  {
    ghost var stored := db.libraries;
    updated := [];
    waitedMs := 0;
    var i := 0;
    while i < |books|
      invariant 0 <= i <= |books|
      invariant db.libraries == stored || db.libraries == InitLibraries(stored, db.readable, db.writable)
      invariant |updated| == i
      invariant forall j :: 0 <= j < i ==>
        updated[j] == CheckedBook(books[j], stored, db.readable, db.writable, fetch, clock(j))
      invariant waitedMs == DelayMs * i
    {
      CheckStep(books[i], stored, db.libraries, db.readable, db.writable, fetch, clock(i));
      var book := CheckBookAvailability(db, books[i], fetch, clock(i));
      updated := updated + [book];
      waitedMs := waitedMs + DelayMs;
      i := i + 1;
    }
  }

  /** `checkAllBooksAvailability()`: every stored record checked in order,
      then the whole list saved once. */
  method CheckAllBooksAvailability(db: Storage.Database, fetch: string -> Http.Response, clock: nat -> nat)
    returns (r: Result<seq<Book>>, waitedMs: nat)
    modifies db`books, db`libraries
    ensures var checked := CheckedBooks(old(db.GetBooks()), old(db.libraries), db.readable, db.writable, fetch, clock);
      && r == (if db.writable then Ok(checked) else Err(db.WriteError()))
      && db.books == (if db.writable then Some(checked) else old(db.books))
    ensures db.libraries == old(db.libraries)
         || db.libraries == InitLibraries(old(db.libraries), db.readable, db.writable)
    ensures waitedMs == DelayMs * |old(db.GetBooks())|
  {
    var books := db.GetBooks();
    var updated;
    updated, waitedMs := CheckEach(db, books, fetch, clock);
    var o := db.SaveBooks(updated);
    r := if o.Pass? then Ok(updated) else Err(o.error);
  }

  // ---------------------------------------------------------------------
  // Clearing

  /** Every record with its availability removed and nothing else changed. */
  function WithoutAvailability(books: seq<Book>): (r: seq<Book>)
    ensures |r| == |books|
    ensures forall i :: 0 <= i < |r| ==> r[i].availability.None? && r[i].(availability := books[i].availability) == books[i]
  {
    seq(|books|, i requires 0 <= i < |books| => books[i].(availability := None))
  }

  /** Clearing twice is clearing once. */
  lemma WithoutAvailabilityIdempotent(books: seq<Book>)
    ensures WithoutAvailability(WithoutAvailability(books)) == WithoutAvailability(books)
  {
  }

  /** `clearAvailabilityData()`: the stored list without availability is saved and returned. */
  method ClearAvailabilityData(db: Storage.Database) returns (r: Result<seq<Book>>)
    modifies db`books
    ensures var cleared := WithoutAvailability(old(db.GetBooks()));
      && r == (if db.writable then Ok(cleared) else Err(db.WriteError()))
      && db.books == (if db.writable then Some(cleared) else old(db.books))
  {
    var cleared := WithoutAvailability(db.GetBooks());
    var o := db.SaveBooks(cleared);
    r := if o.Pass? then Ok(cleared) else Err(o.error);
  }
}
