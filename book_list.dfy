/** The reading list view (src/components/BookList.tsx): the display cap,
    the availability flags and the ISBN-13 action derived from a record, and
    the two per-record handlers, which replace the record by id, save the
    list and only then hand it to the parent (the handler's out-parameter). */
module BookList {

  import opened Types
  import Http
  import Storage
  import BookService
  import LibraryService

  /** `books.slice(0, 20)`. */
  const DisplayLimit := 20

  /** The records shown: the first twenty, in order. */
  function DisplayedBooks(books: seq<Book>): (shown: seq<Book>)
    ensures |shown| <= DisplayLimit && shown <= books
    ensures |books| <= DisplayLimit ==> shown == books
    ensures |books| > DisplayLimit ==> |shown| == DisplayLimit
  {
    if |books| <= DisplayLimit then books else books[..DisplayLimit]
  }

  /** The 'Showing only the first 20 books' notice. */
  predicate ShowsOverflowNotice(books: seq<Book>) {
    |books| > DisplayLimit
  }

  /** The notice appears exactly when some record is not shown. */
  lemma NoticeIffHidden(books: seq<Book>)
    ensures ShowsOverflowNotice(books) <==> |DisplayedBooks(books)| < |books|
  {
  }

  /** `books.map(b => b.id === updated.id ? updated : b)`. */
  function ReplaceById(books: seq<Book>, updated: Book): (r: seq<Book>)
    ensures |r| == |books|
    ensures forall i :: 0 <= i < |books| ==> r[i].id == books[i].id
    ensures forall i :: 0 <= i < |books| && books[i].id != updated.id ==> r[i] == books[i]
    ensures forall i :: 0 <= i < |books| && books[i].id == updated.id ==> r[i] == updated
  {
    seq(|books|, i requires 0 <= i < |books| => if books[i].id == updated.id then updated else books[i])
  }

  /** Replacing an id that is not listed changes nothing. */
  lemma ReplaceAbsentId(books: seq<Book>, updated: Book)
    requires !HasId(books, updated.id)
    ensures ReplaceById(books, updated) == books
  {
  }

  /** Replacing twice with the same record is replacing once. */
  lemma ReplaceByIdIdempotent(books: seq<Book>, updated: Book)
    ensures ReplaceById(ReplaceById(books, updated), updated) == ReplaceById(books, updated)
  {
  }

  /** Replacement keeps the ids unique, and a listed id then holds the new record. */
  lemma ReplaceByIdUnique(books: seq<Book>, updated: Book)
    requires UniqueIds(books)
    ensures UniqueIds(ReplaceById(books, updated))
    ensures HasId(books, updated.id) ==> updated in ReplaceById(books, updated)
  {
    var r := ReplaceById(books, updated);
    assert forall i :: 0 <= i < |r| ==> r[i].id == books[i].id;
  }

  /** `book.availability?.libraries.some(lib => lib.available && (format is 'ebook' or 'both'))`. */
  predicate EbookAvailable(book: Book): (b: bool)
    ensures b ==> book.availability.Some? && |book.availability.value.libraries| > 0
  {
    book.availability.Some?
    && exists i :: 0 <= i < |book.availability.value.libraries|
         && book.availability.value.libraries[i].available
         && LibraryService.OffersEbook(book.availability.value.libraries[i].format)
  }

  /** The same for 'audiobook' or 'both'. */
  predicate AudiobookAvailable(book: Book): (b: bool)
    ensures b ==> book.availability.Some? && |book.availability.value.libraries| > 0
  {
    book.availability.Some?
    && exists i :: 0 <= i < |book.availability.value.libraries|
         && book.availability.value.libraries[i].available
         && LibraryService.OffersAudiobook(book.availability.value.libraries[i].format)
  }

  /** After a check, the flags shown are the findings on the catalog page, and
      after a failed check both are off. */
  lemma {:induction false} FlagsAfterCheck(book: Book, lib: Library, url: string, html: string, now: nat)
    ensures EbookAvailable(LibraryService.CheckedRecord(book, lib, url, html, now)) == LibraryService.IsEbookAvailable(html)
    ensures AudiobookAvailable(LibraryService.CheckedRecord(book, lib, url, html, now)) == LibraryService.IsAudiobookAvailable(html)
    ensures !EbookAvailable(LibraryService.NegativeRecord(book, url, now))
    ensures !AudiobookAvailable(LibraryService.NegativeRecord(book, url, now))
  {
    var checked := LibraryService.CheckedRecord(book, lib, url, html, now);
    var entry := checked.availability.value.libraries[0];
    if LibraryService.IsEbookAvailable(html) {
      assert entry.available && LibraryService.OffersEbook(entry.format);
    }
    if LibraryService.IsAudiobookAvailable(html) {
      assert entry.available && LibraryService.OffersAudiobook(entry.format);
    }
    var negative := LibraryService.NegativeRecord(book, url, now);
    assert !negative.availability.value.libraries[0].available;
  }

  /** `checkingBooks[id] || false`. */
  predicate InProgress(flags: map<string, bool>, id: string) {
    id in flags && flags[id]
  }

  /** The 'Get ISBN-13' action is offered for a record without ISBN-13 whose update is not running. */
  predicate OffersIsbn13Lookup(book: Book, updatingIsbn: map<string, bool>): (b: bool)
    ensures b ==> SearchIsbn(book) == book.isbn
  {
    !Truthy(book.isbn13) && !InProgress(updatingIsbn, book.id)
  }

  /** The action is offered only where the resolver does something: it sends
      at least one query. */
  lemma OfferedLookupQueries(book: Book, updatingIsbn: map<string, bool>,
                             lookup: BookService.Query -> BookService.LookupResponse)
    requires OffersIsbn13Lookup(book, updatingIsbn)
    ensures |BookService.FetchBookDetails(book, lookup).queries| >= 1
  {
    BookService.FetchBookDetailsQueries(book, lookup);
  }

  class BookListState {
    var checkingBooks: map<string, bool>
    var updatingIsbn: map<string, bool>

    constructor ()
      ensures checkingBooks == map[] && updatingIsbn == map[]
    {
      checkingBooks := map[];
      updatingIsbn := map[];
    }

    /** `handleCheckLibraryAvailability(book)`: the record is checked, the list
        with it replaced by id is saved, and only after a successful save is it
        handed to the parent. The record's flag is on during the check and off
        afterwards; other records' flags are untouched. */
    method HandleCheckLibraryAvailability(db: Storage.Database, books: seq<Book>, book: Book,
                                          fetch: string -> Http.Response, now: nat)
      returns (notified: Option<seq<Book>>)
      modifies this`checkingBooks, db`books, db`libraries
      ensures checkingBooks == old(checkingBooks)[book.id := false]
      ensures var checked := LibraryService.CheckedBook(book, old(db.libraries), db.readable, db.writable, fetch, now);
        var updated := ReplaceById(books, checked);
        && notified == (if db.writable then Some(updated) else None)
        && db.books == (if db.writable then Some(updated) else old(db.books))
      ensures db.libraries == if SearchIsbn(book) == "" then old(db.libraries)
                              else LibraryService.InitLibraries(old(db.libraries), db.readable, db.writable)
    {
      checkingBooks := checkingBooks[book.id := true];
      var checked := LibraryService.CheckBookAvailability(db, book, fetch, now);
      var updated := ReplaceById(books, checked);
      var o := db.SaveBooks(updated);
      notified := if o.Pass? then Some(updated) else None;
      checkingBooks := checkingBooks[book.id := false];
    }

    /** `handleUpdateIsbn13(book)`: the same steps with the identifier resolver. */
    method HandleUpdateIsbn13(db: Storage.Database, books: seq<Book>, book: Book,
                              lookup: BookService.Query -> BookService.LookupResponse)
      returns (notified: Option<seq<Book>>)
      modifies this`updatingIsbn, db`books
      ensures updatingIsbn == old(updatingIsbn)[book.id := false]
      ensures var updated := ReplaceById(books, BookService.FetchBookDetails(book, lookup).book);
        && notified == (if db.writable then Some(updated) else None)
        && db.books == (if db.writable then Some(updated) else old(db.books))
    {
      updatingIsbn := updatingIsbn[book.id := true];
      var resolved := BookService.FetchBookDetails(book, lookup).book;
      var updated := ReplaceById(books, resolved);
      var o := db.SaveBooks(updated);
      notified := if o.Pass? then Some(updated) else None;
      updatingIsbn := updatingIsbn[book.id := false];
    }
  }

  /** The list handed on after an ISBN-13 update keeps every record's id in
      place and changes only the records of that id. */
  lemma UpdateIsbnKeepsOthers(books: seq<Book>, book: Book, lookup: BookService.Query -> BookService.LookupResponse)
    ensures var updated := ReplaceById(books, BookService.FetchBookDetails(book, lookup).book);
      && |updated| == |books|
      && forall i :: 0 <= i < |books| && books[i].id != book.id ==> updated[i] == books[i]
  {
    BookService.FetchBookDetailsKeeps(book, lookup);
  }
}
