/** The application shell (src/App.tsx): the reading list and the flags the
    shell keeps as component state, and the handlers that change them. A
    state setter becomes an assignment to a field of `AppState`; storage is
    a `Storage.Database`, the feed's network and parser are the oracles of
    `GoodreadsService.FetchBooks`. */
module App {

  import opened Types
  import Storage
  import Http
  import GoodreadsService
  import BookService

  const DuplicateMessage := "This book is already in your reading list."
  const AddFailedMessage := "Failed to save book. Please try again."
  const RemoveFailedMessage := "Failed to remove book. Please try again."
  const ImportSaveFailedMessage := "Failed to save imported books. Please try again."
  const DemoFailedMessage := "Failed to load demo books. Please try again."

  /** The list with every record of the id dropped, the others kept in order. */
  function RemoveById(books: seq<Book>, id: string): (r: seq<Book>)
    ensures |r| <= |books|
    ensures !HasId(r, id)
    ensures forall i :: 0 <= i < |r| ==> r[i] in books
    ensures forall i :: 0 <= i < |books| && books[i].id != id ==> books[i] in r
  {
    if books == [] then []
    else if books[0].id == id then RemoveById(books[1..], id)
    else [books[0]] + RemoveById(books[1..], id)
  }

  /** Removing an id that is not in the list changes nothing. */
  lemma {:induction false} RemoveAbsentId(books: seq<Book>, id: string)
    requires !HasId(books, id)
    ensures RemoveById(books, id) == books
  {
    if books != [] {
      assert books[0].id != id;
      assert !HasId(books[1..], id) by {
        forall i | 0 <= i < |books[1..]| ensures books[1..][i].id != id {
          assert books[1..][i] == books[i + 1];
        }
      }
      RemoveAbsentId(books[1..], id);
    }
  }

  /** Removal works record by record, so it keeps the order of the others:
      removing from a concatenation concatenates the removals. */
  lemma {:induction false} RemoveByIdConcat(a: seq<Book>, b: seq<Book>, id: string)
    ensures RemoveById(a + b, id) == RemoveById(a, id) + RemoveById(b, id)
  {
    if a != [] {
      assert (a + b)[1..] == a[1..] + b;
      RemoveByIdConcat(a[1..], b, id);
    } else {
      assert a + b == b;
    }
  }

  lemma TailUnique(books: seq<Book>)
    requires books != [] && UniqueIds(books)
    ensures UniqueIds(books[1..])
    ensures forall i :: 0 <= i < |books[1..]| ==> books[1..][i].id != books[0].id
  {
    var tail := books[1..];
    forall i, j | 0 <= i < j < |tail| ensures tail[i].id != tail[j].id {
      assert tail[i] == books[i + 1] && tail[j] == books[j + 1];
    }
    forall i | 0 <= i < |tail| ensures tail[i].id != books[0].id {
      assert tail[i] == books[i + 1];
    }
  }

  /** Removal keeps ids unique. */
  lemma {:induction false} RemoveByIdKeepsUnique(books: seq<Book>, id: string)
    requires UniqueIds(books)
    ensures UniqueIds(RemoveById(books, id))
  {
    if books != [] {
      var tail := books[1..];
      TailUnique(books);
      RemoveByIdKeepsUnique(tail, id);
      var rest := RemoveById(tail, id);
      if books[0].id != id {
        var r := [books[0]] + rest;
        forall i, j | 0 <= i < j < |r| ensures r[i].id != r[j].id {
          assert r[j] == rest[j - 1] && rest[j - 1] in tail;
          if i > 0 {
            assert r[i] == rest[i - 1];
          }
        }
      }
    }
  }

  /** With unique ids, removing a listed id removes exactly one record. */
  lemma {:induction false} RemoveByIdCount(books: seq<Book>, id: string)
    requires UniqueIds(books) && HasId(books, id)
    ensures |RemoveById(books, id)| == |books| - 1
  {
    var tail := books[1..];
    TailUnique(books);
    if books[0].id == id {
      RemoveAbsentId(tail, id);
    } else {
      var k :| 0 <= k < |books| && books[k].id == id;
      assert tail[k - 1].id == id;
      RemoveByIdCount(tail, id);
    }
  }

  const DemoCoverPrefix := "https://images-na.ssl-images-amazon.com/images/S/compressed.photo.goodreads.com/books/"

  /** The three sample records of the demo. */
  function DemoBooks(): (r: seq<Book>)
    ensures |r| == 3 && UniqueIds(r)
  {
    [ Book("demo-1", "The Midnight Library", "Matt Haig", "0525559477", Some("9780525559474"),
           Some(DemoCoverPrefix + "1602190253i/52578297.jpg"),
           Some("2020-09-29"), None),
      Book("demo-2", "Project Hail Mary", "Andy Weir", "0593135202", Some("9780593135204"),
           Some(DemoCoverPrefix + "1597695864i/54493401.jpg"),
           Some("2021-05-04"), None),
      Book("demo-3", "Klara and the Sun", "Kazuo Ishiguro", "059331817X", Some("9780593318171"),
           Some(DemoCoverPrefix + "1603206535i/54120408.jpg"),
           Some("2021-03-02"), None) ]
  }

  /** Three records with distinct ids, each with both ISBNs and no availability yet. */
  lemma DemoBooksWellFormed()
    ensures var r := DemoBooks();
      && |r| == 3 && UniqueIds(r)
      && forall i :: 0 <= i < |r| ==> Truthy(r[i].isbn13) && r[i].isbn != "" && r[i].availability.None?
  {
  }

  /** The demo records already carry their ISBN-13: the resolver leaves each
      as it is without a query, and the catalog is searched by that ISBN-13. */
  lemma {:induction false} DemoBooksResolved(lookup: BookService.Query -> BookService.LookupResponse)
    ensures forall i :: 0 <= i < |DemoBooks()| ==>
      && BookService.FetchBookDetails(DemoBooks()[i], lookup) == BookService.Resolution(DemoBooks()[i], [])
      && SearchIsbn(DemoBooks()[i]) == DemoBooks()[i].isbn13.value
  {
    var demo := DemoBooks();
    DemoBooksWellFormed();
    forall i | 0 <= i < |demo|
      ensures BookService.FetchBookDetails(demo[i], lookup) == BookService.Resolution(demo[i], [])
      ensures SearchIsbn(demo[i]) == demo[i].isbn13.value
    {
      BookService.FetchBookDetailsNoOp(demo[i], lookup);
    }
  }

  class AppState {
    var books: seq<Book>
    var isLoading: bool
    /** The message of the dismissible alert, if one is shown. */
    var error: Option<string>
    var isImporting: bool
    var demoMode: bool

    /** The state at mount, before `loadBooks` runs. */
    constructor ()
      ensures books == [] && isLoading && error.None? && !isImporting && !demoMode
    {
      books := [];
      isLoading := true;
      error := None;
      isImporting := false;
      demoMode := false;
    }

    /** `loadBooks`: stored records win; with none stored, a saved feed URL is
        fetched and a non-empty result shown and saved. A failed fetch leaves
        the list as it was; a failed save still shows the fetched list.
        Neither shows an error. Loading ends
        on every path. */
    method LoadBooks(db: Storage.Database, fetch: string -> Http.Response,
                     parse: string -> GoodreadsService.Document, clock: nat -> nat, random: nat -> string)
      modifies this`books, this`isLoading, db`books
      ensures !isLoading && error == old(error)
      ensures var stored := old(db.GetBooks());
        var url := old(GoodreadsService.GetRssUrl(db));
        var fetched := old(GoodreadsService.FetchBooks(db, url, fetch, parse, clock, random));
        if |stored| > 0 then books == stored && db.books == old(db.books)
        else if Truthy(url) && fetched.Ok? && |fetched.value| > 0 then
          && books == fetched.value
          && db.books == (if db.writable then Some(fetched.value) else old(db.books))
        else books == old(books) && db.books == old(db.books)
    {
      isLoading := true;
      var stored := db.GetBooks();
      if |stored| > 0 {
        books := stored;
      } else {
        var url := GoodreadsService.GetRssUrl(db);
        if Truthy(url) {
          var fetched := GoodreadsService.FetchBooks(db, url, fetch, parse, clock, random);
          if fetched.Ok? && |fetched.value| > 0 {
            books := fetched.value;
            var _ := db.SaveBooks(fetched.value);
          }
        }
      }
      isLoading := false;
    }

    /** `addBook`: a record whose id is listed is refused with a message;
        otherwise it is appended and the list saved. A failed save keeps the
        appended list on screen and shows a message. */
    method AddBook(db: Storage.Database, book: Book)
      modifies this`books, this`error, db`books
      ensures HasId(old(books), book.id) ==>
        books == old(books) && error == Some(DuplicateMessage) && db.books == old(db.books)
      ensures !HasId(old(books), book.id) ==>
        && books == old(books) + [book]
        && db.books == (if db.writable then Some(books) else old(db.books))
        && error == (if db.writable then old(error) else Some(AddFailedMessage))
      ensures UniqueIds(old(books)) ==> UniqueIds(books)
    {
      if exists i :: 0 <= i < |books| && books[i].id == book.id {
        error := Some(DuplicateMessage);
        return;
      }
      var updated := books + [book];
      assert UniqueIds(old(books)) ==> UniqueIds(updated) by {
        if UniqueIds(old(books)) {
          forall i, j | 0 <= i < j < |updated| ensures updated[i].id != updated[j].id {
            if j == |books| {
              assert updated[i] == books[i];
            }
          }
        }
      }
      books := updated;
      var o := db.SaveBooks(updated);
      if o.Fail? {
        error := Some(AddFailedMessage);
      }
    }

    /** `removeBook`: every record of the id is dropped and the list saved. */
    method RemoveBook(db: Storage.Database, id: string)
      modifies this`books, this`error, db`books
      ensures books == RemoveById(old(books), id)
      ensures db.books == (if db.writable then Some(books) else old(db.books))
      ensures error == (if db.writable then old(error) else Some(RemoveFailedMessage))
    {
      books := RemoveById(books, id);
      var o := db.SaveBooks(books);
      if o.Fail? {
        error := Some(RemoveFailedMessage);
      }
    }

    /** `handleBooksImported`: the imported records replace the list; the
        import view closes only when the save succeeds. */
    method HandleBooksImported(db: Storage.Database, imported: seq<Book>)
      modifies this`books, this`error, this`isImporting, db`books
      ensures books == imported
      ensures db.books == (if db.writable then Some(imported) else old(db.books))
      ensures isImporting == (if db.writable then false else old(isImporting))
      ensures error == (if db.writable then old(error) else Some(ImportSaveFailedMessage))
    {
      books := imported;
      var o := db.SaveBooks(imported);
      if o.Pass? {
        isImporting := false;
      } else {
        error := Some(ImportSaveFailedMessage);
      }
    }

    /** `updateBooks`: the list shown becomes the given one; storage is not touched. */
    method UpdateBooks(updated: seq<Book>)
      modifies this`books
      ensures books == updated
    {
      books := updated;
    }

    /** `handleStartDemo`: the sample records replace the list and are saved;
        demo mode starts only when the save succeeds. Loading ends on every path. */
    method HandleStartDemo(db: Storage.Database)
      modifies this`books, this`isLoading, this`error, this`demoMode, db`books
      ensures books == DemoBooks() && !isLoading
      ensures db.books == (if db.writable then Some(DemoBooks()) else old(db.books))
      ensures demoMode == (if db.writable then true else old(demoMode))
      ensures error == (if db.writable then old(error) else Some(DemoFailedMessage))
    {
      isLoading := true;
      books := DemoBooks();
      var o := db.SaveBooks(books);
      if o.Pass? {
        demoMode := true;
      } else {
        error := Some(DemoFailedMessage);
      }
      isLoading := false;
    }
  }
}
