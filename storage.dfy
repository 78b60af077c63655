/** The browser's local storage as the application uses it
    (src/services/Database.ts, plus the feed URL key of
    src/services/GoodreadsService.ts). Each key holds a typed value instead
    of JSON text; an absent key is `None`. Whether the medium can be read
    and written is fixed for the lifetime of a `Database` object: a read
    fault makes a getter return its default, a write fault makes a save fail
    without changing anything. */
module Storage {

  import opened Types

  /** A getter's answer for one key: the stored value, or the default when
      the key is absent or the medium cannot be read. */
  function ReadOr<T>(entry: Option<T>, readable: bool, default: T): (r: T)
    ensures !readable || entry.None? ==> r == default
    ensures readable && entry.Some? ==> r == entry.value
  {
    if readable && entry.Some? then entry.value else default
  }

  class Database {
    /** Reads succeed (no storage or parse fault). */
    const readable: bool
    /** Writes and removals succeed (no quota or security fault). */
    const writable: bool
    /** The message of the error a failing write throws. */
    const faultMessage: string

    /** 'book-retriever-books' */
    var books: Option<seq<Book>>
    /** 'book-retriever-user' */
    var user: Option<User>
    /** 'book-retriever-libraries' */
    var libraries: Option<seq<Library>>
    /** 'book-retriever-availability' */
    var availability: Option<map<string, BookAvailability>>
    /** 'goodreads-rss-url', written by the feed service, not by this class */
    var rssUrl: Option<string>

    constructor (readable: bool, writable: bool, faultMessage: string)
      ensures this.readable == readable && this.writable == writable
      ensures this.faultMessage == faultMessage
      ensures books.None? && user.None? && libraries.None? && availability.None? && rssUrl.None?
    {
      this.readable := readable;
      this.writable := writable;
      this.faultMessage := faultMessage;
      books, user, libraries, availability, rssUrl := None, None, None, None, None;
    }

    /** The error every failing write raises. */
    function WriteError(): Error
      reads this
    {
      StorageError(faultMessage)
    }

    function GetBooks(): (r: seq<Book>)
      reads this
      ensures books.None? ==> r == []
      ensures readable && books.Some? ==> r == books.value
      ensures !readable ==> r == []
    {
      ReadOr(books, readable, [])
    }

    function GetUser(): (r: Option<User>)
      reads this
      ensures user.None? || !readable ==> r.None?
      ensures readable ==> r == user
    {
      if readable then user else None
    }

    function GetLibraries(): (r: seq<Library>)
      reads this
      ensures libraries.None? ==> r == []
      ensures readable && libraries.Some? ==> r == libraries.value
      ensures !readable ==> r == []
    {
      ReadOr(libraries, readable, [])
    }

    function GetAvailability(): (r: map<string, BookAvailability>)
      reads this
      ensures availability.None? ==> r == map[]
      ensures readable && availability.Some? ==> r == availability.value
      ensures !readable ==> r == map[]
    {
      ReadOr(availability, readable, map[])
    }

    /** Full replace of the books key; a following `GetBooks` returns exactly `bs`. */
    method SaveBooks(bs: seq<Book>) returns (o: Outcome)
      modifies this`books
      ensures o == if writable then Pass else Fail(WriteError())
      ensures books == if writable then Some(bs) else old(books)
      ensures writable && readable ==> GetBooks() == bs
    {
      if writable {
        books := Some(bs);
        o := Pass;
      } else {
        o := Fail(WriteError());
      }
    }

    method SaveUser(u: User) returns (o: Outcome)
      modifies this`user
      ensures o == if writable then Pass else Fail(WriteError())
      ensures user == if writable then Some(u) else old(user)
      ensures writable && readable ==> GetUser() == Some(u)
    {
      if writable {
        user := Some(u);
        o := Pass;
      } else {
        o := Fail(WriteError());
      }
    }

    method SaveLibraries(ls: seq<Library>) returns (o: Outcome)
      modifies this`libraries
      ensures o == if writable then Pass else Fail(WriteError())
      ensures libraries == if writable then Some(ls) else old(libraries)
      ensures writable && readable ==> GetLibraries() == ls
    {
      if writable {
        libraries := Some(ls);
        o := Pass;
      } else {
        o := Fail(WriteError());
      }
    }

    method SaveAvailability(a: map<string, BookAvailability>) returns (o: Outcome)
      modifies this`availability
      ensures o == if writable then Pass else Fail(WriteError())
      ensures availability == if writable then Some(a) else old(availability)
      ensures writable && readable ==> GetAvailability() == a
    {
      if writable {
        availability := Some(a);
        o := Pass;
      } else {
        o := Fail(WriteError());
      }
    }

    /** Removes the four keys of this class in turn; the feed URL key stays.
        A failing medium throws at the first removal, so nothing is removed. */
    method ClearAll() returns (o: Outcome)
      modifies this`books, this`user, this`libraries, this`availability
      ensures o == if writable then Pass else Fail(WriteError())
      ensures writable ==> books.None? && user.None? && libraries.None? && availability.None?
      ensures writable ==> GetBooks() == [] && GetUser().None? && GetLibraries() == [] && GetAvailability() == map[]
      ensures !writable ==>
        books == old(books) && user == old(user) && libraries == old(libraries) && availability == old(availability)
    {
      if !writable {
        return Fail(WriteError());
      }
      books := None;
      user := None;
      libraries := None;
      availability := None;
      o := Pass;
    }
  }
}
