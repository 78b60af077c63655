/** The records shared by every service and component (src/types.ts), the
    error values the services raise, and JavaScript's truthiness on the
    optional string fields. */
module Types {

  import Text

  datatype Option<T> = None | Some(value: T)

  /** An optional string field in a JavaScript condition: present and non-empty. */
  predicate Truthy(s: Option<string>) {
    s.Some? && s.value != ""
  }

  /** `a || b` on two optional string fields. */
  function Or(a: Option<string>, b: Option<string>): Option<string> {
    if Truthy(a) then a else b
  }

  /** The four values of `LibraryAvailability.format`: 'ebook', 'audiobook', 'both', 'none'. */
  datatype Format = Ebook | Audiobook | Both | NoFormat

  datatype LibraryAvailability = LibraryAvailability(
    libraryId: string,
    name: string,
    available: bool,
    format: Format,
    url: Option<string>)

  /** `lastChecked` is a timestamp in milliseconds since the epoch. */
  datatype BookAvailability = BookAvailability(
    lastChecked: int,
    libraries: seq<LibraryAvailability>)

  /** `isbn` holds the ISBN-10 and may be empty; the other optional fields may be absent. */
  datatype Book = Book(
    id: string,
    title: string,
    author: string,
    isbn: string,
    isbn13: Option<string>,
    coverUrl: Option<string>,
    publishedDate: Option<string>,
    availability: Option<BookAvailability>)

  datatype UserLibrary = UserLibrary(libraryId: string, cardNumber: Option<string>, pin: Option<string>)

  datatype User = User(id: string, email: string, name: Option<string>, libraries: seq<UserLibrary>)

  datatype Library = Library(id: string, name: string, website: string, apiEndpoint: Option<string>)

  /** The identifier a catalog search uses: `book.isbn13 || book.isbn`. */
  function SearchIsbn(book: Book): (key: string)
    ensures key != "" <==> Truthy(book.isbn13) || book.isbn != ""
    ensures Truthy(book.isbn13) ==> key == book.isbn13.value
    ensures !Truthy(book.isbn13) ==> key == book.isbn
  {
    if Truthy(book.isbn13) then book.isbn13.value else book.isbn
  }

  /** No two records of the list share an id. */
  predicate UniqueIds(books: seq<Book>) {
    forall i, j :: 0 <= i < j < |books| ==> books[i].id != books[j].id
  }

  predicate HasId(books: seq<Book>, id: string) {
    exists i :: 0 <= i < |books| && books[i].id == id
  }

  /** The errors the services throw; `Message` is the text of the thrown `Error`. */
  datatype Error =
    | NoRssUrl
    | FeedHttpError(statusText: string)
    | EmptyFeed
    | InvalidFeed
    | ApiError(status: nat)
    | MalformedResponse(description: string)
    | NetworkError(description: string)
    | StorageError(description: string)
  {
    function Message(): string {
      match this
      case NoRssUrl => "No RSS URL provided"
      case FeedHttpError(t) => "Failed to fetch RSS feed: " + t
      case EmptyFeed => "Empty response from RSS feed"
      case InvalidFeed => "Invalid RSS feed format - missing channel"
      case ApiError(status) => "API error: " + Text.NatToString(status)
      case MalformedResponse(d) => d
      case NetworkError(d) => d
      case StorageError(d) => d
    }
  }

  datatype Result<T> = Ok(value: T) | Err(error: Error)

  datatype Outcome = Pass | Fail(error: Error)
}
