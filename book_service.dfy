/** The identifier resolver (src/services/BookService.ts): looking a record
    up in the bibliographic lookup service to fill in its ISBN-13, and the
    mapping of lookup results to records for the manual search. The service
    is an oracle `lookup` from a query to its decoded response. */
module BookService {

  import opened Types
  import Text

  datatype IndustryIdentifier = IndustryIdentifier(kind: string, identifier: string)

  datatype VolumeInfo = VolumeInfo(
    title: string,
    authors: Option<seq<string>>,
    industryIdentifiers: Option<seq<IndustryIdentifier>>,
    thumbnail: Option<string>,
    publishedDate: Option<string>)

  /** One entry of `data.items`; `volumeInfo` may be missing from the response. */
  datatype Volume = Volume(id: string, volumeInfo: Option<VolumeInfo>)

  /** The `q` and `maxResults` parameters of one request. */
  datatype Query = Query(q: string, maxResults: nat)

  /** A decoded response (`data.items` may be missing), a response that is not
      ok, or a rejected fetch or body decoding. */
  datatype LookupResponse =
    | Found(items: Option<seq<Volume>>)
    | NotOk(status: nat)
    | LookupFailed(message: string)

  /** A response with no volume in it. */
  predicate NoItems(response: LookupResponse) {
    response.Found? && (response.items.None? || |response.items.value| == 0)
  }

  // ---------------------------------------------------------------------
  // Identifiers

  /** The identifier of the last entry of the given type, or '' when there is none. */
  function LastIdentifier(ids: seq<IndustryIdentifier>, kind: string): string
    decreases |ids|
  {
    if ids == [] then ""
    else if ids[|ids| - 1].kind == kind then ids[|ids| - 1].identifier
    else LastIdentifier(ids[..|ids| - 1], kind)
  }

  /** Later entries overwrite earlier ones: the last entry of the type wins. */
  lemma {:induction false} LastIdentifierIsLast(ids: seq<IndustryIdentifier>, kind: string, k: nat)
    requires k < |ids| && ids[k].kind == kind
    requires forall j :: k < j < |ids| ==> ids[j].kind != kind
    ensures LastIdentifier(ids, kind) == ids[k].identifier
    decreases |ids|
  {
    if k < |ids| - 1 {
      LastIdentifierIsLast(ids[..|ids| - 1], kind, k);
    }
  }

  /** Without an entry of the type the identifier is ''. */
  lemma {:induction false} LastIdentifierAbsent(ids: seq<IndustryIdentifier>, kind: string)
    requires forall k :: 0 <= k < |ids| ==> ids[k].kind != kind
    ensures LastIdentifier(ids, kind) == ""
    decreases |ids|
  {
    if ids != [] {
      LastIdentifierAbsent(ids[..|ids| - 1], kind);
    }
  }

  datatype Identifiers = Identifiers(isbn10: string, isbn13: string)

  /** What `extractIdentifiers` returns. */
  function IdentifiersOf(identifiers: Option<seq<IndustryIdentifier>>): Identifiers {
    match identifiers
    case None => Identifiers("", "")
    case Some(ids) => Identifiers(LastIdentifier(ids, "ISBN_10"), LastIdentifier(ids, "ISBN_13"))
  }

  /** `extractIdentifiers`: one pass over the list, each ISBN_13 or ISBN_10
      entry overwriting the value found so far; other types are ignored. */
  method ExtractIdentifiers(identifiers: Option<seq<IndustryIdentifier>>) returns (r: Identifiers)
    ensures r == IdentifiersOf(identifiers)
  {
    if identifiers.None? {
      return Identifiers("", "");
    }
    var ids := identifiers.value;
    var isbn10, isbn13 := "", "";
    var i := 0;
    while i < |ids|
      invariant 0 <= i <= |ids|
      invariant isbn10 == LastIdentifier(ids[..i], "ISBN_10")
      invariant isbn13 == LastIdentifier(ids[..i], "ISBN_13")
    {
      assert ids[..i + 1][..i] == ids[..i];
      if ids[i].kind == "ISBN_13" {
        isbn13 := ids[i].identifier;
      } else if ids[i].kind == "ISBN_10" {
        isbn10 := ids[i].identifier;
      }
      i := i + 1;
    }
    assert ids[..i] == ids;
    r := Identifiers(isbn10, isbn13);
  }

  // ---------------------------------------------------------------------
  // Enrichment

  const DetailsMaxResults := 1

  /** `intitle:<title> inauthor:<author>`, at most one result. */
  function TitleQuery(book: Book): Query {
    Query("intitle:" + book.title + " inauthor:" + book.author, DetailsMaxResults)
  }

  /** `isbn:<isbn>` when the record has an ISBN-10, else the title and author query. */
  function DetailsQuery(book: Book): (q: Query)
    ensures q.maxResults == DetailsMaxResults
    ensures book.isbn != "" ==> q == Query("isbn:" + book.isbn, DetailsMaxResults)
    ensures book.isbn == "" ==> q == TitleQuery(book)
  {
    if book.isbn != "" then Query("isbn:" + book.isbn, DetailsMaxResults) else TitleQuery(book)
  }

  /** The merge of a hit into the record: the identifiers of the hit replace the
      record's own when non-empty, the cover and date of the record are kept when
      present, and nothing else changes. */
  function Merge(book: Book, info: VolumeInfo): (r: Book)
    ensures r.id == book.id && r.title == book.title && r.author == book.author
    ensures r.availability == book.availability
    ensures var ids := IdentifiersOf(info.industryIdentifiers);
      && r.isbn13 == (if ids.isbn13 != "" then Some(ids.isbn13) else book.isbn13)
      && r.isbn == (if ids.isbn10 != "" then ids.isbn10 else book.isbn)
    ensures Truthy(book.coverUrl) ==> r.coverUrl == book.coverUrl
    ensures !Truthy(book.coverUrl) ==> r.coverUrl == info.thumbnail
    ensures Truthy(book.publishedDate) ==> r.publishedDate == book.publishedDate
    ensures !Truthy(book.publishedDate) ==> r.publishedDate == info.publishedDate
  {
    var ids := IdentifiersOf(info.industryIdentifiers);
    book.(isbn13 := if ids.isbn13 != "" then Some(ids.isbn13) else book.isbn13,
          isbn := if ids.isbn10 != "" then ids.isbn10 else book.isbn,
          coverUrl := Or(book.coverUrl, info.thumbnail),
          publishedDate := Or(book.publishedDate, info.publishedDate))
  }

  /** The record a call returns and the queries it sent, in order. */
  datatype Resolution = Resolution(book: Book, queries: seq<Query>)

  /** `fetchBookDetails` as written: when the ISBN query finds nothing it calls
      itself once on the record with `isbn` cleared, and returns what that call
      returns, so the record's ISBN-10 is not put back. */
  function FetchBookDetailsAsWritten(book: Book, lookup: Query -> LookupResponse): (r: Resolution)
    ensures r.queries == [] <==> Truthy(book.isbn13)
    ensures |r.queries| <= if book.isbn != "" then 2 else 1
    ensures r.book.id == book.id
    decreases if book.isbn != "" then 1 else 0
  {
    if Truthy(book.isbn13) then Resolution(book, [])
    else
      var query := DetailsQuery(book);
      var response := lookup(query);
      if !response.Found? then Resolution(book, [query])
      else if NoItems(response) then
        if book.isbn != "" then
          var retry := FetchBookDetailsAsWritten(book.(isbn := ""), lookup);
          Resolution(retry.book, [query] + retry.queries)
        else Resolution(book, [query])
      else match response.items.value[0].volumeInfo
        // a missing `volumeInfo` throws inside the try block
        case None => Resolution(book, [query])
        case Some(info) => Resolution(Merge(book, info), [query] + [])
  }

  /** A record whose ISBN query and title query both find nothing comes back
      without the ISBN-10 it had. */
  lemma RetryErasesIsbn(book: Book, lookup: Query -> LookupResponse)
    requires !Truthy(book.isbn13) && book.isbn != ""
    requires NoItems(lookup(DetailsQuery(book))) && NoItems(lookup(TitleQuery(book)))
    ensures FetchBookDetailsAsWritten(book, lookup).book == book.(isbn := "")
    ensures FetchBookDetails(book, lookup).book == book
  {
    assert DetailsQuery(book.(isbn := "")) == TitleQuery(book);
  }

  /** On the retry path the ISBN-10 returned is the hit's ISBN-10 or ''. */
  lemma AsWrittenRetryIsbn(book: Book, lookup: Query -> LookupResponse)
    requires !Truthy(book.isbn13) && book.isbn != "" && NoItems(lookup(DetailsQuery(book)))
    ensures var r := FetchBookDetailsAsWritten(book, lookup).book;
      var second := lookup(TitleQuery(book));
      if second.Found? && !NoItems(second) && second.items.value[0].volumeInfo.Some?
      then r.isbn == IdentifiersOf(second.items.value[0].volumeInfo.value.industryIdentifiers).isbn10
      else r.isbn == ""
  {
    assert DetailsQuery(book.(isbn := "")) == TitleQuery(book);
  }

  /** `fetchBookDetails` as evidently intended: clearing `isbn` only steers the
      retry towards the title query, and a retry that brings back no ISBN-10
      leaves the record's own in place. */
  function FetchBookDetails(book: Book, lookup: Query -> LookupResponse): (r: Resolution)
    ensures book.isbn != "" ==> r.book.isbn != ""
  {
    var r := FetchBookDetailsAsWritten(book, lookup);
    if r.book.isbn == "" then r.(book := r.book.(isbn := book.isbn)) else r
  }

  /** A record that has an ISBN-13 is returned as it is, without a query. */
  lemma FetchBookDetailsNoOp(book: Book, lookup: Query -> LookupResponse)
    requires Truthy(book.isbn13)
    ensures FetchBookDetails(book, lookup) == Resolution(book, [])
  {
  }

  /** One query, or two when the ISBN query finds nothing; each asks for one result. */
  lemma FetchBookDetailsQueries(book: Book, lookup: Query -> LookupResponse)
    requires !Truthy(book.isbn13)
    ensures var qs := FetchBookDetails(book, lookup).queries;
      && 1 <= |qs| <= 2
      && qs[0] == DetailsQuery(book)
      && (|qs| == 2 <==> book.isbn != "" && NoItems(lookup(DetailsQuery(book))))
      && (|qs| == 2 ==> qs[1] == TitleQuery(book))
      && forall i :: 0 <= i < |qs| ==> qs[i].maxResults == DetailsMaxResults
  {
    if book.isbn != "" && NoItems(lookup(DetailsQuery(book))) {
      var cleared := book.(isbn := "");
      assert DetailsQuery(cleared) == TitleQuery(book);
      assert TitleQuery(cleared) == TitleQuery(book);
      assert FetchBookDetailsAsWritten(cleared, lookup).queries == [TitleQuery(book)];
    }
  }

  /** Enrichment never takes information away: id, title, author and
      availability are kept, a present ISBN-13, cover or date is kept, and a
      record with an ISBN-10 still has one. */
  lemma FetchBookDetailsKeeps(book: Book, lookup: Query -> LookupResponse)
    ensures var r := FetchBookDetails(book, lookup).book;
      && r.id == book.id && r.title == book.title && r.author == book.author
      && r.availability == book.availability
      && (Truthy(book.isbn13) ==> r.isbn13 == book.isbn13)
      && (Truthy(book.coverUrl) ==> r.coverUrl == book.coverUrl)
      && (Truthy(book.publishedDate) ==> r.publishedDate == book.publishedDate)
      && (book.isbn != "" ==> r.isbn != "")
  {
    AsWrittenKeeps(book, lookup);
  }

  /** What the as-written resolver keeps, through its retry. */
  lemma {:induction false} AsWrittenKeeps(book: Book, lookup: Query -> LookupResponse)
    ensures var r := FetchBookDetailsAsWritten(book, lookup).book;
      && r.id == book.id && r.title == book.title && r.author == book.author
      && r.availability == book.availability
      && (Truthy(book.isbn13) ==> r.isbn13 == book.isbn13)
      && (Truthy(book.coverUrl) ==> r.coverUrl == book.coverUrl)
      && (Truthy(book.publishedDate) ==> r.publishedDate == book.publishedDate)
    decreases if book.isbn != "" then 1 else 0
  {
    if !Truthy(book.isbn13) && book.isbn != "" && NoItems(lookup(DetailsQuery(book))) {
      AsWrittenKeeps(book.(isbn := ""), lookup);
    }
  }

  /** A failed first request gives back the record unchanged. */
  lemma FetchBookDetailsFailure(book: Book, lookup: Query -> LookupResponse)
    requires !Truthy(book.isbn13) && !lookup(DetailsQuery(book)).Found?
    ensures FetchBookDetails(book, lookup).book == book
  {
  }

  /** The service answered with a first volume that carries its info. */
  predicate Hit(response: LookupResponse) {
    response.Found? && !NoItems(response) && response.items.value[0].volumeInfo.Some?
  }

  /** Without a usable hit, the record comes back as it was received: zero
      results for the title query, a first volume without info (its thrown
      error is caught), or a retry that finds nothing usable either. */
  lemma FetchBookDetailsNoHit(book: Book, lookup: Query -> LookupResponse)
    requires !Hit(lookup(DetailsQuery(book)))
    requires book.isbn != "" && NoItems(lookup(DetailsQuery(book))) ==> !Hit(lookup(TitleQuery(book)))
    ensures FetchBookDetails(book, lookup).book == book
  {
    if !Truthy(book.isbn13) && book.isbn != "" && NoItems(lookup(DetailsQuery(book))) {
      var cleared := book.(isbn := "");
      assert DetailsQuery(cleared) == TitleQuery(book);
      assert FetchBookDetailsAsWritten(cleared, lookup).book == cleared;
    }
  }

  /** A hit on the first query is merged into the record. */
  lemma FetchBookDetailsHit(book: Book, lookup: Query -> LookupResponse, info: VolumeInfo)
    requires !Truthy(book.isbn13)
    requires var response := lookup(DetailsQuery(book));
      response.Found? && !NoItems(response) && response.items.value[0].volumeInfo == Some(info)
    ensures FetchBookDetails(book, lookup).book == Merge(book, info)
  {
  }

  // ---------------------------------------------------------------------
  // Search

  const SearchMaxResults := 10

  /** The record made from one search result. */
  function SearchResult(volume: Volume, info: VolumeInfo): (b: Book)
    ensures b.id == volume.id && b.title == info.title
    ensures b.author == if info.authors.Some? then Text.Join(info.authors.value, ", ") else "Unknown"
    ensures b.isbn == IdentifiersOf(info.industryIdentifiers).isbn10
    ensures b.isbn13 == Some(IdentifiersOf(info.industryIdentifiers).isbn13)
    ensures b.availability.None?
  {
    var ids := IdentifiersOf(info.industryIdentifiers);
    Book(volume.id, info.title,
         if info.authors.Some? then Text.Join(info.authors.value, ", ") else "Unknown",
         ids.isbn10, Some(ids.isbn13), info.thumbnail, info.publishedDate, None)
  }

  predicate AllHaveInfo(items: seq<Volume>) {
    forall i :: 0 <= i < |items| ==> items[i].volumeInfo.Some?
  }

  /** `searchBooks(query)`: at most ten results, one record per result in order;
      a response that is not ok or a failed request throws, no items give []. */
  function SearchBooks(query: string, lookup: Query -> LookupResponse): (r: Result<seq<Book>>)
    ensures var response := lookup(Query(query, SearchMaxResults));
      && (response.NotOk? ==> r == Err(ApiError(response.status)))
      && (response.LookupFailed? ==> r == Err(NetworkError(response.message)))
      && (response.Found? && response.items.None? ==> r == Ok([]))
      && (response.Found? && response.items.Some? ==>
            (r.Ok? <==> AllHaveInfo(response.items.value)))
      && (r.Ok? && response.Found? && response.items.Some? ==>
            var items := response.items.value;
            && |r.value| == |items|
            && forall i :: 0 <= i < |items| ==> r.value[i] == SearchResult(items[i], items[i].volumeInfo.value))
  {
    match lookup(Query(query, SearchMaxResults))
    case NotOk(status) => Err(ApiError(status))
    case LookupFailed(message) => Err(NetworkError(message))
    case Found(None) => Ok([])
    case Found(Some(items)) =>
      if AllHaveInfo(items) then
        Ok(seq(|items|, i requires 0 <= i < |items| => SearchResult(items[i], items[i].volumeInfo.value)))
      else Err(MalformedResponse("Cannot read properties of undefined (reading 'industryIdentifiers')"))
  }
}
