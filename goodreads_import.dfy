/** The import form (src/components/GoodreadsImport.tsx): the feed URL field,
    its status flags and messages, and the submit handler that saves the URL,
    fetches the feed and hands a non-empty result to the parent. The call of
    `onBooksImported` is the handler's out-parameter. */
module GoodreadsImport {

  import opened Types
  import Text
  import Http
  import Storage
  import GoodreadsService

  const InvalidUrlMessage := "Please enter a valid Goodreads RSS URL"
  const ConnectingStatus := "Connecting to Goodreads RSS feed..."
  const FetchingStatus := "Fetching books from Goodreads..."
  const ProcessingStatus := "Processing book data..."
  const NoBooksMessage := "No books found in the RSS feed. Please check the URL and try again."

  function SuccessStatus(count: nat): string {
    "Successfully imported " + Text.NatToString(count) + " books!"
  }

  /** The message shown for a thrown error; an empty `err.message` reads 'Unknown error'. */
  function FailureMessage(e: Error): (m: string)
    ensures "Failed to import books from Goodreads: " <= m
  {
    var detail := if e.Message() != "" then e.Message() else "Unknown error";
    "Failed to import books from Goodreads: " + detail + ". Please check your RSS URL and try again."
  }

  /** What the form shows once the fetch has ended: the books handed on,
      the success flag, the status line and the error message. */
  datatype Report = Report(imported: Option<seq<Book>>, isSuccess: bool, importStatus: string, error: Option<string>)

  /** The form after a fetch with the given result. Books are handed on, and
      success shown, exactly for a non-empty result, and then no error is
      shown; every other result shows an error. */
  function ReportOf(fetched: Result<seq<Book>>): (r: Report)
    ensures r.isSuccess <==> r.imported.Some?
    ensures r.imported.Some? <==> fetched.Ok? && |fetched.value| > 0
    ensures r.imported.Some? ==> r.imported.value == fetched.value && r.error.None?
    ensures r.imported.None? <==> r.error.Some?
    ensures fetched.Err? ==> r.error == Some(FailureMessage(fetched.error)) && r.importStatus == FetchingStatus
    ensures fetched.Ok? && |fetched.value| == 0 ==> r.error == Some(NoBooksMessage)
  {
    match fetched
    case Err(e) => Report(None, false, FetchingStatus, Some(FailureMessage(e)))
    case Ok(books) =>
      if |books| == 0 then Report(None, false, ProcessingStatus, Some(NoBooksMessage))
      else Report(Some(books), true, SuccessStatus(|books|), None)
  }

  class ImportForm {
    var rssUrl: string
    var isLoading: bool
    var error: Option<string>
    var isSuccess: bool
    var importStatus: string

    /** The field starts as the stored feed URL, or '' when none can be read. */
    constructor (db: Storage.Database)
      ensures rssUrl == if GoodreadsService.GetRssUrl(db).Some? then GoodreadsService.GetRssUrl(db).value else ""
      ensures !isLoading && error.None? && !isSuccess && importStatus == ""
    {
      var stored := GoodreadsService.GetRssUrl(db);
      rssUrl := if stored.Some? then stored.value else "";
      isLoading := false;
      error := None;
      isSuccess := false;
      importStatus := "";
    }

    /** The field's change handler. */
    method EditRssUrl(url: string)
      modifies this`rssUrl
      ensures rssUrl == url
    {
      rssUrl := url;
    }

    /** The steps of `handleImport` after the URL is saved, for the result of the fetch. */
    method ReportFetch(fetched: Result<seq<Book>>) returns (imported: Option<seq<Book>>)
      modifies this`error, this`isSuccess, this`importStatus
      requires !isSuccess && error.None?
      ensures Report(imported, isSuccess, importStatus, error) == ReportOf(fetched)
    {
      importStatus := FetchingStatus;
      imported := None;
      if fetched.Err? {
        error := Some(FailureMessage(fetched.error));
        return;
      }
      importStatus := ProcessingStatus;
      if |fetched.value| == 0 {
        error := Some(NoBooksMessage);
      } else {
        importStatus := SuccessStatus(|fetched.value|);
        imported := Some(fetched.value);
        isSuccess := true;
      }
    }

    /** The steps of `handleImport` from the save of the URL on. */
    method SaveAndFetch(db: Storage.Database, fetch: string -> Http.Response,
                        parse: string -> GoodreadsService.Document, clock: nat -> nat, random: nat -> string)
      returns (imported: Option<seq<Book>>)
      modifies this`error, this`isSuccess, this`importStatus, db`rssUrl
      requires !Text.IsBlank(rssUrl) && !isSuccess && error.None? && importStatus == ConnectingStatus
      ensures !db.writable ==>
        && imported.None? && !isSuccess && importStatus == ConnectingStatus
        && error == Some(FailureMessage(db.WriteError())) && db.rssUrl == old(db.rssUrl)
      ensures db.writable ==>
        && db.rssUrl == Some(rssUrl)
        && Report(imported, isSuccess, importStatus, error)
           == ReportOf(GoodreadsService.FetchFeed(rssUrl, fetch, parse, clock, random))
    {
      var saved := GoodreadsService.SaveRssUrl(db, rssUrl);
      if saved.Fail? {
        error := Some(FailureMessage(saved.error));
        return None;
      }
      assert Truthy(Some(rssUrl));
      var fetched := GoodreadsService.FetchBooks(db, Some(rssUrl), fetch, parse, clock, random);
      imported := ReportFetch(fetched);
    }

    /** `handleImport`. A blank URL is refused before anything else happens.
        Otherwise loading starts and the old outcome is cleared, the URL is
        saved, then the feed fetched; an empty result is reported as an
        error, a non-empty one is handed on exactly once, and any thrown
        error is reported with its message. Loading ends on every path. */
    method HandleImport(db: Storage.Database, fetch: string -> Http.Response,
                        parse: string -> GoodreadsService.Document, clock: nat -> nat, random: nat -> string)
      returns (imported: Option<seq<Book>>)
      modifies this`isLoading, this`error, this`isSuccess, this`importStatus, db`rssUrl
      ensures Text.IsBlank(rssUrl) ==>
        && imported.None? && error == Some(InvalidUrlMessage)
        && isLoading == old(isLoading) && isSuccess == old(isSuccess) && importStatus == old(importStatus)
        && db.rssUrl == old(db.rssUrl)
      ensures !Text.IsBlank(rssUrl) ==> !isLoading
      ensures !Text.IsBlank(rssUrl) && !db.writable ==>
        && imported.None? && !isSuccess && importStatus == ConnectingStatus
        && error == Some(FailureMessage(db.WriteError())) && db.rssUrl == old(db.rssUrl)
      ensures !Text.IsBlank(rssUrl) && db.writable ==>
        && db.rssUrl == Some(rssUrl)
        && Report(imported, isSuccess, importStatus, error)
           == ReportOf(GoodreadsService.FetchFeed(rssUrl, fetch, parse, clock, random))
    {
      // `!rssUrl.trim()`, which holds exactly for a blank URL (Text.TrimsToEmpty)
      if Text.IsBlank(rssUrl) {
        error := Some(InvalidUrlMessage);
        return None;
      }
      isLoading := true;
      error := None;
      isSuccess := false;
      importStatus := ConnectingStatus;
      imported := SaveAndFetch(db, fetch, parse, clock, random);
      isLoading := false;
    }
  }
}
